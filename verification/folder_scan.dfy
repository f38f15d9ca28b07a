/**
 * `scanFolderRecursive` of both controllers. The file system is a tree value: a
 * directory's listing is `None` where `listFiles` returns null.
 */
module FolderScan {
  import opened Wrappers
  import opened Text
  import opened Items
  import opened MediaType

  /**
   * One entry of a directory listing; `Other` is neither a directory nor a
   * regular file. A directory that cannot be listed (`listFiles` returns
   * null) has `listable` false, and its entries are never looked at.
   */
  datatype Entry =
    | Dir(name: string, listable: bool, entries: seq<Entry>)
    | File(name: string, modified: int)
    | Other(name: string)

  /** What a scan collects: the media items in visiting order, and the media count per folder path. */
  datatype Scan = Scan(items: seq<MediaItem>, counts: map<string, nat>)

  /** The media item for a regular file, if its name has a media extension (images win over videos). */
  function ItemFor(folder: string, name: string, modified: int): (r: Option<MediaItem>)
    ensures r.Some? <==> IsImageFile(name) || IsVideoFile(name)
    ensures r.Some? ==> r.value.path == Child(folder, name) && r.value.parent == Some(folder) && r.value.name == name
    ensures r.Some? ==> (r.value.kind == Image <==> IsImageFile(name))
  {
    if IsImageFile(name) then Some(MediaItem(Child(folder, name), Some(folder), name, Image, modified))
    else if IsVideoFile(name) then Some(MediaItem(Child(folder, name), Some(folder), name, Video, modified))
    else None
  }

  /** How many entries of a listing are media files directly in it. */
  function DirectCount(folder: string, entries: seq<Entry>): nat {
    if entries == [] then 0
    else
      (if entries[0].File? && ItemFor(folder, entries[0].name, entries[0].modified).Some? then 1 else 0)
      + DirectCount(folder, entries[1..])
  }

  /**
   * `scanFolderRecursive(folder, ...)`: a directory's entries in listing
   * order, sub-directories scanned in place; the folder itself is recorded
   * only when it directly holds a media file.
   */
  function ScanFolder(path: string, listing: Option<seq<Entry>>): (r: Scan) {
    match listing
    case None => Scan([], map[])
    case Some(entries) => ScanListing(path, entries)
  }

  function ScanListing(path: string, entries: seq<Entry>): (r: Scan)
    decreases entries, 1
  {
    var s := ScanEntries(path, entries);
    var n := DirectCount(path, entries);
    if n > 0 then Scan(s.items, s.counts[path := n]) else s
  }

  function ScanEntries(path: string, entries: seq<Entry>): (r: Scan)
    decreases entries, 0
  {
    if entries == [] then Scan([], map[])
    else
      var first := FirstOf(path, entries[0]);
      var rest := ScanEntries(path, entries[1..]);
      Scan(first.items + rest.items, first.counts + rest.counts)
  }

  /** `p` is the folder `root` or lies somewhere below it. */
  predicate Within(p: string, root: string) {
    p == root || StartsWith(p, root + [Sep])
  }

  /** An item found under `root`: in a folder within `root`, named with a media extension and of the matching kind. */
  predicate ScannedItem(root: string, item: MediaItem) {
    && item.parent.Some?
    && item.path == Child(item.parent.value, item.name)
    && Within(item.parent.value, root)
    && (IsImageFile(item.name) || IsVideoFile(item.name))
    && (item.kind == Image <==> IsImageFile(item.name))
  }

  /** The folders that directly hold some item. */
  function Parents(items: seq<MediaItem>): set<string> {
    if items == [] then {}
    else (if items[0].parent.Some? then {items[0].parent.value} else {}) + Parents(items[1..])
  }

  lemma {:induction false} ParentsAppend(a: seq<MediaItem>, b: seq<MediaItem>)
    ensures Parents(a + b) == Parents(a) + Parents(b)
  {
    if a == [] {
      assert a + b == b;
    } else {
      assert (a + b)[1..] == a[1..] + b;
      ParentsAppend(a[1..], b);
    }
  }

  /** A folder within a sub-folder of `path` is strictly below `path`. */
  lemma WithinChild(path: string, name: string, p: string)
    requires Within(p, Child(path, name))
    ensures StartsWith(p, path + [Sep]) && |p| > |path|
  {
    var c := Child(path, name);
    assert c[..|path| + 1] == path + [Sep];
    if p != c {
      assert p[..|path| + 1] == (c + [Sep])[..|path| + 1];
    }
  }

  /** Every parent of a list of items found under `root` is within `root`. */
  lemma {:induction false} ParentsWithin(root: string, items: seq<MediaItem>, p: string)
    requires forall it :: it in items ==> ScannedItem(root, it)
    requires p in Parents(items)
    ensures Within(p, root)
  {
    assert items != [];
    if items[0].parent.Some? && p == items[0].parent.value {
      assert ScannedItem(root, items[0]);
    } else {
      ParentsWithin(root, items[1..], p);
    }
  }

  /** What holds of a folder's scan: its items lie within it, and the recorded folders are exactly the items' folders. */
  predicate FolderScanFacts(path: string, r: Scan) {
    && (forall it :: it in r.items ==> ScannedItem(path, it))
    && r.counts.Keys == Parents(r.items)
    && (forall k :: k in r.counts ==> r.counts[k] > 0)
  }

  /** The same for a listing before its own folder is recorded. */
  predicate EntriesScanFacts(path: string, entries: seq<Entry>, r: Scan) {
    && (forall it :: it in r.items ==> ScannedItem(path, it))
    && r.counts.Keys == Parents(r.items) - {path}
    && (forall k :: k in r.counts ==> r.counts[k] > 0)
    && (path in Parents(r.items) <==> DirectCount(path, entries) > 0)
  }

  /**
   * Every item the scan finds is a media file of the right kind under the
   * scanned folder; a folder is recorded, with a positive count, exactly
   * when it directly holds one of the items.
   */
  lemma ScanFolderSound(path: string, listing: Option<seq<Entry>>)
    ensures FolderScanFacts(path, ScanFolder(path, listing))
  {
    if listing.Some? {
      ScanListingSound(path, listing.value);
    }
  }

  lemma {:induction false} ScanListingSound(path: string, entries: seq<Entry>)
    ensures FolderScanFacts(path, ScanListing(path, entries))
    decreases entries, 1
  {
    var s := ScanEntries(path, entries);
    ScanEntriesSound(path, entries);
    var r := ScanListing(path, entries);
    assert r.items == s.items;
    if DirectCount(path, entries) > 0 {
      assert r.counts.Keys == s.counts.Keys + {path};
    } else {
      assert r == s;
    }
  }

  lemma {:induction false} ScanEntriesSound(path: string, entries: seq<Entry>)
    ensures EntriesScanFacts(path, entries, ScanEntries(path, entries))
    decreases entries, 0
  {
    if entries != [] {
      var r := ScanEntries(path, entries);
      var first := FirstOf(path, entries[0]);
      var rest := ScanEntries(path, entries[1..]);
      ScanEntriesSound(path, entries[1..]);
      assert r.items == first.items + rest.items;
      assert r.counts == first.counts + rest.counts;
      ParentsAppend(first.items, rest.items);
      FirstSound(path, entries[0]);
      if entries[0].File? && ItemFor(path, entries[0].name, entries[0].modified).Some? {
        assert path in Parents(first.items);
      } else {
        assert path !in Parents(first.items);
      }
    }
  }

  /** The contribution of one entry to its folder's scan. */
  function FirstOf(path: string, e: Entry): (r: Scan)
    ensures e.File? ==> r.counts == map[]
    decreases e, 2
  {
    match e
    case Dir(name, listable, entries) =>
      if listable then ScanListing(Child(path, name), entries) else Scan([], map[])
    case File(name, modified) =>
      (match ItemFor(path, name, modified)
       case Some(item) => Scan([item], map[])
       case None => Scan([], map[]))
    case Other(_) => Scan([], map[])
  }

  lemma {:induction false} FirstSound(path: string, e: Entry)
    ensures forall it :: it in FirstOf(path, e).items ==> ScannedItem(path, it)
    ensures FirstOf(path, e).counts.Keys == Parents(FirstOf(path, e).items) - {path}
    ensures forall k :: k in FirstOf(path, e).counts ==> FirstOf(path, e).counts[k] > 0
    ensures path in Parents(FirstOf(path, e).items) <==> e.File? && ItemFor(path, e.name, e.modified).Some?
    decreases e, 2
  {
    var r := FirstOf(path, e);
    match e
    case Dir(name, false, _) =>
    case Dir(name, true, entries) =>
      var c := Child(path, name);
      ScanListingSound(c, entries);
      forall it | it in r.items
        ensures ScannedItem(path, it)
      {
        WithinChild(path, name, it.parent.value);
      }
      if path in Parents(r.items) {
        ParentsWithin(c, r.items, path);
        WithinChild(path, name, path);
      }
    case File(name, modified) =>
      if ItemFor(path, name, modified).Some? {
        assert r.items == [ItemFor(path, name, modified).value];
        assert Parents(r.items) == {path};
      }
    case Other(_) =>
  }

  // ---- completeness: every media file reachable through listable folders is found ----

  /**
   * The file `name` with time `modified` lies directly in `folder`, reached
   * from the listing of `path` through directories that can be listed.
   */
  predicate ReachesIn(path: string, entries: seq<Entry>, folder: string, name: string, modified: int)
    decreases entries, 0
  {
    entries != [] && (ReachesVia(path, entries[0], folder, name, modified) || ReachesIn(path, entries[1..], folder, name, modified))
  }

  predicate ReachesVia(path: string, e: Entry, folder: string, name: string, modified: int)
    decreases e, 1
  {
    match e
    case File(n, m) => folder == path && n == name && m == modified
    case Dir(n, listable, entries) => listable && ReachesIn(Child(path, n), entries, folder, name, modified)
    case Other(_) => false
  }

  /**
   * The items a scan finds are exactly the media items of the files reached
   * through listable folders: none is missed and none is invented.
   */
  lemma ScanFolderComplete(path: string, listing: Option<seq<Entry>>, folder: string, name: string, modified: int)
    requires ItemFor(folder, name, modified).Some?
    ensures ItemFor(folder, name, modified).value in ScanFolder(path, listing).items
            <==> listing.Some? && ReachesIn(path, listing.value, folder, name, modified)
  {
    var item := ItemFor(folder, name, modified).value;
    if listing.Some? {
      if ReachesIn(path, listing.value, folder, name, modified) {
        ScanListingComplete(path, listing.value, folder, name, modified);
      }
      if item in ScanFolder(path, listing).items {
        ScanListingReached(path, listing.value, item);
      }
    }
  }

  lemma {:induction false} ScanListingComplete(path: string, entries: seq<Entry>, folder: string, name: string, modified: int)
    requires ReachesIn(path, entries, folder, name, modified) && ItemFor(folder, name, modified).Some?
    ensures ItemFor(folder, name, modified).value in ScanListing(path, entries).items
    decreases entries, 1
  {
    ScanEntriesComplete(path, entries, folder, name, modified);
  }

  lemma {:induction false} ScanEntriesComplete(path: string, entries: seq<Entry>, folder: string, name: string, modified: int)
    requires ReachesIn(path, entries, folder, name, modified) && ItemFor(folder, name, modified).Some?
    ensures ItemFor(folder, name, modified).value in ScanEntries(path, entries).items
    decreases entries, 0
  {
    if ReachesVia(path, entries[0], folder, name, modified) {
      FirstComplete(path, entries[0], folder, name, modified);
    } else {
      ScanEntriesComplete(path, entries[1..], folder, name, modified);
    }
  }

  lemma {:induction false} FirstComplete(path: string, e: Entry, folder: string, name: string, modified: int)
    requires ReachesVia(path, e, folder, name, modified) && ItemFor(folder, name, modified).Some?
    ensures ItemFor(folder, name, modified).value in FirstOf(path, e).items
    decreases e, 2
  {
    match e
    case Dir(n, _, entries) =>
      ScanListingComplete(Child(path, n), entries, folder, name, modified);
    case File(_, _) =>
  }

  lemma {:induction false} ScanListingReached(path: string, entries: seq<Entry>, it: MediaItem)
    requires it in ScanListing(path, entries).items
    ensures it.parent.Some? && ReachesIn(path, entries, it.parent.value, it.name, it.modified)
    ensures ItemFor(it.parent.value, it.name, it.modified) == Some(it)
    decreases entries, 1
  {
    ScanEntriesReached(path, entries, it);
  }

  lemma {:induction false} ScanEntriesReached(path: string, entries: seq<Entry>, it: MediaItem)
    requires it in ScanEntries(path, entries).items
    ensures it.parent.Some? && ReachesIn(path, entries, it.parent.value, it.name, it.modified)
    ensures ItemFor(it.parent.value, it.name, it.modified) == Some(it)
    decreases entries, 0
  {
    var first := FirstOf(path, entries[0]);
    if it in first.items {
      FirstReached(path, entries[0], it);
    } else {
      ScanEntriesReached(path, entries[1..], it);
    }
  }

  lemma {:induction false} FirstReached(path: string, e: Entry, it: MediaItem)
    requires it in FirstOf(path, e).items
    ensures it.parent.Some? && ReachesVia(path, e, it.parent.value, it.name, it.modified)
    ensures ItemFor(it.parent.value, it.name, it.modified) == Some(it)
    decreases e, 2
  {
    match e
    case Dir(n, _, entries) =>
      ScanListingReached(Child(path, n), entries, it);
    case File(_, _) =>
  }

  // ---- counts: each recorded count is the number of items found directly in that folder ----

  /** How many of `items` lie directly in `folder`. */
  function CountIn(items: seq<MediaItem>, folder: string): nat {
    if items == [] then 0
    else (if items[0].parent == Some(folder) then 1 else 0) + CountIn(items[1..], folder)
  }

  lemma {:induction false} CountInAppend(a: seq<MediaItem>, b: seq<MediaItem>, folder: string)
    ensures CountIn(a + b, folder) == CountIn(a, folder) + CountIn(b, folder)
  {
    if a == [] {
      assert a + b == b;
    } else {
      assert (a + b)[1..] == a[1..] + b;
      CountInAppend(a[1..], b, folder);
    }
  }

  lemma {:induction false} CountInAbsent(items: seq<MediaItem>, folder: string)
    requires folder !in Parents(items)
    ensures CountIn(items, folder) == 0
  {
    if items != [] {
      CountInAbsent(items[1..], folder);
    }
  }

  /** A scanned listing holds as many items directly in its folder as the folder has media files. */
  lemma {:induction false} DirectCountCounts(path: string, entries: seq<Entry>)
    ensures CountIn(ScanEntries(path, entries).items, path) == DirectCount(path, entries)
    decreases entries
  {
    if entries != [] {
      var first := FirstOf(path, entries[0]);
      var rest := ScanEntries(path, entries[1..]);
      DirectCountCounts(path, entries[1..]);
      CountInAppend(first.items, rest.items, path);
      FirstSound(path, entries[0]);
      if !(entries[0].File? && ItemFor(path, entries[0].name, entries[0].modified).Some?) {
        CountInAbsent(first.items, path);
      }
    }
  }

  /** The names in a listing. */
  function Names(entries: seq<Entry>): set<string> {
    if entries == [] then {} else {entries[0].name} + Names(entries[1..])
  }

  /**
   * What a file system guarantees of a listing: the names in one directory
   * are distinct and none contains the separator, all the way down.
   */
  predicate ProperListing(entries: seq<Entry>)
    decreases entries, 0
  {
    entries != [] ==>
      && ProperEntry(entries[0])
      && entries[0].name !in Names(entries[1..])
      && ProperListing(entries[1..])
  }

  predicate ProperEntry(e: Entry)
    decreases e, 1
  {
    Sep !in e.name && (e.Dir? ==> ProperListing(e.entries))
  }

  /** The longest prefix of `s` without a separator. */
  function Segment(s: string): (r: string)
    ensures Sep !in r
  {
    if s == [] || s[0] == Sep then [] else [s[0]] + Segment(s[1..])
  }

  /** The entry of `path` a folder below it lies in: its first name after `path`. */
  function OwnerName(path: string, p: string): string {
    if |p| > |path| then Segment(p[|path| + 1..]) else []
  }

  lemma {:induction false} SegmentOf(n: string, t: string)
    requires Sep !in n && (t == [] || t[0] == Sep)
    ensures Segment(n + t) == n
  {
    if n != [] {
      assert (n + t)[1..] == n[1..] + t;
      SegmentOf(n[1..], t);
    } else {
      assert n + t == t;
    }
  }

  /** A folder within the sub-folder `name` of `path` lies in the entry `name`. */
  lemma OwnerNameOf(path: string, name: string, p: string)
    requires Within(p, Child(path, name)) && Sep !in name
    ensures OwnerName(path, p) == name
  {
    var c := Child(path, name);
    WithinChild(path, name, p);
    if p == c {
      assert p[|path| + 1..] == name + [];
      SegmentOf(name, []);
    } else {
      assert p[..|c| + 1] == c + [Sep];
      assert p[|path| + 1..] == name + p[|c|..];
      SegmentOf(name, p[|c|..]);
    }
  }

  /** Every folder an entry's scan finds items in is the entry's own folder, or lies in the entry. */
  lemma {:induction false} FirstOwner(path: string, e: Entry, p: string)
    requires Sep !in e.name && p in Parents(FirstOf(path, e).items)
    ensures p == path || OwnerName(path, p) == e.name
  {
    var r := FirstOf(path, e);
    match e
    case Dir(name, _, entries) =>
      ScanListingSound(Child(path, name), entries);
      ParentsWithin(Child(path, name), r.items, p);
      OwnerNameOf(path, name, p);
    case File(name, modified) =>
      assert r.items == [ItemFor(path, name, modified).value];
  }

  /** Every folder a listing's scan finds items in is the listing's own folder, or lies in one of its entries. */
  lemma {:induction false} EntriesOwner(path: string, entries: seq<Entry>, p: string)
    requires ProperListing(entries) && p in Parents(ScanEntries(path, entries).items)
    ensures p == path || OwnerName(path, p) in Names(entries)
  {
    var first := FirstOf(path, entries[0]);
    var rest := ScanEntries(path, entries[1..]);
    ParentsAppend(first.items, rest.items);
    if p in Parents(first.items) {
      FirstOwner(path, entries[0], p);
    } else {
      EntriesOwner(path, entries[1..], p);
    }
  }

  /** Each count a scan records is the number of items it found directly in that folder. */
  predicate CountsMatch(r: Scan) {
    forall k :: k in r.counts ==> r.counts[k] == CountIn(r.items, k)
  }

  /**
   * In a listing a file system can produce, the scan records for each folder
   * exactly the number of items it found directly in that folder.
   */
  lemma ScanFolderCounts(path: string, listing: Option<seq<Entry>>)
    requires listing.Some? ==> ProperListing(listing.value)
    ensures CountsMatch(ScanFolder(path, listing))
  {
    if listing.Some? {
      ScanListingCounts(path, listing.value);
    }
  }

  lemma {:induction false} ScanListingCounts(path: string, entries: seq<Entry>)
    requires ProperListing(entries)
    ensures CountsMatch(ScanListing(path, entries))
    decreases entries, 1
  {
    ScanEntriesCounts(path, entries);
    DirectCountCounts(path, entries);
  }

  lemma {:induction false} ScanEntriesCounts(path: string, entries: seq<Entry>)
    requires ProperListing(entries)
    ensures CountsMatch(ScanEntries(path, entries))
    decreases entries, 0
  {
    if entries != [] {
      var r := ScanEntries(path, entries);
      var first := FirstOf(path, entries[0]);
      var rest := ScanEntries(path, entries[1..]);
      FirstCounts(path, entries[0]);
      ScanEntriesCounts(path, entries[1..]);
      FirstSound(path, entries[0]);
      ScanEntriesSound(path, entries[1..]);
      forall k | k in r.counts
        ensures r.counts[k] == CountIn(r.items, k)
      {
        CountInAppend(first.items, rest.items, k);
        if k in rest.counts {
          if k in Parents(first.items) {
            FirstOwner(path, entries[0], k);
            EntriesOwner(path, entries[1..], k);
            assert false;
          }
          CountInAbsent(first.items, k);
        } else {
          CountInAbsent(rest.items, k);
        }
      }
    }
  }

  lemma {:induction false} FirstCounts(path: string, e: Entry)
    requires ProperEntry(e)
    ensures CountsMatch(FirstOf(path, e))
    decreases e, 2
  {
    match e
    case Dir(name, _, entries) =>
      ScanListingCounts(Child(path, name), entries);
    case File(_, _) =>
    case Other(_) =>
  }

  /** The path of an item found under `root` starts with `root` and the separator. */
  lemma ScannedPathUnder(root: string, item: MediaItem)
    requires ScannedItem(root, item)
    ensures StartsWith(item.path, root + [Sep])
  {
    var p := item.parent.value;
    StartsWithAppend(p + [Sep], item.name);
    if p != root {
      StartsWithAppend(p, [Sep]);
      StartsWithTrans(item.path, p + [Sep], p);
      StartsWithTrans(item.path, p, root + [Sep]);
    }
  }
}
