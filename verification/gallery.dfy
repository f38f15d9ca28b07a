/**
 * The list logic of both `GalleryController`s as state transitions: a
 * finished scan joins the list and registers its folders, a folder is
 * removed, the refresh button, the viewer's next and previous buttons, and
 * saving the session on close. The file system, the set's iteration order
 * and the thumbnails each item holds are parameters.
 */
module Gallery {
  import opened Wrappers
  import opened Text
  import opened Items
  import opened Pixels
  import opened Placeholder
  import opened ThumbnailCache
  import opened GalleryView
  import opened FolderScan
  import opened Merge
  import Session
  import Seqs

  /** The controller's list state: the items, the selected folders, the view settings and the viewer's index. */
  datatype State = State(items: seq<MediaItem>, selected: set<string>, view: View, index: int)

  /** `order` is an iteration order of the set `s`: each member once. */
  predicate Enumerates(order: seq<string>, s: set<string>) {
    Session.Distinct(order) && (forall p :: p in order ==> p in s) && (forall p :: p in s ==> p in order)
  }

  // ---------------------------------------------------------------- scanning

  /** The folders a scan registers: every one it counted with at least one media file. */
  function RegisterFolders(selected: set<string>, counts: map<string, nat>): (r: set<string>)
    ensures selected <= r
    ensures forall k :: k in r && k !in selected ==> k in counts && counts[k] > 0
    ensures forall k :: k in counts && counts[k] > 0 ==> k in r
  {
    selected + (set k | k in counts && counts[k] > 0)
  }

  /** The `Platform.runLater` half of `scanFolder`: merge the items, register the folders. */
  function ApplyScan(s: State, variant: Variant, scan: Scan): (r: State)
    ensures |s.items| <= |r.items| <= |s.items| + |scan.items|
    ensures r.items[..|s.items|] == s.items
    ensures s.selected <= r.selected
    ensures r.view == s.view && r.index == s.index
    ensures variant == Pixz && UniquePaths(s.items) ==> UniquePaths(r.items)
  {
    var items := match variant
      case Pixz => MergePixz(s.items, scan.items)
      case Win => MergeWin(s.items, scan.items);
    State(items, RegisterFolders(s.selected, scan.counts), s.view, s.index)
  }

  /**
   * After scanning `root`, every item found is listed and its folder is
   * selected, and every folder that became selected lies within `root` and
   * directly holds one of the items found.
   */
  lemma ScanRegistersItsFolders(s: State, variant: Variant, root: string, listing: Option<seq<Entry>>)
    ensures var scan := ScanFolder(root, listing);
            var r := ApplyScan(s, variant, scan);
            && (forall it :: it in scan.items ==> HasPath(r.items, it.path) && it.parent.Some? && it.parent.value in r.selected)
            && (forall k :: k in r.selected && k !in s.selected ==> k in Parents(scan.items) && Within(k, root))
  {
    var scan := ScanFolder(root, listing);
    var r := ApplyScan(s, variant, scan);
    ScanFolderSound(root, listing);
    forall it | it in scan.items
      ensures HasPath(r.items, it.path) && it.parent.value in r.selected
    {
      var i :| 0 <= i < |scan.items| && scan.items[i] == it;
      if variant == Win {
        assert r.items[|s.items| + i] == it;
      }
      ParentIn(scan.items, i);
    }
    forall k | k in r.selected && k !in s.selected
      ensures k in Parents(scan.items) && Within(k, root)
    {
      ParentsWithin(root, scan.items, k);
    }
  }

  lemma {:induction false} ParentIn(items: seq<MediaItem>, i: int)
    requires 0 <= i < |items| && items[i].parent.Some?
    ensures items[i].parent.value in Parents(items)
  {
    if i > 0 {
      ParentIn(items[1..], i - 1);
    }
  }

  // ---------------------------------------------------------- removing a folder

  /** The items whose path does not start with `prefix`, in order (`removeIf` with a prefix test). */
  function DropPrefixed(items: seq<MediaItem>, prefix: string): (r: seq<MediaItem>)
    ensures |r| <= |items|
    ensures forall i :: 0 <= i < |r| ==> !StartsWith(r[i].path, prefix)
  {
    if items == [] then []
    else (if StartsWith(items[0].path, prefix) then [] else [items[0]]) + DropPrefixed(items[1..], prefix)
  }

  /** An item survives exactly when it was listed and its path does not start with the prefix. */
  lemma {:induction false} DropPrefixedMembers(items: seq<MediaItem>, prefix: string, x: MediaItem)
    ensures x in DropPrefixed(items, prefix) <==> x in items && !StartsWith(x.path, prefix)
  {
    if items != [] {
      DropPrefixedMembers(items[1..], prefix, x);
      assert items == [items[0]] + items[1..];
    }
  }

  /** The survivors keep their order: dropping from a concatenation drops from each part. */
  lemma {:induction false} DropPrefixedAppend(a: seq<MediaItem>, b: seq<MediaItem>, prefix: string)
    ensures DropPrefixed(a + b, prefix) == DropPrefixed(a, prefix) + DropPrefixed(b, prefix)
  {
    if a == [] {
      Seqs.EmptyAppend(b);
      Seqs.EmptyAppend(DropPrefixed(b, prefix));
    } else {
      Seqs.AppendTail(a, b);
      DropPrefixedAppend(a[1..], b, prefix);
      var head := if StartsWith(a[0].path, prefix) then [] else [a[0]];
      Seqs.Associative(head, DropPrefixed(a[1..], prefix), DropPrefixed(b, prefix));
    }
  }

  /** Dropping items keeps paths unique. */
  lemma {:induction false} DropPrefixedKeepsUnique(items: seq<MediaItem>, prefix: string)
    requires UniquePaths(items)
    ensures UniquePaths(DropPrefixed(items, prefix))
  {
    if items != [] {
      DropPrefixedKeepsUnique(items[1..], prefix);
      var rest := DropPrefixed(items[1..], prefix);
      if !StartsWith(items[0].path, prefix) {
        forall j | 0 <= j < |rest|
          ensures rest[j].path != items[0].path
        {
          DropPrefixedMembers(items[1..], prefix, rest[j]);
          var k :| 0 <= k < |items[1..]| && items[1..][k] == rest[j];
          assert items[k + 1] == rest[j];
        }
        var r := [items[0]] + rest;
        forall i, j | 0 <= i < j < |r|
          ensures r[i].path != r[j].path
        {
          if i > 0 {
            assert r[i] == rest[i - 1] && r[j] == rest[j - 1];
          } else {
            assert r[j] == rest[j - 1];
          }
        }
      }
    }
  }

  /** The folder filter is cleared when it shows the folder being removed. */
  function ResetFolderFilter(view: View, folder: string): (r: View)
    ensures r.folder != Some(folder)
    ensures r.folder.Some? ==> r.folder == view.folder
    ensures r.typeFilter == view.typeFilter && r.search == view.search && r.sortBy == view.sortBy
  {
    if view.folder == Some(folder) then view.(folder := None) else view
  }

  /** Both controllers' `removeFolder`, as written: every item whose path starts with the folder string goes. */
  function RemoveFolder(s: State, folder: string): (r: State)
    ensures r.selected == s.selected - {folder}
    ensures r.view == ResetFolderFilter(s.view, folder) && r.index == s.index
    ensures forall x :: x in r.items <==> x in s.items && !StartsWith(x.path, folder)
  {
    forall x
      ensures x in DropPrefixed(s.items, folder) <==> x in s.items && !StartsWith(x.path, folder)
    {
      DropPrefixedMembers(s.items, folder, x);
    }
    State(DropPrefixed(s.items, folder), s.selected - {folder}, ResetFolderFilter(s.view, folder), s.index)
  }

  /**
   * Removing "/p" also drops the items of the sibling folder "/p2", which
   * stays selected: the prefix test does not stop at a path separator.
   */
  lemma RemoveFolderTakesSibling(view: View)
    ensures var a := MediaItem("/p/a.jpg", Some("/p"), "a.jpg", Image, 0);
            var b := MediaItem("/p2/b.jpg", Some("/p2"), "b.jpg", Image, 0);
            var r := RemoveFolder(State([a, b], {"/p", "/p2"}, view, -1), "/p");
            r.items == [] && "/p2" in r.selected
  {
    var a := MediaItem("/p/a.jpg", Some("/p"), "a.jpg", Image, 0);
    var b := MediaItem("/p2/b.jpg", Some("/p2"), "b.jpg", Image, 0);
    assert StartsWith(a.path, "/p") && StartsWith(b.path, "/p");
    assert [a, b][1..] == [b];
  }

  /** `removeFolder` with the prefix ending at a separator: only the folder and what lies below it go. */
  function RemoveFolderFixed(s: State, folder: string): (r: State)
    ensures r.selected == s.selected - {folder}
    ensures r.view == ResetFolderFilter(s.view, folder) && r.index == s.index
    ensures forall x :: x in r.items <==> x in s.items && !StartsWith(x.path, folder + [Sep])
  {
    forall x
      ensures x in DropPrefixed(s.items, folder + [Sep]) <==> x in s.items && !StartsWith(x.path, folder + [Sep])
    {
      DropPrefixedMembers(s.items, folder + [Sep], x);
    }
    State(DropPrefixed(s.items, folder + [Sep]), s.selected - {folder}, ResetFolderFilter(s.view, folder), s.index)
  }

  /** An item whose path is its folder, the separator and a name without separator. */
  predicate InFolder(item: MediaItem) {
    WellFormed(item) && Sep !in item.name
  }

  /** For such an item, the separator-terminated prefix test says exactly "its folder is within `folder`". */
  lemma UnderMeansWithin(item: MediaItem, folder: string)
    requires InFolder(item)
    ensures StartsWith(item.path, folder + [Sep]) <==> Within(item.parent.value, folder)
  {
    var q := item.parent.value;
    var path := item.path;
    assert path == q + [Sep] + item.name;
    var f := folder + [Sep];
    if Within(q, folder) {
      assert path[..|q| + 1] == q + [Sep];
      if q != folder {
        assert path[..|f|] == q[..|f|];
      }
    }
    if StartsWith(path, f) {
      assert path[|f| - 1] == f[|f| - 1] == Sep;
      NoSepInName(item);
      assert |f| <= |q| + 1;
      if |f| <= |q| {
        assert q[..|f|] == path[..|f|];
      } else {
        assert q == path[..|q|] == folder;
      }
    }
  }

  /** After its folder and the separator, an item's path holds no further separator. */
  lemma NoSepInName(item: MediaItem)
    requires InFolder(item)
    ensures forall j :: |item.parent.value| < j < |item.path| ==> item.path[j] != Sep
  {
    var q := item.parent.value;
    forall j | |q| < j < |item.path|
      ensures item.path[j] != Sep
    {
      assert item.path[j] == item.name[j - |q| - 1];
    }
  }

  /**
   * The corrected removal takes exactly the items in the folder or below
   * it: the items of a sibling such as "/p2" stay when "/p" goes.
   */
  lemma RemoveFolderFixedExact(s: State, folder: string, x: MediaItem)
    requires x in s.items && InFolder(x)
    ensures x in RemoveFolderFixed(s, folder).items <==> !Within(x.parent.value, folder)
  {
    UnderMeansWithin(x, folder);
  }

  /** The corrected removal still takes everything a scan of the folder found. */
  lemma RemoveFolderFixedTakesScan(s: State, folder: string, listing: Option<seq<Entry>>)
    ensures forall it :: it in ScanFolder(folder, listing).items ==> it !in RemoveFolderFixed(s, folder).items
  {
    ScanFolderSound(folder, listing);
    forall it | it in ScanFolder(folder, listing).items
      ensures it !in RemoveFolderFixed(s, folder).items
    {
      ScannedPathUnder(folder, it);
    }
  }

  // ---------------------------------------------------------------- refresh

  /** A refreshed state and the folders to rescan, in order. */
  datatype Refresh = Refresh(state: State, rescan: seq<string>)

  /**
   * pixz `onRefreshClick`, list part: with a folder filter, drop the items
   * whose path starts with it and rescan it if it still exists; without,
   * clear the list and rescan every selected folder that still exists.
   */
  function RefreshPixz(s: State, exists_: Session.PathTest, order: seq<string>): (r: Refresh)
    requires Enumerates(order, s.selected)
    ensures r.state.selected == s.selected && r.state.view == s.view && r.state.index == s.index
    ensures s.view.folder.Some? ==>
              && (forall x :: x in r.state.items <==> x in s.items && !StartsWith(x.path, s.view.folder.value))
              && r.rescan == (if exists_(s.view.folder.value) then [s.view.folder.value] else [])
    ensures s.view.folder.None? ==>
              && r.state.items == []
              && (forall p :: p in r.rescan <==> p in s.selected && exists_(p))
  {
    match s.view.folder
    case Some(f) =>
      forall x
        ensures x in DropPrefixed(s.items, f) <==> x in s.items && !StartsWith(x.path, f)
      {
        DropPrefixedMembers(s.items, f, x);
      }
      Refresh(s.(items := DropPrefixed(s.items, f)), if exists_(f) then [f] else [])
    case None =>
      Session.FilterMembers(order, exists_);
      Refresh(s.(items := []), Session.Filter(order, exists_))
  }

  /** wingallery `onRefreshClick`: clear the list and rescan every selected folder that still exists. */
  function RefreshWin(s: State, exists_: Session.PathTest, order: seq<string>): (r: Refresh)
    requires Enumerates(order, s.selected)
    ensures r.state.items == [] && r.state.selected == s.selected && r.state.view == s.view && r.state.index == s.index
    ensures forall p :: p in r.rescan <==> p in s.selected && exists_(p)
    ensures Session.Distinct(r.rescan)
  {
    Session.FilterMembers(order, exists_);
    Session.FilterKeepsDistinct(order, exists_);
    Refresh(s.(items := []), Session.Filter(order, exists_))
  }

  /** The scans finishing one after the other. */
  function ApplyScans(s: State, variant: Variant, scans: seq<Scan>): (r: State)
    ensures r.view == s.view && r.index == s.index && s.selected <= r.selected
    decreases |scans|
  {
    if scans == [] then s else ApplyScans(ApplyScan(s, variant, scans[0]), variant, scans[1..])
  }

  /** Every item the scans found, in the order the scans finished. */
  function AllItems(scans: seq<Scan>): seq<MediaItem> {
    if scans == [] then [] else scans[0].items + AllItems(scans[1..])
  }

  /** After a wingallery refresh the list is exactly the rescans' items, in the order they finished. */
  lemma {:induction false} RefreshWinRebuilds(s: State, exists_: Session.PathTest, order: seq<string>, scans: seq<Scan>)
    requires Enumerates(order, s.selected)
    ensures ApplyScans(RefreshWin(s, exists_, order).state, Win, scans).items == AllItems(scans)
  {
    AppendScans(RefreshWin(s, exists_, order).state, scans);
    assert [] + AllItems(scans) == AllItems(scans);
  }

  lemma {:induction false} AppendScans(s: State, scans: seq<Scan>)
    ensures ApplyScans(s, Win, scans).items == s.items + AllItems(scans)
    decreases |scans|
  {
    if scans != [] {
      var next := ApplyScan(s, Win, scans[0]);
      AppendScans(next, scans[1..]);
      assert next.items == s.items + scans[0].items;
      Seqs.Associative(s.items, scans[0].items, AllItems(scans[1..]));
    }
  }

  /** A filtered pixz refresh followed by the folder's rescan keeps paths unique. */
  lemma FilteredRefreshStaysUnique(s: State, exists_: Session.PathTest, order: seq<string>, scan: Scan)
    requires Enumerates(order, s.selected)
    requires s.view.folder.Some? && UniquePaths(s.items)
    ensures UniquePaths(ApplyScan(RefreshPixz(s, exists_, order).state, Pixz, scan).items)
  {
    DropPrefixedKeepsUnique(s.items, s.view.folder.value);
  }

  /** What each item's card currently holds; `None` where no thumbnail is loaded. */
  type Thumbnails = MediaItem -> Option<Image>

  predicate ShowsPlaceholder(thumbs: Thumbnails, item: MediaItem) {
    thumbs(item).Some? && IsPlaceholderImage(thumbs(item))
  }

  /** pixz `onRefreshClick`, first part: the paths of the items showing a placeholder. */
  function PlaceholderPaths(items: seq<MediaItem>, thumbs: Thumbnails): (r: set<string>)
    ensures forall p :: p in r <==> exists i :: 0 <= i < |items| && items[i].path == p && ShowsPlaceholder(thumbs, items[i])
  {
    if items == [] then {}
    else
      var rest := PlaceholderPaths(items[1..], thumbs);
      forall p
        ensures p in rest <==> exists i :: 1 <= i < |items| && items[i].path == p && ShowsPlaceholder(thumbs, items[i])
      {
        if p in rest {
          var i :| 0 <= i < |items[1..]| && items[1..][i].path == p && ShowsPlaceholder(thumbs, items[1..][i]);
          assert items[i + 1] == items[1..][i];
        }
        if exists i :: 1 <= i < |items| && items[i].path == p && ShowsPlaceholder(thumbs, items[i]) {
          var i :| 1 <= i < |items| && items[i].path == p && ShowsPlaceholder(thumbs, items[i]);
          assert items[1..][i - 1] == items[i];
        }
      }
      (if ShowsPlaceholder(thumbs, items[0]) then {items[0].path} else {}) + rest
  }

  /** The cache key of a path now (`getCacheKey(new File(path))`); `None` when it cannot be derived. */
  type KeyOf = string -> Option<Key>

  /** The keys derivable for some of `paths`. */
  predicate KeyOfSome(k: Key, paths: seq<string>, keyOf: KeyOf) {
    exists i :: 0 <= i < |paths| && keyOf(paths[i]) == Some(k)
  }

  /**
   * The cache removals of a refresh, one `removeCachedThumbnail` per path:
   * those keys leave both tiers, every other entry stays as it was.
   */
  function InvalidateAll(c: Cache, paths: seq<string>, keyOf: KeyOf): (r: Cache)
    ensures r.failed == c.failed
    ensures forall k :: k in r.memory <==> k in c.memory && !KeyOfSome(k, paths, keyOf)
    ensures forall k :: k in r.disk <==> k in c.disk && !KeyOfSome(k, paths, keyOf)
    ensures forall k :: k in r.memory ==> r.memory[k] == c.memory[k]
    ensures forall k :: k in r.disk ==> r.disk[k] == c.disk[k]
    decreases |paths|
  {
    if paths == [] then c
    else
      var next := RemoveCachedThumbnail(c, keyOf(paths[0]));
      var r := InvalidateAll(next, paths[1..], keyOf);
      forall k
        ensures KeyOfSome(k, paths, keyOf) <==> keyOf(paths[0]) == Some(k) || KeyOfSome(k, paths[1..], keyOf)
      {
        if KeyOfSome(k, paths[1..], keyOf) {
          var i :| 0 <= i < |paths[1..]| && keyOf(paths[1..][i]) == Some(k);
          assert paths[i + 1] == paths[1..][i];
        }
        if KeyOfSome(k, paths, keyOf) && keyOf(paths[0]) != Some(k) {
          var i :| 0 <= i < |paths| && keyOf(paths[i]) == Some(k);
          assert paths[1..][i - 1] == paths[i];
        }
      }
      r
  }

  /** After the refresh's removals, a placeholder item's thumbnail is looked up afresh and misses. */
  lemma RefreshRegenerates(c: Cache, items: seq<MediaItem>, thumbs: Thumbnails, order: seq<string>, keyOf: KeyOf, load: Loader, i: int)
    requires forall p :: p in order <==> p in PlaceholderPaths(items, thumbs)
    requires 0 <= i < |items| && ShowsPlaceholder(thumbs, items[i])
    ensures GetCachedThumbnail(InvalidateAll(c, order, keyOf), keyOf(items[i].path), load).image.None?
  {
    var p := items[i].path;
    assert p in PlaceholderPaths(items, thumbs);
    var j :| 0 <= j < |order| && order[j] == p;
    if keyOf(p).Some? {
      assert KeyOfSome(keyOf(p).value, order, keyOf);
    }
  }

  // ---------------------------------------------------------------- viewer

  /** Where the viewer stands after a button, and the item it switched to, if it moved. */
  datatype Move = Move(index: int, shown: Option<MediaItem>)

  /**
   * The viewer's index is -1 before anything was opened and otherwise a
   * position in the list; `mediaItems.get` would throw outside it.
   */
  predicate ValidIndex(items: seq<MediaItem>, index: int) {
    -1 <= index < |items|
  }

  /** `navigateToNextMedia`: one step forward unless at the last item. */
  function Next(items: seq<MediaItem>, index: int): (r: Move)
    requires ValidIndex(items, index)
    ensures ValidIndex(items, r.index)
    ensures r.index == index || r.index == index + 1
    ensures r.index == index <==> index == |items| - 1
    ensures r.shown.Some? <==> r.index != index
    ensures r.shown.Some? ==> r.index >= 0 && r.shown.value == items[r.index]
  {
    if index < |items| - 1 then Move(index + 1, Some(items[index + 1]))
    else Move(index, None)
  }

  /** `navigateToPreviousMedia`: one step back unless at the first item (or none is open). */
  function Previous(items: seq<MediaItem>, index: int): (r: Move)
    requires ValidIndex(items, index)
    ensures ValidIndex(items, r.index)
    ensures r.index == index || r.index == index - 1
    ensures r.index == index <==> index <= 0
    ensures r.shown.Some? <==> r.index != index
    ensures r.shown.Some? ==> r.index >= 0 && r.shown.value == items[r.index]
  {
    if index > 0 then Move(index - 1, Some(items[index - 1]))
    else Move(index, None)
  }

  /** `mediaItems.indexOf(item)`: the first position of the item, or -1. */
  function IndexOf(items: seq<MediaItem>, item: MediaItem): (r: int)
    ensures -1 <= r < |items|
    ensures r == -1 <==> item !in items
    ensures r >= 0 ==> items[r] == item && item !in items[..r]
  {
    if items == [] then -1
    else if items[0] == item then 0
    else
      var r := IndexOf(items[1..], item);
      Seqs.InCons(items, item);
      if r == -1 then -1
      else
        Seqs.InConsPrefix(items, item, r);
        r + 1
  }

  /** Back after forward returns to the start, and forward after back. */
  lemma NextPreviousInverse(items: seq<MediaItem>, i: int)
    ensures 0 <= i < |items| - 1 ==> Previous(items, Next(items, i).index).index == i
    ensures 0 < i < |items| ==> Next(items, Previous(items, i).index).index == i
  {
  }

  /** `k` presses of next from an opened item. */
  function NextTimes(items: seq<MediaItem>, index: int, k: nat): int
    requires ValidIndex(items, index)
    decreases k
  {
    if k == 0 then index else NextTimes(items, Next(items, index).index, k - 1)
  }

  /** From an opened item, `k` presses of next move `k` steps but stop at the last item. */
  lemma {:induction false} NextTimesStops(items: seq<MediaItem>, index: int, k: nat)
    requires 0 <= index < |items|
    ensures NextTimes(items, index, k) == if index + k < |items| then index + k else |items| - 1
    decreases k
  {
    if k > 0 {
      NextTimesStops(items, Next(items, index).index, k - 1);
    }
  }

  // ---------------------------------------------------------------- session

  /** wingallery `saveCurrentSession`: the session file is rewritten only when folders are selected. */
  function SaveCurrentSession(selected: set<string>, order: seq<string>, file: Option<string>, exists_: Session.PathTest, nl: string): (r: Option<string>)
    requires Session.IsLineSeparator(nl)
    requires Enumerates(order, selected)
    ensures selected == {} ==> r == file
    ensures selected != {} ==> r.Some?
  {
    if selected == {} then file else Some(Session.SaveSession(order, exists_, nl))
  }

  /** Closing with folders selected, the next start restores those that are still directories, in saving order. */
  lemma SaveCurrentThenLoad(selected: set<string>, order: seq<string>, file: Option<string>, exists_: Session.PathTest, isDir: Session.PathTest, nl: string)
    requires Session.IsLineSeparator(nl)
    requires Enumerates(order, selected) && selected != {}
    requires forall i :: 0 <= i < |order| ==> Session.Storable(order[i])
    ensures Session.LoadSession(SaveCurrentSession(selected, order, file, exists_, nl), exists_, isDir)
         == Session.Filter(order, Session.Restorer(exists_, isDir))
  {
    Session.SaveThenLoad(order, exists_, isDir, nl);
  }

  /** Closing with no folder selected leaves the old file, so the next start brings back the earlier session. */
  lemma EmptySelectionRestoresEarlierSession(order: seq<string>, file: Option<string>, exists_: Session.PathTest, isDir: Session.PathTest, nl: string)
    requires Session.IsLineSeparator(nl)
    requires Enumerates(order, {})
    ensures Session.LoadSession(SaveCurrentSession({}, order, file, exists_, nl), exists_, isDir)
         == Session.LoadSession(file, exists_, isDir)
  {
  }
}
