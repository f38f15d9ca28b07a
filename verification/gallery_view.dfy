/**
 * `applyFiltersAndSort` of both controllers: the list the gallery shows is
 * the items that pass the type, search and folder filters, in their order,
 * then sorted by the chosen order. The two controllers differ only in the
 * folder test: pixz shows the direct children of the folder, wingallery
 * every item whose path starts with the folder string.
 */
module GalleryView {
  import opened Wrappers
  import opened Text
  import opened Items
  import opened Sorting
  import Seqs

  datatype TypeFilter = All | Photos | Videos

  /** Which controller: they share the view logic except for the folder test. */
  datatype Variant = Pixz | Win

  /**
   * The view settings: the type buttons, the search field (`None` for a
   * null text), the folder filter (`None` for all folders) and the sort box.
   */
  datatype View = View(typeFilter: TypeFilter, search: Option<string>, folder: Option<string>, sortBy: string)

  predicate MatchesType(f: TypeFilter, item: MediaItem) {
    match f
    case All => true
    case Photos => item.kind == Image
    case Videos => item.kind == Video
  }

  /**
   * A null or blank search matches everything; otherwise the lowered name
   * must contain the lowered search text, surrounding blanks included.
   */
  predicate MatchesSearch(search: Option<string>, item: MediaItem) {
    search.None? || IsBlank(search.value) || Contains(Lower(item.name), Lower(search.value))
  }

  /** pixz: `isDirectChildOf`, the parent's path equals the folder; wingallery: a plain prefix test. */
  predicate MatchesFolder(variant: Variant, folder: Option<string>, item: MediaItem) {
    match folder
    case None => true
    case Some(f) =>
      match variant
      case Pixz => item.parent == Some(f)
      case Win => StartsWith(item.path, f)
  }

  predicate Matches(variant: Variant, view: View, item: MediaItem) {
    MatchesType(view.typeFilter, item) && MatchesSearch(view.search, item) && MatchesFolder(variant, view.folder, item)
  }

  /** The items that pass every filter, in their order in `items`. */
  function Filtered(variant: Variant, view: View, items: seq<MediaItem>): (r: seq<MediaItem>)
    ensures |r| <= |items|
    ensures forall i :: 0 <= i < |r| ==> Matches(variant, view, r[i])
  {
    if items == [] then []
    else (if Matches(variant, view, items[0]) then [items[0]] else []) + Filtered(variant, view, items[1..])
  }

  /** An item is shown (before sorting) exactly when it is in the list and passes every filter. */
  lemma {:induction false} FilteredMembers(variant: Variant, view: View, items: seq<MediaItem>, x: MediaItem)
    ensures x in Filtered(variant, view, items) <==> x in items && Matches(variant, view, x)
  {
    if items != [] {
      FilteredMembers(variant, view, items[1..], x);
      assert items == [items[0]] + items[1..];
    }
  }

  /** Filtering keeps relative order: filtering a concatenation filters each part. */
  lemma {:induction false} FilteredAppend(variant: Variant, view: View, a: seq<MediaItem>, b: seq<MediaItem>)
    ensures Filtered(variant, view, a + b) == Filtered(variant, view, a) + Filtered(variant, view, b)
  {
    if a == [] {
      Seqs.EmptyAppend(b);
      Seqs.EmptyAppend(Filtered(variant, view, b));
    } else {
      Seqs.AppendTail(a, b);
      FilteredAppend(variant, view, a[1..], b);
      var head := if Matches(variant, view, a[0]) then [a[0]] else [];
      Seqs.Associative(head, Filtered(variant, view, a[1..]), Filtered(variant, view, b));
    }
  }

  /** When every item passes, nothing is dropped and nothing moves. */
  lemma {:induction false} FilteredAllMatch(variant: Variant, view: View, items: seq<MediaItem>)
    requires forall i :: 0 <= i < |items| ==> Matches(variant, view, items[i])
    ensures Filtered(variant, view, items) == items
  {
    if items != [] {
      FilteredAllMatch(variant, view, items[1..]);
      assert items == [items[0]] + items[1..];
    }
  }

  /** Filtering twice with the same settings changes nothing. */
  lemma FilteredIdempotent(variant: Variant, view: View, items: seq<MediaItem>)
    ensures Filtered(variant, view, Filtered(variant, view, items)) == Filtered(variant, view, items)
  {
    FilteredAllMatch(variant, view, Filtered(variant, view, items));
  }

  /**
   * The list the gallery lays out: the filtered items, sorted stably by
   * name or by date when the sort box says so, left as filtered otherwise.
   */
  function Displayed(variant: Variant, view: View, items: seq<MediaItem>): (r: seq<MediaItem>)
    ensures multiset(r) == multiset(Filtered(variant, view, items))
    ensures forall i :: 0 <= i < |r| ==> Matches(variant, view, r[i])
    ensures OrderOf(view.sortBy).Some? ==> Sorted(OrderOf(view.sortBy).value, r)
  {
    var shown := Filtered(variant, view, items);
    match OrderOf(view.sortBy)
    case None => shown
    case Some(order) =>
      var r := Sort(order, shown);
      forall i | 0 <= i < |r|
        ensures Matches(variant, view, r[i])
      {
        assert r[i] in multiset(shown);
        var j :| 0 <= j < |shown| && shown[j] == r[i];
      }
      r
  }

  /** A displayed item is exactly an item of the list that passes every filter. */
  lemma DisplayedMembers(variant: Variant, view: View, items: seq<MediaItem>, x: MediaItem)
    ensures x in Displayed(variant, view, items) <==> x in items && Matches(variant, view, x)
  {
    FilteredMembers(variant, view, items, x);
    var shown := Filtered(variant, view, items);
    var r := Displayed(variant, view, items);
    assert x in r <==> x in multiset(r);
    assert x in shown <==> x in multiset(shown);
  }

  /** An unknown sort choice shows the filtered list in list order. */
  lemma UnsortedKeepsListOrder(variant: Variant, view: View, a: seq<MediaItem>, b: seq<MediaItem>)
    requires OrderOf(view.sortBy).None?
    ensures Displayed(variant, view, a + b) == Displayed(variant, view, a) + Displayed(variant, view, b)
  {
    FilteredAppend(variant, view, a, b);
  }

  /** Items the order cannot separate (same name up to case, or same time) keep their list order. */
  lemma DisplayedStable(variant: Variant, view: View, items: seq<MediaItem>, k: MediaItem)
    requires OrderOf(view.sortBy).Some?
    ensures TiedWith(OrderOf(view.sortBy).value, k, Displayed(variant, view, items))
         == TiedWith(OrderOf(view.sortBy).value, k, Filtered(variant, view, items))
  {
    SortStable(OrderOf(view.sortBy).value, Filtered(variant, view, items), k);
  }

  /** Sorting by date puts the most recently modified first. */
  lemma ByDateNewestFirst(variant: Variant, view: View, items: seq<MediaItem>, i: int, j: int)
    requires view.sortBy == "Date Modified"
    requires 0 <= i < j < |Displayed(variant, view, items)|
    ensures Displayed(variant, view, items)[i].modified >= Displayed(variant, view, items)[j].modified
  {
  }

  /** A blank search is no filter at all: with all types and all folders every item shows. */
  lemma BlankSearchShowsAll(variant: Variant, search: string, sortBy: string, items: seq<MediaItem>)
    requires IsBlank(search)
    requires OrderOf(sortBy).None?
    ensures Displayed(variant, View(All, Some(search), None, sortBy), items) == items
  {
    FilteredAllMatch(variant, View(All, Some(search), None, sortBy), items);
  }

  /** The search is case-insensitive but not trimmed: " cat" does not find "cat.jpg". */
  lemma SearchIsUntrimmed(item: MediaItem)
    requires item.name == "cat.jpg"
    ensures MatchesSearch(Some("CAT"), item)
    ensures !MatchesSearch(Some(" cat"), item)
  {
    LowerCat();
    CatFacts();
  }

  lemma CatFacts()
    ensures Contains("cat.jpg", "cat") && !Contains("cat.jpg", " cat")
    ensures !IsBlank("CAT") && !IsBlank(" cat")
  {
    assert OccursAt("cat.jpg", "cat", 0);
    AbsentFirst("cat.jpg", " cat");
    assert !IsTrimmable("CAT"[0]) && !IsTrimmable(" cat"[1]);
  }

  lemma LowerCat()
    ensures Lower("CAT") == "cat"
    ensures Lower("cat.jpg") == "cat.jpg" && Lower(" cat") == " cat"
  {
    var name := "cat.jpg";
    assert forall i :: 0 <= i < |name| ==> !IsUpperAscii(name[i]);
    LowerOfLower(name);
    var search := " cat";
    assert !IsUpperAscii(search[0]) && !IsUpperAscii(search[1]) && !IsUpperAscii(search[2]) && !IsUpperAscii(search[3]);
    LowerOfLower(search);
    var up := Lower("CAT");
    assert up[0] == 'c' && up[1] == 'a' && up[2] == 't';
  }

  /** An item whose path is its parent's path, the separator and its name. */
  predicate WellFormed(item: MediaItem) {
    item.parent.Some? && item.path == Child(item.parent.value, item.name)
  }

  /** pixz's direct-child view is narrower than wingallery's prefix view. */
  lemma PixzFolderWithinWin(folder: Option<string>, item: MediaItem)
    requires WellFormed(item)
    requires MatchesFolder(Pixz, folder, item)
    ensures MatchesFolder(Win, folder, item)
  {
    if folder.Some? {
      var f := folder.value;
      assert item.path == f + ([Sep] + item.name);
      assert item.path[..|f|] == f;
    }
  }

  /** The wingallery view also shows items of sub-folders, which the pixz view hides. */
  lemma WinShowsSubfolders()
    ensures var item := MediaItem("/p/sub/a.jpg", Some("/p/sub"), "a.jpg", Image, 0);
            MatchesFolder(Win, Some("/p"), item) && !MatchesFolder(Pixz, Some("/p"), item)
  {
    assert "/p/sub/a.jpg"[..2] == "/p";
  }

  /**
   * The wingallery prefix test has no separator after the folder, so the
   * view filtered to `/p` also shows the items of the sibling folder `/p2`.
   */
  lemma WinShowsSiblingFolder()
    ensures var item := MediaItem("/p2/b.jpg", Some("/p2"), "b.jpg", Image, 0);
            MatchesFolder(Win, Some("/p"), item) && !MatchesFolder(Pixz, Some("/p"), item)
  {
    assert "/p2/b.jpg"[..2] == "/p";
  }
}
