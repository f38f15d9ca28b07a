/**
 * The two orders of the gallery's sort menu and the stable sort
 * `List.sort` applies: "Name" compares names with
 * `String.CASE_INSENSITIVE_ORDER`, "Date Modified" puts the most recently
 * modified first. Elements the order does not separate keep their relative
 * order.
 */
module Sorting {
  import opened Wrappers
  import opened Text
  import opened Items
  import opened Seqs

  /** `String.compareTo(...) < 0`: lexicographic on characters, a proper prefix first. */
  predicate LessLex(a: string, b: string)
    decreases |a|
  {
    if a == [] then b != []
    else if b == [] then false
    else if a[0] != b[0] then a[0] < b[0]
    else LessLex(a[1..], b[1..])
  }

  lemma {:induction false} LessLexIrreflexive(a: string)
    ensures !LessLex(a, a)
  {
    if a != [] {
      LessLexIrreflexive(a[1..]);
    }
  }

  lemma {:induction false} LessLexTransitive(a: string, b: string, c: string)
    requires LessLex(a, b) && LessLex(b, c)
    ensures LessLex(a, c)
    decreases |a|
  {
    if a != [] && b != [] && c != [] && a[0] == b[0] && b[0] == c[0] {
      LessLexTransitive(a[1..], b[1..], c[1..]);
    }
  }

  /** Any two different strings are ordered one way or the other. */
  lemma {:induction false} LessLexTotal(a: string, b: string)
    ensures a == b || LessLex(a, b) || LessLex(b, a)
    decreases |a|
  {
    if a != [] && b != [] && a[0] == b[0] {
      LessLexTotal(a[1..], b[1..]);
      if a[1..] == b[1..] {
        assert a == [a[0]] + a[1..] && b == [b[0]] + b[1..];
      }
    }
  }

  datatype Order = ByName | ByDate

  /** The choice-box value selects an order; any other value leaves the list as filtered. */
  function OrderOf(sortBy: string): (r: Option<Order>)
    ensures r == Some(ByName) <==> sortBy == "Name"
    ensures r == Some(ByDate) <==> sortBy == "Date Modified"
  {
    if sortBy == "Name" then Some(ByName)
    else if sortBy == "Date Modified" then Some(ByDate)
    else None
  }

  /** `a` sorts strictly before `b`. */
  predicate Precedes(order: Order, a: MediaItem, b: MediaItem) {
    match order
    case ByName => LessLex(Lower(a.name), Lower(b.name))
    case ByDate => a.modified > b.modified
  }

  /** The order does not separate `a` and `b`: same name up to case, or same time. */
  predicate Tied(order: Order, a: MediaItem, b: MediaItem) {
    !Precedes(order, a, b) && !Precedes(order, b, a)
  }

  lemma TiedMeans(order: Order, a: MediaItem, b: MediaItem)
    ensures order == ByName ==> (Tied(order, a, b) <==> Lower(a.name) == Lower(b.name))
    ensures order == ByDate ==> (Tied(order, a, b) <==> a.modified == b.modified)
  {
    LessLexTotal(Lower(a.name), Lower(b.name));
    LessLexIrreflexive(Lower(a.name));
  }

  lemma PrecedesTransitive(order: Order, a: MediaItem, b: MediaItem, c: MediaItem)
    requires Precedes(order, a, b) && Precedes(order, b, c)
    ensures Precedes(order, a, c)
  {
    if order == ByName {
      LessLexTransitive(Lower(a.name), Lower(b.name), Lower(c.name));
    }
  }

  /** A strict weak order: whatever lies between two ordered elements is ordered against one of them. */
  lemma PrecedesComparable(order: Order, a: MediaItem, b: MediaItem, c: MediaItem)
    requires Precedes(order, a, b)
    ensures Precedes(order, a, c) || Precedes(order, c, b)
  {
    if order == ByName {
      var x, y, z := Lower(a.name), Lower(b.name), Lower(c.name);
      LessLexTotal(x, z);
      LessLexTotal(z, y);
      if z == x {
      } else if LessLex(z, x) {
        LessLexTransitive(z, x, y);
      }
    }
  }

  lemma PrecedesIrreflexive(order: Order, a: MediaItem)
    ensures !Precedes(order, a, a)
  {
    LessLexIrreflexive(Lower(a.name));
  }

  /** No element is followed by one that sorts strictly before it. */
  predicate Sorted(order: Order, s: seq<MediaItem>) {
    forall i, j :: 0 <= i < j < |s| ==> !Precedes(order, s[j], s[i])
  }

  /** Insert `x` into a sorted list after every element it does not strictly precede. */
  function Insert(order: Order, x: MediaItem, s: seq<MediaItem>): (r: seq<MediaItem>)
    ensures |r| == |s| + 1
  {
    if s == [] then [x]
    else if Precedes(order, x, s[0]) then [x] + s
    else [s[0]] + Insert(order, x, s[1..])
  }

  /** Insertion adds `x` and loses nothing. */
  lemma {:induction false} InsertPermutes(order: Order, x: MediaItem, s: seq<MediaItem>)
    ensures multiset(Insert(order, x, s)) == multiset(s) + multiset{x}
  {
    if s != [] && !Precedes(order, x, s[0]) {
      InsertPermutes(order, x, s[1..]);
      ConsTail(s);
    }
  }

  /** An element of the insertion's result is the inserted one or was already there. */
  lemma InsertMembers(order: Order, x: MediaItem, s: seq<MediaItem>, y: MediaItem)
    ensures y in Insert(order, x, s) <==> y == x || y in s
  {
    InsertPermutes(order, x, s);
    assert y in Insert(order, x, s) <==> y in multiset(Insert(order, x, s));
    assert y in s <==> y in multiset(s);
  }

  lemma {:induction false} InsertSorted(order: Order, x: MediaItem, s: seq<MediaItem>)
    requires Sorted(order, s)
    ensures Sorted(order, Insert(order, x, s))
  {
    var r := Insert(order, x, s);
    if s == [] {
    } else if Precedes(order, x, s[0]) {
      forall j | 1 <= j < |r|
        ensures !Precedes(order, r[j], x)
      {
        assert r[j] == s[j - 1];
        if Precedes(order, s[j - 1], x) {
          PrecedesTransitive(order, s[j - 1], x, s[0]);
          PrecedesIrreflexive(order, s[0]);
        }
      }
    } else {
      var rest := Insert(order, x, s[1..]);
      InsertSorted(order, x, s[1..]);
      forall j | 0 < j < |r|
        ensures !Precedes(order, r[j], s[0])
      {
        assert r[j] == rest[j - 1];
        InsertMembers(order, x, s[1..], rest[j - 1]);
        if rest[j - 1] != x {
          var k :| 0 <= k < |s[1..]| && s[1..][k] == rest[j - 1];
          assert s[k + 1] == rest[j - 1];
        }
      }
    }
  }

  /**
   * `List.sort` with the order's comparator: a stable sort, here an
   * insertion sort that inserts each element after the equal ones before it.
   */
  function Sort(order: Order, s: seq<MediaItem>): (r: seq<MediaItem>)
    ensures multiset(r) == multiset(s)
    ensures |r| == |s|
    ensures Sorted(order, r)
  {
    if s == [] then []
    else
      var prefix := Sort(order, s[..|s| - 1]);
      InsertSorted(order, s[|s| - 1], prefix);
      InsertPermutes(order, s[|s| - 1], prefix);
      LastSplit(s);
      Insert(order, s[|s| - 1], prefix)
  }

  /** The elements of `s` that the order cannot separate from `k`, in their order in `s`. */
  function TiedWith(order: Order, k: MediaItem, s: seq<MediaItem>): (r: seq<MediaItem>)
    ensures |r| <= |s|
  {
    if s == [] then []
    else (if Tied(order, s[0], k) then [s[0]] else []) + TiedWith(order, k, s[1..])
  }

  lemma {:induction false} TiedWithAppend(order: Order, k: MediaItem, a: seq<MediaItem>, b: seq<MediaItem>)
    ensures TiedWith(order, k, a + b) == TiedWith(order, k, a) + TiedWith(order, k, b)
  {
    if a != [] {
      Seqs.AppendTail(a, b);
      TiedWithAppend(order, k, a[1..], b);
      var head := if Tied(order, a[0], k) then [a[0]] else [];
      Seqs.Associative(head, TiedWith(order, k, a[1..]), TiedWith(order, k, b));
    } else {
      Seqs.EmptyAppend(b);
      Seqs.EmptyAppend(TiedWith(order, k, b));
    }
  }

  /** Nothing in a list of elements that `k` strictly precedes is tied with `k`. */
  lemma {:induction false} NoneTied(order: Order, k: MediaItem, s: seq<MediaItem>)
    requires forall i :: 0 <= i < |s| ==> Precedes(order, k, s[i])
    ensures TiedWith(order, k, s) == []
  {
    if s != [] {
      NoneTied(order, k, s[1..]);
    }
  }

  lemma SortedTail(order: Order, s: seq<MediaItem>)
    requires s != [] && Sorted(order, s)
    ensures Sorted(order, s[1..])
  {
    forall i, j | 0 <= i < j < |s| - 1
      ensures !Precedes(order, s[1..][j], s[1..][i])
    {
      assert s[1..][j] == s[j + 1] && s[1..][i] == s[i + 1];
    }
  }

  /** When `x` goes first, nothing already in the list is tied with anything tied with `x`. */
  lemma TiedGoesFirst(order: Order, x: MediaItem, s: seq<MediaItem>, k: MediaItem)
    requires s != [] && Sorted(order, s)
    requires Precedes(order, x, s[0]) && Tied(order, x, k)
    ensures TiedWith(order, k, s) == []
  {
    forall i | 0 <= i < |s|
      ensures Precedes(order, k, s[i])
    {
      PrecedesComparable(order, x, s[0], s[i]);
      PrecedesComparable(order, x, s[i], k);
    }
    NoneTied(order, k, s);
  }

  lemma {:induction false} TiedWithCons(order: Order, k: MediaItem, e: MediaItem, s: seq<MediaItem>)
    ensures TiedWith(order, k, [e] + s) == (if Tied(order, e, k) then [e] else []) + TiedWith(order, k, s)
  {
    assert ([e] + s)[1..] == s;
  }

  /** What inserting `x` does to the elements tied with `k`: `x` joins them at the end if it is tied too. */
  predicate InsertKeepsTies(order: Order, x: MediaItem, s: seq<MediaItem>, k: MediaItem) {
    TiedWith(order, k, Insert(order, x, s)) == TiedWith(order, k, s) + (if Tied(order, x, k) then [x] else [])
  }

  lemma {:induction false} InsertTiedFront(order: Order, x: MediaItem, s: seq<MediaItem>, k: MediaItem)
    requires s != [] && Sorted(order, s) && Precedes(order, x, s[0])
    ensures InsertKeepsTies(order, x, s, k)
  {
    assert Insert(order, x, s) == [x] + s;
    TiedWithCons(order, k, x, s);
    if Tied(order, x, k) {
      TiedGoesFirst(order, x, s, k);
    }
  }

  lemma {:induction false} InsertTiedLater(order: Order, x: MediaItem, s: seq<MediaItem>, k: MediaItem)
    requires s != [] && !Precedes(order, x, s[0])
    requires InsertKeepsTies(order, x, s[1..], k)
    ensures InsertKeepsTies(order, x, s, k)
  {
    var rest := Insert(order, x, s[1..]);
    var a := TiedWith(order, k, rest);
    var b := TiedWith(order, k, s[1..]);
    var tail := if Tied(order, x, k) then [x] else [];
    var head := if Tied(order, s[0], k) then [s[0]] else [];
    assert a == b + tail;
    assert Insert(order, x, s) == [s[0]] + rest;
    TiedWithCons(order, k, s[0], rest);
    assert TiedWith(order, k, Insert(order, x, s)) == head + a;
    TiedWithCons(order, k, s[0], s[1..]);
    ConsTail(s);
    assert TiedWith(order, k, s) == head + b;
    Associative(head, b, tail);
  }

  /** Inserting `x` appends it to the elements tied with `k` when it is tied with `k`, and changes nothing else there. */
  lemma {:induction false} InsertTied(order: Order, x: MediaItem, s: seq<MediaItem>, k: MediaItem)
    requires Sorted(order, s)
    ensures InsertKeepsTies(order, x, s, k)
  {
    if s == [] {
      assert Insert(order, x, s) == [x];
      TiedWithCons(order, k, x, []);
    } else if Precedes(order, x, s[0]) {
      InsertTiedFront(order, x, s, k);
    } else {
      SortedTail(order, s);
      InsertTied(order, x, s[1..], k);
      InsertTiedLater(order, x, s, k);
    }
  }

  /**
   * Stability: for every element `k`, the elements tied with it come out of
   * the sort in the order they went in.
   */
  lemma {:induction false} SortStable(order: Order, s: seq<MediaItem>, k: MediaItem)
    ensures TiedWith(order, k, Sort(order, s)) == TiedWith(order, k, s)
  {
    if s != [] {
      var prefix := s[..|s| - 1];
      var x := s[|s| - 1];
      var sorted := Sort(order, prefix);
      assert Sort(order, s) == Insert(order, x, sorted);
      SortStable(order, prefix, k);
      InsertTied(order, x, sorted, k);
      LastSplit(s);
      TiedWithAppend(order, k, prefix, [x]);
      TiedWithCons(order, k, x, []);
      assert [x] + [] == [x];
    }
  }
}
