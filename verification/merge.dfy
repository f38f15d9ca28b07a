/**
 * How a finished scan's items join the gallery's list: pixz appends only
 * items whose path is not yet listed, wingallery appends them all.
 */
module Merge {
  import opened Items
  import Seqs

  /** Some listed item has path `p`. */
  predicate HasPath(items: seq<MediaItem>, p: string) {
    exists i :: 0 <= i < |items| && items[i].path == p
  }

  /** No two listed items share a path. */
  predicate UniquePaths(items: seq<MediaItem>) {
    forall i, j :: 0 <= i < j < |items| ==> items[i].path != items[j].path
  }

  /** One step of the pixz merge loop: append `x` unless its path is already listed. */
  function AddIfAbsent(items: seq<MediaItem>, x: MediaItem): (r: seq<MediaItem>)
    ensures HasPath(r, x.path)
    ensures UniquePaths(items) ==> UniquePaths(r)
    ensures |items| <= |r| && r[..|items|] == items
  {
    if HasPath(items, x.path) then items
    else
      assert (items + [x])[|items|].path == x.path;
      items + [x]
  }

  /**
   * pixz `scanFolder`: the new items in scan order, each appended only if
   * no item with its path is listed by then, so the list keeps unique paths.
   */
  function MergePixz(existing: seq<MediaItem>, scanned: seq<MediaItem>): (r: seq<MediaItem>)
    ensures |existing| <= |r| && r[..|existing|] == existing
    ensures |r| <= |existing| + |scanned|
    ensures UniquePaths(existing) ==> UniquePaths(r)
    ensures forall i :: 0 <= i < |scanned| ==> HasPath(r, scanned[i].path)
    ensures forall x :: x in r ==> x in existing || x in scanned
    decreases |scanned|
  {
    if scanned == [] then existing
    else
      var step := AddIfAbsent(existing, scanned[0]);
      var r := MergePixz(step, scanned[1..]);
      assert r[..|existing|] == r[..|step|][..|existing|];
      forall i | 0 <= i < |scanned|
        ensures HasPath(r, scanned[i].path)
      {
        if i == 0 {
          var j :| 0 <= j < |step| && step[j].path == scanned[0].path;
          assert r[j] == r[..|step|][j];
        } else {
          assert scanned[i] == scanned[1..][i - 1];
        }
      }
      forall x | x in r
        ensures x in existing || x in scanned
      {
        if x in step && x !in existing {
          assert x == scanned[0];
        } else if x !in step {
          assert x in scanned[1..];
        }
      }
      r
  }

  /** Merging the same scan again adds nothing: every path is already listed. */
  lemma {:induction false} MergeNothingNew(existing: seq<MediaItem>, scanned: seq<MediaItem>)
    requires forall i :: 0 <= i < |scanned| ==> HasPath(existing, scanned[i].path)
    ensures MergePixz(existing, scanned) == existing
    decreases |scanned|
  {
    if scanned != [] {
      MergeNothingNew(existing, scanned[1..]);
    }
  }

  /** The pixz merge is idempotent: a repeated scan result leaves the list as it was. */
  lemma MergePixzIdempotent(existing: seq<MediaItem>, scanned: seq<MediaItem>)
    ensures MergePixz(MergePixz(existing, scanned), scanned) == MergePixz(existing, scanned)
  {
    MergeNothingNew(MergePixz(existing, scanned), scanned);
  }

  /** wingallery `scanFolder`: every new item is appended. */
  function MergeWin(existing: seq<MediaItem>, scanned: seq<MediaItem>): (r: seq<MediaItem>)
    ensures |r| == |existing| + |scanned|
    ensures r[..|existing|] == existing && r[|existing|..] == scanned
  {
    existing + scanned
  }

  /** With nothing already listed and no repeats in the scan, the two merges agree. */
  lemma {:induction false} MergesAgreeOnNewPaths(existing: seq<MediaItem>, scanned: seq<MediaItem>)
    requires forall i :: 0 <= i < |scanned| ==> !HasPath(existing, scanned[i].path)
    requires UniquePaths(scanned)
    ensures MergePixz(existing, scanned) == MergeWin(existing, scanned)
    decreases |scanned|
  {
    if scanned != [] {
      var step := existing + [scanned[0]];
      assert AddIfAbsent(existing, scanned[0]) == step;
      RestStaysNew(existing, scanned);
      MergesAgreeOnNewPaths(step, scanned[1..]);
      Seqs.ConsTail(scanned);
      Seqs.Associative(existing, [scanned[0]], scanned[1..]);
    }
  }

  /** After the first new item is appended, the rest of a repeat-free scan is still new. */
  lemma RestStaysNew(existing: seq<MediaItem>, scanned: seq<MediaItem>)
    requires scanned != []
    requires forall i :: 0 <= i < |scanned| ==> !HasPath(existing, scanned[i].path)
    requires UniquePaths(scanned)
    ensures forall i :: 0 <= i < |scanned[1..]| ==> !HasPath(existing + [scanned[0]], scanned[1..][i].path)
  {
    forall i | 0 <= i < |scanned[1..]|
      ensures !HasPath(existing + [scanned[0]], scanned[1..][i].path)
    {
      assert scanned[1..][i] == scanned[i + 1];
      assert scanned[0].path != scanned[i + 1].path;
    }
  }

  /** Scanning an already listed folder again doubles its items in wingallery. */
  lemma WinRescanDuplicates(existing: seq<MediaItem>, scanned: seq<MediaItem>)
    requires scanned != []
    requires forall i :: 0 <= i < |scanned| ==> HasPath(existing, scanned[i].path)
    ensures !UniquePaths(MergeWin(existing, scanned))
  {
    var r := MergeWin(existing, scanned);
    var j :| 0 <= j < |existing| && existing[j].path == scanned[0].path;
    assert r[j].path == r[|existing|].path;
  }
}
