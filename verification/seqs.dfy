/**
 * Facts about sequence slicing and concatenation, stated once for any
 * element type so that the proofs about the model's own lists can cite
 * them instead of re-deriving them among their own definitions.
 */
module Seqs {
  lemma ConsTail<T>(s: seq<T>)
    requires s != []
    ensures s == [s[0]] + s[1..]
  {
  }

  lemma LastSplit<T>(s: seq<T>)
    requires s != []
    ensures s == s[..|s| - 1] + [s[|s| - 1]]
  {
  }

  lemma Associative<T>(a: seq<T>, b: seq<T>, c: seq<T>)
    ensures a + (b + c) == (a + b) + c
  {
  }

  lemma AppendTail<T>(a: seq<T>, b: seq<T>)
    requires a != []
    ensures (a + b)[1..] == a[1..] + b
  {
  }

  lemma EmptyAppend<T>(b: seq<T>)
    ensures [] + b == b && b + [] == b
  {
  }

  lemma AppendSlices<T>(a: seq<T>, b: seq<T>)
    ensures (a + b)[..|a|] == a && (a + b)[|a|..] == b
  {
  }

  /** A prefix of a prefix is a prefix. */
  lemma PrefixOfPrefix<T>(s: seq<T>, p: seq<T>, q: seq<T>)
    requires |p| <= |s| && s[..|p|] == p
    requires |q| <= |p| && p[..|q|] == q
    ensures |q| <= |s| && s[..|q|] == q
  {
    assert s[..|q|] == s[..|p|][..|q|];
  }

  lemma InCons<T>(s: seq<T>, x: T)
    requires s != []
    ensures x in s <==> x == s[0] || x in s[1..]
  {
    ConsTail(s);
  }

  /** A value absent from the head and from a prefix of the tail is absent from the longer prefix. */
  lemma InConsPrefix<T>(s: seq<T>, x: T, r: nat)
    requires r < |s| - 1 && s[0] != x && x !in s[1..][..r]
    ensures x !in s[..r + 1]
  {
    assert s[..r + 1] == [s[0]] + s[1..][..r];
  }

  /** Sequences of one length that agree at every index are equal. */
  lemma Pointwise<T>(a: seq<T>, b: seq<T>)
    requires |a| == |b| && forall i :: 0 <= i < |a| ==> a[i] == b[i]
    ensures a == b
  {
  }

  lemma TakeTake<T>(s: seq<T>, i: nat, j: nat)
    requires i <= j <= |s|
    ensures s[..j][..i] == s[..i]
  {
  }
}
