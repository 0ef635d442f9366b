/** Generic facts about sequences used by the collector and the reconciliation step. */
module Sequences {

  /** No value occurs twice in `s`. */
  predicate NoDuplicates<T(==)>(s: seq<T>) {
    forall i, j :: 0 <= i < j < |s| ==> s[i] != s[j]
  }

  /** `a` is obtained from `b` by deleting elements, keeping the order of the rest. */
  predicate IsSubsequence<T(==)>(a: seq<T>, b: seq<T>)
    decreases |b|
  {
    if a == [] then true
    else if b == [] then false
    else if a[|a| - 1] == b[|b| - 1] then IsSubsequence(a[..|a| - 1], b[..|b| - 1])
    else IsSubsequence(a, b[..|b| - 1])
  }

  /** The index of the first occurrence of `x` in `s`. */
  function FirstIndex<T(==)>(s: seq<T>, x: T): (i: nat)
    requires x in s
    ensures i < |s| && s[i] == x
    ensures x !in s[..i]
  {
    if s[0] == x then 0
    else
      var j := FirstIndex(s[1..], x);
      assert s[..1 + j] == [s[0]] + s[1..][..j];
      1 + j
  }

  lemma {:induction false} SubsequenceLength<T>(a: seq<T>, b: seq<T>)
    requires IsSubsequence(a, b)
    ensures |a| <= |b|
    decreases |b|
  {
    if a != [] {
      if a[|a| - 1] == b[|b| - 1] {
        SubsequenceLength(a[..|a| - 1], b[..|b| - 1]);
      } else {
        SubsequenceLength(a, b[..|b| - 1]);
      }
    }
  }

  /** Appending one element to the whole keeps a subsequence a subsequence. */
  lemma {:induction false} SubsequenceExtend<T>(a: seq<T>, b: seq<T>, y: T)
    requires IsSubsequence(a, b)
    ensures IsSubsequence(a, b + [y])
    decreases |b|, 1
  {
    if a != [] {
      assert (b + [y])[..|b|] == b;
      if a[|a| - 1] == y {
        SubsequenceDropLast(a, b);
      }
    }
  }

  /** Dropping the last element of a subsequence keeps it a subsequence. */
  lemma {:induction false} SubsequenceDropLast<T>(a: seq<T>, b: seq<T>)
    requires IsSubsequence(a, b) && a != []
    ensures IsSubsequence(a[..|a| - 1], b)
    decreases |b|, 0
  {
    var a' := a[..|a| - 1];
    if a' != [] {
      if a[|a| - 1] == b[|b| - 1] {
        SubsequenceExtend(a', b[..|b| - 1], b[|b| - 1]);
      } else {
        SubsequenceDropLast(a, b[..|b| - 1]);
        SubsequenceExtend(a', b[..|b| - 1], b[|b| - 1]);
      }
      assert b[..|b| - 1] + [b[|b| - 1]] == b;
    }
  }

  /** An index names an element; used to close proofs by contradiction. */
  lemma ElementAt<T>(s: seq<T>, i: int)
    requires 0 <= i < |s|
    ensures s[i] in s
  {
  }
}
