/** Notions about sequences that several components share. */
module Sequences {

  predicate Distinct<T(==)>(s: seq<T>) {
    forall j, k :: 0 <= j < k < |s| ==> s[j] != s[k]
  }

  /** The length of the longest common prefix. */
  function CommonLength<T(==)>(a: seq<T>, b: seq<T>): (n: nat)
    ensures n <= |a| && n <= |b| && a[..n] == b[..n]
    ensures n < |a| && n < |b| ==> a[n] != b[n]
  {
    if a != [] && b != [] && a[0] == b[0] then 1 + CommonLength(a[1..], b[1..]) else 0
  }

  function Reversed<T>(s: seq<T>): seq<T> {
    if s == [] then [] else [s[|s| - 1]] + Reversed(s[..|s| - 1])
  }

  /** Moving the last element of one part to the end of a part kept in reverse. */
  lemma ReversedShift<T>(above: seq<T>, moved: T, below: seq<T>)
    ensures above + [moved] + Reversed(below) == above + Reversed(below + [moved])
  {
    assert (below + [moved])[..|below|] == below;
    assert above + [moved] + Reversed(below) == above + ([moved] + Reversed(below));
  }

  lemma TakeOneMore<T>(a: seq<T>, b: seq<T>, k: nat)
    requires k < |b|
    ensures a + b[..k] + [b[k]] == a + b[..k + 1]
  {}

  lemma ConcatAssoc<T>(a: seq<T>, b: seq<T>, c: seq<T>)
    ensures a + (b + c) == a + b + c
  {}
}
