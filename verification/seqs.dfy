/**
  Small facts about sequence slicing and concatenation, stated once for any
  element type so that the modules working on concrete records can cite
  them instead of re-deriving sequence equalities element by element.
 */
module Seqs {

  /** A non-empty sequence is its front followed by its last element. */
  lemma Snoc<T>(s: seq<T>)
    requires |s| > 0
    ensures s == s[..|s| - 1] + [s[|s| - 1]]
    ensures multiset(s) == multiset(s[..|s| - 1]) + multiset{s[|s| - 1]}
  {
    assert s == s[..|s| - 1] + [s[|s| - 1]];
  }

  /** A prefix of a prefix is a prefix. */
  lemma PrefixOfPrefix<T>(s: seq<T>, i: int, j: int)
    requires 0 <= j <= i <= |s|
    ensures s[..i][..j] == s[..j]
  {
  }

  /** Dropping the last element of `s + u`, with `u` non-empty, drops it from `u`. */
  lemma AppendFront<T>(s: seq<T>, u: seq<T>)
    requires |u| > 0
    ensures (s + u)[..|s + u| - 1] == s + u[..|u| - 1]
    ensures (s + u)[|s + u| - 1] == u[|u| - 1]
  {
    assert (s + u)[..|s + u| - 1] == s + u[..|u| - 1];
  }

  /** A non-empty slice is its first element followed by the rest. */
  lemma SliceCons<T>(s: seq<T>, j: int, i: int)
    requires 0 <= j < i <= |s|
    ensures s[j..i] == [s[j]] + s[j + 1..i]
  {
    assert s[j..i] == [s[j]] + s[j + 1..i];
  }
}
