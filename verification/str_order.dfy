/**
  The order in which all three programs compare names and types: C's `strcmp`,
  reduced to its sign. On strings without an embedded NUL this is plain
  lexicographic order in which a proper prefix comes first. Comparing the
  code points of `seq<char>` agrees with `strcmp` on the UTF-8 bytes, because
  UTF-8 preserves code-point order bytewise.
 */
module StrOrder {

  /** Sign of `strcmp(a, b)`: -1, 0 or 1. */
  function Cmp(a: string, b: string): (r: int)
    ensures -1 <= r <= 1
    ensures r == 0 <==> a == b
  {
    if |a| == 0 && |b| == 0 then 0
    else if |a| == 0 then -1
    else if |b| == 0 then 1
    else if a[0] < b[0] then -1
    else if a[0] > b[0] then 1
    else
      var r := Cmp(a[1..], b[1..]);
      assert a == [a[0]] + a[1..] && b == [b[0]] + b[1..];
      r
  }

  /** `strcmp(a, b) <= 0` */
  predicate Le(a: string, b: string) {
    Cmp(a, b) <= 0
  }

  /** `strcmp(a, b) < 0` */
  predicate Lt(a: string, b: string) {
    Cmp(a, b) < 0
  }

  /** Swapping the operands of `strcmp` flips the sign. */
  lemma {:induction false} CmpAntisymmetric(a: string, b: string)
    ensures Cmp(b, a) == -Cmp(a, b)
  {
    if |a| > 0 && |b| > 0 && a[0] == b[0] {
      CmpAntisymmetric(a[1..], b[1..]);
    }
  }

  /** `strcmp` order is transitive, and strictly so when either step is strict. */
  lemma {:induction false} CmpTransitive(a: string, b: string, c: string)
    requires Cmp(a, b) <= 0 && Cmp(b, c) <= 0
    ensures Cmp(a, c) <= 0
    ensures Cmp(a, b) < 0 || Cmp(b, c) < 0 ==> Cmp(a, c) < 0
  {
    if |a| > 0 && |b| > 0 && |c| > 0 && a[0] == b[0] && b[0] == c[0] {
      CmpTransitive(a[1..], b[1..], c[1..]);
    }
  }

  /** Any two strings are comparable. */
  lemma NotLtIsGe(a: string, b: string)
    ensures !Lt(a, b) <==> Le(b, a)
  {
    CmpAntisymmetric(a, b);
  }

  /** Non-decreasing under `strcmp` on the key chosen by `key`. */
  predicate SortedBy<T>(s: seq<T>, key: T -> string) {
    forall i, j :: 0 <= i < j < |s| ==> Le(key(s[i]), key(s[j]))
  }

  /** `a[lo..hi]` is non-decreasing under `strcmp` on `key`. */
  predicate SortedRange<T>(a: seq<T>, key: T -> string, lo: int, hi: int)
    requires 0 <= lo <= hi <= |a|
  {
    forall p, q :: lo <= p < q < hi ==> Le(key(a[p]), key(a[q]))
  }

  /** Everything before position `i` is at most everything from `i` on. */
  predicate PartitionedAt<T>(a: seq<T>, key: T -> string, i: int)
    requires 0 <= i <= |a|
  {
    forall p, q :: 0 <= p < i <= q < |a| ==> Le(key(a[p]), key(a[q]))
  }

  /** A range whose neighbours are in order is in order (`strcmp` is transitive). */
  lemma {:induction false} AdjacentToSorted<T>(a: seq<T>, key: T -> string, hi: int)
    requires 0 <= hi <= |a|
    requires forall k :: 0 <= k < hi - 1 ==> Le(key(a[k]), key(a[k + 1]))
    ensures SortedRange(a, key, 0, hi)
  {
    if hi > 1 {
      AdjacentToSorted(a, key, hi - 1);
      forall p | 0 <= p < hi - 1 ensures Le(key(a[p]), key(a[hi - 1])) {
        CmpTransitive(key(a[p]), key(a[hi - 2]), key(a[hi - 1]));
      }
    }
  }

  /** A sorted prefix, a sorted suffix and every prefix element below every suffix element. */
  lemma SortedFromParts<T>(a: seq<T>, key: T -> string, m: int)
    requires 0 <= m <= |a|
    requires SortedRange(a, key, 0, m) && PartitionedAt(a, key, m) && SortedRange(a, key, m, |a|)
    ensures SortedBy(a, key)
  {
  }
}
