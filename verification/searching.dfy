/**
  The search primitives shared by the three programs: "first element whose
  name matches", sequential search with its comparison counter, binary
  search with its probe counter, and the halving bound on that counter.
  Names are compared as the programs do, with the sign of `strcmp`.
 */
module Searching {
  import opened StrOrder

  /** Some element of `s` has name `key`. */
  predicate HasName<T>(s: seq<T>, name: T -> string, key: string) {
    exists i :: 0 <= i < |s| && name(s[i]) == key
  }

  /** `k` is the position of the first element of `s` named `key`. */
  predicate IsFirstMatch<T>(s: seq<T>, name: T -> string, key: string, k: int) {
    && 0 <= k < |s|
    && name(s[k]) == key
    && forall i :: 0 <= i < k ==> name(s[i]) != key
  }

  /** A name occurs in `[x] + s` iff it is `x`'s or occurs in `s`. */
  lemma HasNameCons<T>(x: T, s: seq<T>, name: T -> string, key: string)
    ensures HasName([x] + s, name, key) <==> name(x) == key || HasName(s, name, key)
  {
    var t := [x] + s;
    assert t[0] == x;
    if HasName(s, name, key) {
      var i :| 0 <= i < |s| && name(s[i]) == key;
      assert t[i + 1] == s[i];
    }
    if HasName(t, name, key) && name(x) != key {
      var i :| 0 <= i < |t| && name(t[i]) == key;
      assert i != 0;
      assert s[i - 1] == t[i];
      assert HasName(s, name, key);
    }
  }

  /**
    Reference definition of "remove the first element named `key`": the
    element goes, everything before and after it stays in order.
   */
  function RemoveFirst<T>(s: seq<T>, name: T -> string, key: string): seq<T>
  {
    if |s| == 0 then []
    else if name(s[0]) == key then s[1..]
    else [s[0]] + RemoveFirst(s[1..], name, key)
  }

  /** Removing the first match at `k` splices `k` out of the sequence. */
  lemma {:induction false} RemoveFirstAt<T>(s: seq<T>, name: T -> string, key: string, k: int)
    requires IsFirstMatch(s, name, key, k)
    ensures RemoveFirst(s, name, key) == s[..k] + s[k + 1..]
  {
    if k > 0 {
      assert name(s[0]) != key;
      var t := s[1..];
      assert IsFirstMatch(t, name, key, k - 1) by {
        forall i | 0 <= i < k - 1 ensures name(t[i]) != key {
          assert t[i] == s[i + 1];
        }
      }
      RemoveFirstAt(t, name, key, k - 1);
      assert t[..k - 1] + t[k..] == s[1..k] + s[k + 1..];
      assert [s[0]] + s[1..k] == s[..k];
    }
  }

  /** Removing a name that is absent changes nothing. */
  lemma {:induction false} RemoveFirstAbsent<T>(s: seq<T>, name: T -> string, key: string)
    requires !HasName(s, name, key)
    ensures RemoveFirst(s, name, key) == s
  {
    if |s| > 0 {
      assert name(s[0]) != key;
      assert !HasName(s[1..], name, key) by {
        forall i | 0 <= i < |s| - 1 ensures name(s[1..][i]) != key {
          assert s[1..][i] == s[i + 1];
        }
      }
      RemoveFirstAbsent(s[1..], name, key);
      assert [s[0]] + s[1..] == s;
    }
  }

  /** Removing a name that occurs shortens the sequence by exactly one. */
  lemma {:induction false} RemoveFirstLength<T>(s: seq<T>, name: T -> string, key: string)
    ensures |RemoveFirst(s, name, key)| == if HasName(s, name, key) then |s| - 1 else |s|
  {
    if |s| > 0 {
      assert s == [s[0]] + s[1..];
      HasNameCons(s[0], s[1..], name, key);
      RemoveFirstLength(s[1..], name, key);
    }
  }

  /** Removal takes exactly one copy of the first match out of the multiset. */
  lemma RemoveFirstMultiset<T>(s: seq<T>, name: T -> string, key: string, k: int)
    requires IsFirstMatch(s, name, key, k)
    ensures multiset(RemoveFirst(s, name, key)) + multiset{s[k]} == multiset(s)
  {
    RemoveFirstAt(s, name, key, k);
    assert s == s[..k] + [s[k]] + s[k + 1..];
  }

  /**
    Appending an element under a fresh name and then removing that name
    gives back the sequence one started from.
   */
  lemma AppendThenRemove<T>(s: seq<T>, x: T, name: T -> string)
    requires !HasName(s, name, name(x))
    ensures RemoveFirst(s + [x], name, name(x)) == s
  {
    var t := s + [x];
    assert IsFirstMatch(t, name, name(x), |s|) by {
      forall i | 0 <= i < |s| ensures name(t[i]) != name(x) {
        assert t[i] == s[i];
      }
    }
    RemoveFirstAt(t, name, name(x), |s|);
    assert t[..|s|] == s;
  }

  /**
    Sequential search counting one `strcmp` per element examined, the
    matching one included; -1 when no element has that name.
   */
  method SequentialSearch<T>(a: seq<T>, name: T -> string, key: string) returns (r: int, comps: nat)
    ensures r == -1 <==> !HasName(a, name, key)
    ensures r != -1 ==> IsFirstMatch(a, name, key, r)
    ensures comps == if r == -1 then |a| else r + 1
  {
    comps := 0;
    var i := 0;
    while i < |a|
      invariant 0 <= i <= |a|
      invariant comps == i
      invariant forall j :: 0 <= j < i ==> name(a[j]) != key
    {
      comps := comps + 1;
      if Cmp(name(a[i]), key) == 0 {
        return i, comps;
      }
      i := i + 1;
    }
    r := -1;
  }

  /**
    Worst-case number of probes of a binary search over `m` elements: each
    probe leaves at most half of the range.
   */
  function MaxProbes(m: int): nat
    decreases if m <= 0 then 0 else m
  {
    if m <= 0 then 0 else 1 + MaxProbes(m / 2)
  }

  function Pow2(k: nat): nat
  {
    if k == 0 then 1 else 2 * Pow2(k - 1)
  }

  /** `MaxProbes(n)` is `1 + floor(log2 n)` for positive `n`. */
  lemma {:induction false} MaxProbesIsLog(n: int)
    requires n >= 1
    ensures MaxProbes(n) >= 1
    ensures Pow2(MaxProbes(n) - 1) <= n < Pow2(MaxProbes(n))
  {
    if n >= 2 {
      MaxProbesIsLog(n / 2);
    }
  }

  lemma {:induction false} MaxProbesMonotone(x: int, y: int)
    requires x <= y
    ensures MaxProbes(x) <= MaxProbes(y)
    decreases if y <= 0 then 0 else y
  {
    if x > 0 {
      MaxProbesMonotone(x / 2, y / 2);
    }
  }

  /** Halving a range of `n >= 1` elements: the larger half has `n / 2`, the smaller `(n - 1) / 2`. */
  lemma MaxProbesHalf(n: int, h: int, l: int)
    requires n >= 1 && h == n / 2 && l == (n - 1) / 2
    ensures MaxProbes(n) == 1 + MaxProbes(h)
    ensures 1 + MaxProbes(l) <= MaxProbes(n)
  {
    MaxProbesMonotone(l, h);
  }

  /** One probe at the midpoint of `lo..hi` leaves at most half of the range. */
  lemma HalvingStep(lo: int, hi: int, mid: int)
    requires lo <= hi && mid == (lo + hi) / 2
    ensures lo <= mid <= hi
    ensures 1 + MaxProbes(mid - lo) <= MaxProbes(hi - lo + 1)
    ensures 1 + MaxProbes(hi - mid) == MaxProbes(hi - lo + 1)
  {
    assert 2 * mid <= lo + hi <= 2 * mid + 1;
    MaxProbesHalf(hi - lo + 1, hi - mid, mid - lo);
  }

  /** In a name-sorted sequence, everything up to a name below the key is below it. */
  lemma SortedBelow<T>(a: seq<T>, name: T -> string, key: string, mid: int)
    requires SortedBy(a, name) && 0 <= mid < |a| && Lt(name(a[mid]), key)
    ensures forall k :: 0 <= k <= mid ==> Lt(name(a[k]), key)
  {
    forall k | 0 <= k < mid ensures Lt(name(a[k]), key) {
      CmpTransitive(name(a[k]), name(a[mid]), key);
    }
  }

  /** In a name-sorted sequence, everything from a name above the key on is above it. */
  lemma SortedAbove<T>(a: seq<T>, name: T -> string, key: string, mid: int)
    requires SortedBy(a, name) && 0 <= mid < |a| && Cmp(name(a[mid]), key) > 0
    ensures forall k :: mid <= k < |a| ==> Lt(key, name(a[k]))
  {
    CmpAntisymmetric(name(a[mid]), key);
    forall k | mid < k < |a| ensures Lt(key, name(a[k])) {
      CmpTransitive(key, name(a[mid]), name(a[k]));
    }
  }

  /** Outcome of a binary search: the index found, or -1, and the number of probes made. */
  datatype Probe = Probe(index: int, probes: nat)

  /**
    Binary search over `a[lo..hi]` step by step: one probe per midpoint,
    stopping on a match; the result is the index found (or -1) and the
    number of probes. A hit lies in the range and holds the key, and a
    non-empty range costs at least one probe.
   */
  function BinarySearchFrom<T>(a: seq<T>, name: T -> string, key: string, lo: int, hi: int): (r: Probe)
    requires 0 <= lo <= hi + 1 <= |a|
    ensures r.index == -1 || (lo <= r.index <= hi && name(a[r.index]) == key)
    ensures lo <= hi ==> r.probes >= 1
    decreases hi - lo + 1
  {
    if lo > hi then Probe(-1, 0)
    else
      var mid := (lo + hi) / 2;
      var c := Cmp(name(a[mid]), key);
      if c == 0 then Probe(mid, 1)
      else if c < 0 then
        var res := BinarySearchFrom(a, name, key, mid + 1, hi);
        Probe(res.index, res.probes + 1)
      else
        var res := BinarySearchFrom(a, name, key, lo, mid - 1);
        Probe(res.index, res.probes + 1)
  }

  /** The probes never exceed `MaxProbes` of the range size, because each probe leaves at most half. */
  lemma {:induction false} BinarySearchFromBound<T>(a: seq<T>, name: T -> string, key: string, lo: int, hi: int)
    requires 0 <= lo <= hi + 1 <= |a|
    ensures BinarySearchFrom(a, name, key, lo, hi).probes <= MaxProbes(hi - lo + 1)
    decreases hi - lo + 1
  {
    if lo <= hi {
      var mid := (lo + hi) / 2;
      HalvingStep(lo, hi, mid);
      BinarySearchFromStep(a, name, key, lo, hi, mid);
      var c := Cmp(name(a[mid]), key);
      var n := MaxProbes(hi - lo + 1);
      if c == 0 {
        assert BinarySearchFrom(a, name, key, lo, hi).probes == 1 <= n;
      } else if c < 0 {
        BinarySearchFromBound(a, name, key, mid + 1, hi);
        assert BinarySearchFrom(a, name, key, mid + 1, hi).probes <= MaxProbes(hi - mid);
      } else {
        BinarySearchFromBound(a, name, key, lo, mid - 1);
        assert BinarySearchFrom(a, name, key, lo, mid - 1).probes <= MaxProbes(mid - lo);
      }
    }
  }

  /** One probe of `BinarySearchFrom` on a non-empty range: stop on a match, else continue in one half. */
  lemma BinarySearchFromStep<T>(a: seq<T>, name: T -> string, key: string, lo: int, hi: int, mid: int)
    requires 0 <= lo <= hi < |a| && mid == (lo + hi) / 2
    ensures Cmp(name(a[mid]), key) == 0 ==> BinarySearchFrom(a, name, key, lo, hi) == Probe(mid, 1)
    ensures Cmp(name(a[mid]), key) < 0 ==>
      var res := BinarySearchFrom(a, name, key, mid + 1, hi);
      BinarySearchFrom(a, name, key, lo, hi) == Probe(res.index, res.probes + 1)
    ensures Cmp(name(a[mid]), key) > 0 ==>
      var res := BinarySearchFrom(a, name, key, lo, mid - 1);
      BinarySearchFrom(a, name, key, lo, hi) == Probe(res.index, res.probes + 1)
  {
  }

  /** On a name-sorted sequence, a miss of `BinarySearchFrom` means the key is not in the range. */
  lemma {:induction false} BinarySearchFromMiss<T>(a: seq<T>, name: T -> string, key: string, lo: int, hi: int)
    requires 0 <= lo <= hi + 1 <= |a|
    requires SortedBy(a, name)
    requires BinarySearchFrom(a, name, key, lo, hi).index == -1
    ensures forall k :: lo <= k <= hi ==> name(a[k]) != key
    decreases hi - lo + 1
  {
    if lo <= hi {
      var mid := (lo + hi) / 2;
      var c := Cmp(name(a[mid]), key);
      if c < 0 {
        BinarySearchFromMiss(a, name, key, mid + 1, hi);
        SortedBelow(a, name, key, mid);
      } else if c > 0 {
        BinarySearchFromMiss(a, name, key, lo, mid - 1);
        SortedAbove(a, name, key, mid);
      }
    }
  }

  /** A key beyond every name in the range drives `BinarySearchFrom` to exactly `MaxProbes` probes. */
  lemma {:induction false} BinarySearchFromTight<T>(a: seq<T>, name: T -> string, key: string, lo: int, hi: int)
    requires 0 <= lo <= hi + 1 <= |a|
    requires forall k :: lo <= k <= hi ==> Lt(name(a[k]), key)
    ensures BinarySearchFrom(a, name, key, lo, hi).probes == MaxProbes(hi - lo + 1)
    decreases hi - lo + 1
  {
    if lo <= hi {
      var mid := (lo + hi) / 2;
      HalvingStep(lo, hi, mid);
      assert Lt(name(a[mid]), key);
      BinarySearchFromTight(a, name, key, mid + 1, hi);
    }
  }

  /** On a name-sorted sequence, binary search over the whole of it misses exactly when the key is absent. */
  lemma BinarySearchComplete<T>(a: seq<T>, name: T -> string, key: string)
    requires SortedBy(a, name)
    ensures BinarySearchFrom(a, name, key, 0, |a| - 1).index == -1 <==> !HasName(a, name, key)
  {
    if BinarySearchFrom(a, name, key, 0, |a| - 1).index == -1 {
      BinarySearchFromMiss(a, name, key, 0, |a| - 1);
    }
  }

  /**
    What a binary search over the whole of `a` promises: a hit is an index
    of `a` holding the key, a non-empty sequence costs between 1 and
    `MaxProbes(|a|)` probes, and on a name-sorted sequence a miss means the
    key is absent.
   */
  lemma BinarySearchFacts<T>(a: seq<T>, name: T -> string, key: string)
    ensures var res := BinarySearchFrom(a, name, key, 0, |a| - 1);
      && -1 <= res.index < |a|
      && (res.index >= 0 ==> name(a[res.index]) == key)
      && (|a| > 0 ==> 1 <= res.probes)
      && res.probes <= MaxProbes(|a|)
      && (SortedBy(a, name) ==> (res.index == -1 <==> !HasName(a, name, key)))
  {
    BinarySearchFromBound(a, name, key, 0, |a| - 1);
    if SortedBy(a, name) {
      BinarySearchComplete(a, name, key);
    }
  }

  /**
    Between probes of the search loop over `a[..]`: the range `lo..hi` is
    still to search, `probes` have been made, and finishing the reference
    search from here gives the outcome `whole` of the reference search over
    the whole sequence.
   */
  ghost predicate SearchInv<T>(a: seq<T>, name: T -> string, key: string, lo: int, hi: int, probes: nat, whole: Probe)
  {
    && 0 <= lo <= hi + 1 <= |a|
    && whole.index == BinarySearchFrom(a, name, key, lo, hi).index
    && whole.probes == probes + BinarySearchFrom(a, name, key, lo, hi).probes
  }

  /** One probe at the midpoint ends the search on a match and otherwise keeps `SearchInv` on one half. */
  lemma SearchInvStep<T>(a: seq<T>, name: T -> string, key: string, lo: int, hi: int, probes: nat, whole: Probe)
    requires SearchInv(a, name, key, lo, hi, probes, whole) && lo <= hi
    ensures var mid := (lo + hi) / 2;
      && 0 <= mid < |a|
      && (Cmp(name(a[mid]), key) == 0 ==> whole == Probe(mid, probes + 1))
      && (Cmp(name(a[mid]), key) < 0 ==> SearchInv(a, name, key, mid + 1, hi, probes + 1, whole))
      && (Cmp(name(a[mid]), key) > 0 ==> SearchInv(a, name, key, lo, mid - 1, probes + 1, whole))
  {
    var mid := (lo + hi) / 2;
    BinarySearchFromStep(a, name, key, lo, hi, mid);
  }

  /** An empty range left to search: the outcome is a miss after the probes made. */
  lemma SearchInvDone<T>(a: seq<T>, name: T -> string, key: string, lo: int, hi: int, probes: nat, whole: Probe)
    requires SearchInv(a, name, key, lo, hi, probes, whole) && lo > hi
    ensures whole == Probe(-1, probes)
  {
  }

  /**
    Classic binary search by name with a probe counter, step for step the
    loop of `BinarySearchFrom`, so that a found index holds the key and the
    counter never exceeds `MaxProbes(|a|)` (`BinarySearchComplete` and
    `BinarySearchFromTight` say the rest).
   */
  method BinarySearch<T>(a: seq<T>, name: T -> string, key: string) returns (r: int, probes: nat)
    ensures Probe(r, probes) == BinarySearchFrom(a, name, key, 0, |a| - 1)
  {
    ghost var whole := BinarySearchFrom(a, name, key, 0, |a| - 1);
    probes := 0;
    var lo := 0;
    var hi := |a| - 1;
    while lo <= hi
      invariant SearchInv(a, name, key, lo, hi, probes, whole)
      decreases hi - lo
    {
      SearchInvStep(a, name, key, lo, hi, probes, whole);
      probes := probes + 1;
      var mid := (lo + hi) / 2;
      var c := Cmp(name(a[mid]), key);
      if c == 0 {
        return mid, probes;
      } else if c < 0 {
        lo := mid + 1;
      } else {
        hi := mid - 1;
      }
    }
    SearchInvDone(a, name, key, lo, hi, probes, whole);
    r := -1;
  }
}
