/**
  `insertionSortTipo` of the advanced program (`mestre/mestre_Free_Fire.c`):
  insertion sort by type under `strcmp`. Each element is carried left past
  the elements whose type is strictly greater, so elements of equal type
  keep their order. The counter counts one comparison per element shifted,
  plus one for the comparison that stops the shifting inside the array.
 */
module InsertionSort {
  import opened StrOrder
  import opened Records
  import opened Counts
  import opened Seqs

  /**
    Reference for one insertion: `x` goes just after the last element of
    `p` (searching from the right) whose type is not greater than its own.
   */
  function InsertRight(p: seq<Componente>, x: Componente): (r: seq<Componente>)
  {
    if |p| == 0 then [x]
    else if Cmp(p[|p| - 1].tipo, x.tipo) > 0 then InsertRight(p[..|p| - 1], x) + [p[|p| - 1]]
    else p + [x]
  }

  /** Comparisons one insertion performs: one per shift, plus the stopping one inside the array. */
  function InsertCount(p: seq<Componente>, x: Componente): nat
  {
    if |p| == 0 then 0
    else if Cmp(p[|p| - 1].tipo, x.tipo) > 0 then InsertCount(p[..|p| - 1], x) + 1
    else 1
  }

  /** Reference for the whole sort: insert each element, left to right, into the sorted prefix. */
  function InsertionSortRef(s: seq<Componente>): seq<Componente>
  {
    if |s| == 0 then [] else InsertRight(InsertionSortRef(s[..|s| - 1]), s[|s| - 1])
  }

  /** Comparisons the whole sort performs. */
  function SortCount(s: seq<Componente>): nat
  {
    if |s| == 0 then 0
    else SortCount(s[..|s| - 1]) + InsertCount(InsertionSortRef(s[..|s| - 1]), s[|s| - 1])
  }

  /** The elements of type `t`, in order. */
  function OfType(s: seq<Componente>, t: string): seq<Componente>
  {
    if |s| == 0 then []
    else OfType(s[..|s| - 1], t) + (if s[|s| - 1].tipo == t then [s[|s| - 1]] else [])
  }

  lemma {:induction false} OfTypeAppend(s: seq<Componente>, u: seq<Componente>, t: string)
    ensures OfType(s + u, t) == OfType(s, t) + OfType(u, t)
  {
    if |u| > 0 {
      AppendFront(s, u);
      OfTypeAppend(s, u[..|u| - 1], t);
    } else {
      assert s + u == s;
    }
  }

  /** One insertion adds `x` to the multiset and gives one element more. */
  lemma {:induction false} InsertRightMultiset(p: seq<Componente>, x: Componente)
    ensures multiset(InsertRight(p, x)) == multiset(p) + multiset{x}
    ensures |InsertRight(p, x)| == |p| + 1
  {
    if |p| > 0 && Cmp(p[|p| - 1].tipo, x.tipo) > 0 {
      InsertRightMultiset(p[..|p| - 1], x);
      Snoc(p);
    }
  }

  /** Every element of an insertion's result is `x` or an element of `p`. */
  lemma {:induction false} InsertRightElements(p: seq<Componente>, x: Componente)
    ensures forall y :: y in InsertRight(p, x) ==> y == x || y in p
  {
    if |p| > 0 && Cmp(p[|p| - 1].tipo, x.tipo) > 0 {
      InsertRightElements(p[..|p| - 1], x);
    }
  }

  /** Inserting into a type-sorted sequence keeps it sorted by type. */
  lemma {:induction false} InsertRightSorted(p: seq<Componente>, x: Componente)
    requires SortedBy(p, TipoOf)
    ensures SortedBy(InsertRight(p, x), TipoOf)
  {
    if |p| == 0 {
    } else if Cmp(p[|p| - 1].tipo, x.tipo) > 0 {
      var q := p[..|p| - 1];
      var last := p[|p| - 1];
      InsertRightSorted(q, x);
      InsertRightElements(q, x);
      var r := InsertRight(q, x);
      forall k | 0 <= k < |r| ensures Le(r[k].tipo, last.tipo) {
        if r[k] == x {
          CmpAntisymmetric(last.tipo, x.tipo);
        } else {
          assert r[k] in q;
        }
      }
    } else {
      var last := p[|p| - 1];
      forall k | 0 <= k < |p| ensures Le(p[k].tipo, x.tipo) {
        CmpTransitive(p[k].tipo, last.tipo, x.tipo);
      }
    }
  }

  /** An insertion never reorders elements of equal type: `x` joins its type at the end. */
  lemma {:induction false} InsertRightStable(p: seq<Componente>, x: Componente, t: string)
    ensures OfType(InsertRight(p, x), t) == OfType(p, t) + OfType([x], t)
  {
    if |p| == 0 {
      assert [] + OfType([x], t) == OfType([x], t);
    } else if Cmp(p[|p| - 1].tipo, x.tipo) > 0 {
      var q := p[..|p| - 1];
      var last := p[|p| - 1];
      InsertRightStable(q, x, t);
      OfTypeAppend(InsertRight(q, x), [last], t);
      OfTypeAppend(q, [last], t);
      Snoc(p);
      assert [x][..0] == [] && [last][..0] == [];
      assert OfType([x], t) == if x.tipo == t then [x] else [];
      assert OfType([last], t) == if last.tipo == t then [last] else [];
    } else {
      OfTypeAppend(p, [x], t);
    }
  }

  /** One insertion compares at most once per element already placed. */
  lemma {:induction false} InsertCountBound(p: seq<Componente>, x: Componente)
    ensures InsertCount(p, x) <= |p|
  {
    if |p| > 0 && Cmp(p[|p| - 1].tipo, x.tipo) > 0 {
      InsertCountBound(p[..|p| - 1], x);
    }
  }

  /** The reference sort returns a permutation of its input. */
  lemma {:induction false} InsertionSortRefPermutation(s: seq<Componente>)
    ensures multiset(InsertionSortRef(s)) == multiset(s)
  {
    if |s| > 0 {
      var q := s[..|s| - 1];
      var x := s[|s| - 1];
      InsertionSortRefPermutation(q);
      InsertRightMultiset(InsertionSortRef(q), x);
      Snoc(s);
    }
  }

  /** The reference sort keeps the length of its input. */
  lemma InsertionSortRefLength(s: seq<Componente>)
    ensures |InsertionSortRef(s)| == |s|
  {
    InsertionSortRefPermutation(s);
    assert |multiset(InsertionSortRef(s))| == |multiset(s)|;
  }

  /** The reference sort returns a sequence sorted by type. */
  lemma {:induction false} InsertionSortRefOrdered(s: seq<Componente>)
    ensures SortedBy(InsertionSortRef(s), TipoOf)
  {
    if |s| > 0 {
      var q := s[..|s| - 1];
      InsertionSortRefOrdered(q);
      InsertRightSorted(InsertionSortRef(q), s[|s| - 1]);
    }
  }

  /** The reference sort is stable: each type's elements come out in input order. */
  lemma {:induction false} InsertionSortRefStable(s: seq<Componente>, t: string)
    ensures OfType(InsertionSortRef(s), t) == OfType(s, t)
  {
    if |s| > 0 {
      var q := s[..|s| - 1];
      var x := s[|s| - 1];
      InsertionSortRefStable(q, t);
      InsertRightStable(InsertionSortRef(q), x, t);
      assert [x][..0] == [];
    }
  }

  /** The sort makes at most `n(n-1)/2` comparisons. */
  lemma {:induction false} SortCountBound(s: seq<Componente>)
    ensures SortCount(s) <= Tri(|s|)
  {
    if |s| > 0 {
      var q := s[..|s| - 1];
      SortCountBound(q);
      InsertionSortRefLength(q);
      InsertCountBound(InsertionSortRef(q), s[|s| - 1]);
    }
  }

  /** An element whose type is not below the last one's is appended after one comparison. */
  lemma InsertRightAtEnd(p: seq<Componente>, x: Componente)
    requires |p| == 0 || Le(p[|p| - 1].tipo, x.tipo)
    ensures InsertRight(p, x) == p + [x]
    ensures InsertCount(p, x) == if |p| == 0 then 0 else 1
  {
  }

  /** On input already sorted by type nothing moves and each element after the first costs one comparison. */
  lemma {:induction false} InsertionSortRefSorted(s: seq<Componente>)
    requires SortedBy(s, TipoOf)
    ensures InsertionSortRef(s) == s
    ensures SortCount(s) == if |s| == 0 then 0 else |s| - 1
  {
    if |s| > 0 {
      var q := s[..|s| - 1];
      var x := s[|s| - 1];
      assert SortedBy(q, TipoOf);
      InsertionSortRefSorted(q);
      assert |q| == 0 || Le(q[|q| - 1].tipo, x.tipo);
      InsertRightAtEnd(q, x);
      assert InsertionSortRef(s) == InsertRight(q, x);
      assert SortCount(s) == SortCount(q) + InsertCount(q, x);
      Snoc(s);
    }
  }

  /** The sort makes at most `n(n-1)/2` comparisons, in closed form. */
  lemma SortCountQuadratic(s: seq<Componente>)
    ensures 2 * SortCount(s) <= |s| * (|s| - 1)
  {
    SortCountBound(s);
    TriClosedForm(|s|);
  }

  /** Everything the reference sort promises, in one place. */
  lemma InsertionSortRefFacts(s: seq<Componente>)
    ensures multiset(InsertionSortRef(s)) == multiset(s)
    ensures SortedBy(InsertionSortRef(s), TipoOf)
    ensures forall t :: OfType(InsertionSortRef(s), t) == OfType(s, t)
    ensures 2 * SortCount(s) <= |s| * (|s| - 1)
    ensures SortedBy(s, TipoOf) && |s| >= 1 ==> InsertionSortRef(s) == s && SortCount(s) == |s| - 1
  {
    InsertionSortRefPermutation(s);
    InsertionSortRefOrdered(s);
    forall t ensures OfType(InsertionSortRef(s), t) == OfType(s, t) {
      InsertionSortRefStable(s, t);
    }
    SortCountQuadratic(s);
    if SortedBy(s, TipoOf) {
      InsertionSortRefSorted(s);
    }
  }

  /** Growing the sorted prefix by one element is one reference insertion. */
  lemma PrefixStep(s: seq<Componente>, a: seq<Componente>, i: nat)
    requires i < |s| == |a|
    requires a[i..] == s[i..]
    ensures a[i] == s[i]
    ensures InsertionSortRef(s[..i + 1]) == InsertRight(InsertionSortRef(s[..i]), a[i])
    ensures SortCount(s[..i + 1]) == SortCount(s[..i]) + InsertCount(InsertionSortRef(s[..i]), a[i])
    ensures a[i + 1..] == s[i + 1..]
  {
    assert a[i] == a[i..][0];
    PrefixOfPrefix(s, i + 1, i);
  }

  /**
    The inner loop of `insertionSortTipo` for position `i`: `chave` moves
    left past the elements of greater type, which each shift one slot right.
    The prefix `a[..i + 1]` becomes the reference insertion, the rest of the
    array is untouched and the counter is the reference count.
   */
  method InsertAt(a0: seq<Componente>, i: nat) returns (a: seq<Componente>, comparacoes: nat)
    requires i < |a0|
    ensures |a| == |a0|
    ensures a[..i + 1] == InsertRight(a0[..i], a0[i])
    ensures a[i + 1..] == a0[i + 1..]
    ensures comparacoes == InsertCount(a0[..i], a0[i])
  {
    a := a0;
    var chave := a0[i];
    var j := i - 1;
    comparacoes := 0;
    while j >= 0 && Cmp(a[j].tipo, chave.tipo) > 0
      invariant ShiftInv(a0, a, i, j, comparacoes)
    {
      ShiftInvStep(a0, a, i, j, comparacoes);
      comparacoes := comparacoes + 1;
      a := a[j + 1 := a[j]];
      j := j - 1;
    }
    ShiftInvDone(a0, a, i, j, comparacoes);
    if j >= 0 {
      comparacoes := comparacoes + 1;
    }
    a := a[j + 1 := chave];
  }

  /**
    Between shifts of the inner loop: `a[..j + 1]` is still the original,
    `a0[j + 1..i]` sits one slot to the right, the rest is untouched, and the
    insertion and its count split at `j + 1` into the part still to search
    and the part already passed.
   */
  ghost predicate ShiftInv(a0: seq<Componente>, a: seq<Componente>, i: nat, j: int, comparacoes: nat)
  {
    && -1 <= j <= i - 1 && i < |a0| == |a|
    && (forall k :: 0 <= k <= j ==> a[k] == a0[k])
    && (forall k :: j + 1 <= k < i ==> a[k + 1] == a0[k])
    && (forall k :: i < k < |a| ==> a[k] == a0[k])
    && InsertRight(a0[..i], a0[i]) == InsertRight(a0[..j + 1], a0[i]) + a0[j + 1..i]
    && comparacoes + InsertCount(a0[..j + 1], a0[i]) == InsertCount(a0[..i], a0[i])
  }

  /** One shift keeps the inner-loop invariant, one position further left. */
  lemma ShiftInvStep(a0: seq<Componente>, a: seq<Componente>, i: nat, j: int, comparacoes: nat)
    requires ShiftInv(a0, a, i, j, comparacoes)
    requires j >= 0 && Cmp(a[j].tipo, a0[i].tipo) > 0
    ensures ShiftInv(a0, a[j + 1 := a[j]], i, j - 1, comparacoes + 1)
  {
    ShiftStep(a0, i, j, a0[i]);
    var b := a[j + 1 := a[j]];
    forall k | j <= k < i ensures b[k + 1] == a0[k] {
      if k == j {
        assert b[j + 1] == a[j] == a0[j];
      }
    }
  }

  /** When the shifting stops, writing `chave` into the gap gives the insertion and its count. */
  lemma ShiftInvDone(a0: seq<Componente>, a: seq<Componente>, i: nat, j: int, comparacoes: nat)
    requires ShiftInv(a0, a, i, j, comparacoes)
    requires j < 0 || Cmp(a[j].tipo, a0[i].tipo) <= 0
    ensures var b := a[j + 1 := a0[i]];
      && |b| == |a0|
      && b[..i + 1] == InsertRight(a0[..i], a0[i])
      && b[i + 1..] == a0[i + 1..]
      && comparacoes + (if j >= 0 then 1 else 0) == InsertCount(a0[..i], a0[i])
  {
    StopStep(a0, i, j, a0[i]);
    PlaceKey(a, a0, i, j, a0[i]);
  }

  /** Writing `chave` into the gap at `j + 1` completes the insertion. */
  lemma PlaceKey<T>(a: seq<T>, a0: seq<T>, i: nat, j: int, chave: T)
    requires -1 <= j < i < |a| == |a0|
    requires forall k :: 0 <= k <= j ==> a[k] == a0[k]
    requires forall k :: j + 1 <= k < i ==> a[k + 1] == a0[k]
    requires forall k :: i < k < |a| ==> a[k] == a0[k]
    ensures a[j + 1 := chave][..i + 1] == a0[..j + 1] + [chave] + a0[j + 1..i]
    ensures a[j + 1 := chave][i + 1..] == a0[i + 1..]
  {
    var c := a[j + 1 := chave];
    var e := a0[..j + 1] + [chave] + a0[j + 1..i];
    assert |c[..i + 1]| == |e|;
    forall k | 0 <= k <= i ensures c[k] == e[k] {
      if k > j + 1 {
        assert e[k] == a0[k - 1];
      }
    }
  }

  /** Shifting `a0[j]` right moves it from the prefix still to search into the tail already passed. */
  lemma ShiftStep(a0: seq<Componente>, i: nat, j: nat, x: Componente)
    requires j < i <= |a0|
    requires Cmp(a0[j].tipo, x.tipo) > 0
    ensures InsertRight(a0[..j + 1], x) + a0[j + 1..i] == InsertRight(a0[..j], x) + a0[j..i]
    ensures InsertCount(a0[..j + 1], x) == InsertCount(a0[..j], x) + 1
  {
    PrefixOfPrefix(a0, j + 1, j);
    SliceCons(a0, j, i);
  }

  /** Where the shifting stops, the insertion is the searched prefix, `x`, then the passed tail. */
  lemma StopStep(a0: seq<Componente>, i: nat, j: int, x: Componente)
    requires -1 <= j < i <= |a0|
    requires j >= 0 ==> Cmp(a0[j].tipo, x.tipo) <= 0
    ensures InsertRight(a0[..j + 1], x) == a0[..j + 1] + [x]
    ensures InsertCount(a0[..j + 1], x) == if j >= 0 then 1 else 0
  {
    if j >= 0 {
      assert a0[..j + 1][j] == a0[j];
    }
  }

  /**
    `insertionSortTipo` on the used prefix, step for step the reference
    sort: the array it leaves and the comparisons it counts are exactly
    those of `InsertionSortRef` and `SortCount`, so `InsertionSortRefFacts`
    describes its result.
   */
  method InsertionSortTipo(s: seq<Componente>) returns (a: seq<Componente>, comparacoes: nat)
    ensures a == InsertionSortRef(s)
    ensures comparacoes == SortCount(s)
  {
    a := s;
    comparacoes := 0;
    var i := if |s| == 0 then 0 else 1;
    assert s[..i] == InsertionSortRef(s[..i]);
    while i < |s|
      invariant |a| == |s| && 0 <= i <= |s| && (|s| > 0 ==> 1 <= i)
      invariant a[..i] == InsertionSortRef(s[..i])
      invariant a[i..] == s[i..]
      invariant comparacoes == SortCount(s[..i])
    {
      var c;
      PrefixStep(s, a, i);
      a, c := InsertAt(a, i);
      comparacoes := comparacoes + c;
      i := i + 1;
    }
    assert a[..|a|] == a && s[..|s|] == s;
  }
}
