/**
  `selectionSortPrioridade` of the advanced program
  (`mestre/mestre_Free_Fire.c`): selection sort into non-increasing
  priority. Each round picks the first component of greatest priority in
  the unsorted part (a later one wins only when strictly greater) and swaps
  it to the front of that part; every round compares against every
  remaining element.
 */
module SelectionSort {
  import opened Records
  import opened Counts

  /** Non-increasing priority. */
  predicate SortedDesc(s: seq<Componente>) {
    forall i, j :: 0 <= i < j < |s| ==> s[i].prioridade >= s[j].prioridade
  }

  /** `s[..i]` is non-increasing and no element before `i` has lower priority than one from `i` on. */
  predicate DescPrefix(s: seq<Componente>, i: int)
    requires 0 <= i <= |s|
  {
    && (forall p, q :: 0 <= p < q < i ==> s[p].prioridade >= s[q].prioridade)
    && (forall p, q :: 0 <= p < i <= q < |s| ==> s[p].prioridade >= s[q].prioridade)
  }

  /**
    The inner loop for round `i`: the index of the first component of
    greatest priority in `a[i..]`, after `|a| - i - 1` comparisons.
   */
  method FirstMaximum(a: seq<Componente>, i: nat) returns (maiorIndice: nat, comparacoes: nat)
    requires i < |a|
    ensures i <= maiorIndice < |a|
    ensures forall k :: i <= k < |a| ==> a[k].prioridade <= a[maiorIndice].prioridade
    ensures forall k :: i <= k < maiorIndice ==> a[k].prioridade < a[maiorIndice].prioridade
    ensures comparacoes == |a| - i - 1
  {
    maiorIndice := i;
    comparacoes := 0;
    var j := i + 1;
    while j < |a|
      invariant i < j <= |a|
      invariant i <= maiorIndice < j
      invariant forall k :: i <= k < j ==> a[k].prioridade <= a[maiorIndice].prioridade
      invariant forall k :: i <= k < maiorIndice ==> a[k].prioridade < a[maiorIndice].prioridade
      invariant comparacoes == j - i - 1
    {
      comparacoes := comparacoes + 1;
      if a[j].prioridade > a[maiorIndice].prioridade {
        maiorIndice := j;
      }
      j := j + 1;
    }
  }

  /** Swapping the greatest remaining priority into position `i` extends the sorted prefix. */
  lemma SelectionStep(a: seq<Componente>, i: nat, m: nat)
    requires i <= m < |a|
    requires DescPrefix(a, i)
    requires forall k :: i <= k < |a| ==> a[k].prioridade <= a[m].prioridade
    ensures DescPrefix(Trocar(a, i, m), i + 1)
    ensures (forall k :: i <= k < m ==> a[k].prioridade < a[m].prioridade) && DescPrefix(a, |a|) ==> m == i
  {
    var b := Trocar(a, i, m);
    forall p, q | 0 <= p <= i < q < |b| ensures b[p].prioridade >= b[q].prioridade {
      assert b[q] == a[q] || b[q] == a[i];
    }
  }

  /** What holds of the array between rounds of `selectionSortPrioridade` started on `s`. */
  ghost predicate RoundInv(s: seq<Componente>, a: seq<Componente>, i: int) {
    && 0 <= i <= |a| == |s|
    && multiset(a) == multiset(s)
    && DescPrefix(a, i)
    && (SortedDesc(s) ==> a == s && DescPrefix(a, |a|))
  }

  /** One round (swap only when the maximum is elsewhere) keeps the invariant one position further. */
  lemma RoundStep(s: seq<Componente>, a: seq<Componente>, i: nat, m: nat)
    requires RoundInv(s, a, i) && i <= m < |a|
    requires forall k :: i <= k < |a| ==> a[k].prioridade <= a[m].prioridade
    requires forall k :: i <= k < m ==> a[k].prioridade < a[m].prioridade
    ensures RoundInv(s, if m != i then Trocar(a, i, m) else a, i + 1)
  {
    SelectionStep(a, i, m);
    if m == i {
      assert Trocar(a, i, m) == a;
    }
  }

  /**
    `selectionSortPrioridade` on the used prefix: a permutation in
    non-increasing priority after exactly `n(n-1)/2` comparisons, whatever
    the input; input already in that order comes back unchanged, because a
    swap needs a strictly greater priority.
   */
  method SelectionSortPrioridade(s: seq<Componente>) returns (a: seq<Componente>, comparacoes: nat)
    ensures multiset(a) == multiset(s)
    ensures SortedDesc(a)
    ensures 2 * comparacoes == |s| * (|s| - 1)
    ensures SortedDesc(s) ==> a == s
  {
    var n := |s|;
    a := s;
    comparacoes := 0;
    var i := 0;
    while i < n - 1
      invariant n > 0 ==> i <= n - 1
      invariant RoundInv(s, a, i)
      invariant comparacoes + Tri(n - i) == Tri(n)
    {
      var maiorIndice, c := FirstMaximum(a, i);
      RoundStep(s, a, i, maiorIndice);
      if maiorIndice != i {
        a := Trocar(a, i, maiorIndice);
      }
      comparacoes := comparacoes + c;
      i := i + 1;
    }
    TriClosedForm(n);
    assert DescPrefix(a, i);
  }
}
