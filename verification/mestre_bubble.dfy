/**
  `bubbleSortNome` of the advanced program (`mestre/mestre_Free_Fire.c`):
  bubble sort by name under `strcmp`, counting one comparison per adjacent
  pair examined and stopping after the first pass that swaps nothing.
 */
module BubbleSort {
  import opened StrOrder
  import opened Records
  import opened Counts

  /**
    One pass of the inner loop over pairs `(j, j + 1)` with `j < b`: the
    largest name of `a[..b + 1]` ends at `b`, the part after `b` is not
    touched, and the pass swaps iff some neighbouring pair of `a[..b + 1]`
    is out of order.
   */
  method BubblePass(a0: seq<Componente>, b: nat) returns (a: seq<Componente>, trocou: bool)
    requires b < |a0|
    requires PartitionedAt(a0, NomeOf, b + 1)
    ensures |a| == |a0| && multiset(a) == multiset(a0)
    ensures forall k :: b < k < |a| ==> a[k] == a0[k]
    ensures forall k :: 0 <= k <= b ==> Le(a[k].nome, a[b].nome)
    ensures PartitionedAt(a, NomeOf, b + 1)
    ensures !trocou <==> forall k :: 0 <= k < b ==> Le(a0[k].nome, a0[k + 1].nome)
    ensures !trocou ==> a == a0
  {
    a := a0;
    trocou := false;
    var j := 0;
    while j < b
      invariant PassInv(a0, a, b, j, trocou)
    {
      PassStep(a0, a, b, j, trocou);
      if Cmp(a[j].nome, a[j + 1].nome) > 0 {
        a := Trocar(a, j, j + 1);
        trocou := true;
      }
      j := j + 1;
    }
  }

  /** What holds after the first `j` comparisons of a pass with bound `b`. */
  ghost predicate PassInv(a0: seq<Componente>, a: seq<Componente>, b: nat, j: nat, trocou: bool) {
    && j <= b < |a0| && |a| == |a0|
    && multiset(a) == multiset(a0)
    && (forall k :: b < k < |a| ==> a[k] == a0[k])
    && (forall k :: 0 <= k <= j ==> Le(a[k].nome, a[j].nome))
    && PartitionedAt(a, NomeOf, b + 1)
    && (!trocou <==> forall k :: 0 <= k < j ==> Le(a0[k].nome, a0[k + 1].nome))
    && (!trocou ==> a == a0)
  }

  /** One comparison (and swap when the pair is out of order) keeps `PassInv`. */
  lemma PassStep(a0: seq<Componente>, a: seq<Componente>, b: nat, j: nat, trocou: bool)
    requires PassInv(a0, a, b, j, trocou) && j < b
    ensures Cmp(a[j].nome, a[j + 1].nome) > 0 ==>
      PassInv(a0, Trocar(a, j, j + 1), b, j + 1, true)
    ensures Cmp(a[j].nome, a[j + 1].nome) <= 0 ==> PassInv(a0, a, b, j + 1, trocou)
  {
    if Cmp(a[j].nome, a[j + 1].nome) > 0 {
      SwapKeepsBubble(a, a0, b, j);
      assert !trocou ==> !Le(a0[j].nome, a0[j + 1].nome);
    } else {
      NoSwapKeepsBubble(a, j);
    }
  }

  /** Swapping an out-of-order pair `(j, j + 1)` carries the largest name so far to `j + 1`. */
  lemma SwapKeepsBubble(a: seq<Componente>, a0: seq<Componente>, b: nat, j: nat)
    requires j < b < |a| == |a0|
    requires forall k :: b < k < |a| ==> a[k] == a0[k]
    requires forall k :: 0 <= k <= j ==> Le(a[k].nome, a[j].nome)
    requires PartitionedAt(a, NomeOf, b + 1)
    requires Cmp(a[j].nome, a[j + 1].nome) > 0
    ensures var c := Trocar(a, j, j + 1);
      && multiset(c) == multiset(a)
      && (forall k :: b < k < |c| ==> c[k] == a0[k])
      && (forall k :: 0 <= k <= j + 1 ==> Le(c[k].nome, c[j + 1].nome))
      && PartitionedAt(c, NomeOf, b + 1)
  {
    CmpAntisymmetric(a[j].nome, a[j + 1].nome);
    var c := Trocar(a, j, j + 1);
    forall p, q | 0 <= p < b + 1 <= q < |c| ensures Le(c[p].nome, c[q].nome) {
      assert c[p] == a[p] || c[p] == a[j] || c[p] == a[j + 1];
    }
  }

  /** A pair already in order leaves the largest name so far at `j + 1`. */
  lemma NoSwapKeepsBubble(a: seq<Componente>, j: nat)
    requires j + 1 < |a|
    requires forall k :: 0 <= k <= j ==> Le(a[k].nome, a[j].nome)
    requires Cmp(a[j].nome, a[j + 1].nome) <= 0
    ensures forall k :: 0 <= k <= j + 1 ==> Le(a[k].nome, a[j + 1].nome)
  {
    forall k | 0 <= k < j ensures Le(a[k].nome, a[j + 1].nome) {
      CmpTransitive(a[k].nome, a[j].nome, a[j + 1].nome);
    }
  }

  /** After the pass with bound `b` the sorted, partitioned suffix starts one earlier. */
  lemma BubbleStep(a: seq<Componente>, b: nat)
    requires b < |a|
    requires SortedRange(a, NomeOf, b + 1, |a|) && PartitionedAt(a, NomeOf, b + 1)
    requires forall k :: 0 <= k <= b ==> Le(a[k].nome, a[b].nome)
    ensures SortedRange(a, NomeOf, b, |a|) && PartitionedAt(a, NomeOf, b)
  {
  }

  /**
    `bubbleSortNome` on the used prefix: the result is a permutation sorted
    by name; the counter is at most `n(n-1)/2`, and on input already sorted
    by name the first pass swaps nothing, so the result is the input and the
    counter is `n - 1`.
   */
  method BubbleSortNome(s: seq<Componente>) returns (a: seq<Componente>, comparacoes: nat)
    ensures multiset(a) == multiset(s)
    ensures SortedBy(a, NomeOf)
    ensures 2 * comparacoes <= |s| * (|s| - 1)
    ensures SortedBy(s, NomeOf) && |s| >= 1 ==> a == s && comparacoes == |s| - 1
  {
    var n := |s|;
    a := s;
    comparacoes := 0;
    var trocas := true;
    var i := 0;
    while i < n - 1 && trocas
      invariant n >= 1 ==> 0 <= i <= n - 1
      invariant n == 0 ==> i == 0
      invariant i == 0 ==> trocas
      invariant |a| == n && multiset(a) == multiset(s)
      invariant SortedRange(a, NomeOf, n - i, n) && PartitionedAt(a, NomeOf, n - i)
      invariant !trocas ==> SortedBy(a, NomeOf)
      invariant comparacoes + Tri(n - i) == Tri(n)
      invariant SortedBy(s, NomeOf) ==> a == s && (i > 0 ==> !trocas && comparacoes == n - 1)
    {
      var b := n - i - 1;
      var trocou;
      a, trocou := BubblePass(a, b);
      BubbleStep(a, b);
      if !trocou {
        AdjacentToSorted(a, NomeOf, b + 1);
        SortedFromParts(a, NomeOf, b + 1);
      }
      trocas := trocou;
      comparacoes := comparacoes + b;
      i := i + 1;
    }
    if trocas && n > 0 {
      SortedFromParts(a, NomeOf, 1);
    }
    TriClosedForm(n);
  }
}
