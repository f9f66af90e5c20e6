/**
  The array half of the intermediate program
  (`aventureiro/aventureiro_free_fire.c`): a backpack of at most `MAX_ITENS`
  items in an array with a count, insert and remove returning 1 or 0,
  sequential search with a comparison counter, selection sort by name, and
  binary search by name with a probe counter.
 */
module AventureiroVetor {
  import opened StrOrder
  import opened Records
  import opened FixedArray
  import opened Searching

  const MAX_ITENS: nat := 10

  type Mochila = Store<Item>

  predicate Valid(m: Mochila) {
    m.Valid(MAX_ITENS)
  }

  /**
    `inserirItemVetor`: returns false and changes nothing when the array is
    full; otherwise the item lands in slot `totalItensVetor`, earlier slots
    keep their records and the count grows by one.
   */
  function InserirItemVetor(m: Mochila, nome: string, tipo: string, quantidade: int): (r: Effect<Mochila, bool>)
    requires Valid(m)
    ensures Valid(r.state)
    ensures r.outcome <==> m.total < MAX_ITENS
    ensures !r.outcome ==> r.state == m
    ensures r.outcome ==> r.state.total == m.total + 1 && r.state.slots[m.total] == Item(nome, tipo, quantidade)
    ensures r.outcome ==> r.state.Contents() == m.Contents() + [Item(nome, tipo, quantidade)]
  {
    if m.total >= MAX_ITENS then Effect(m, false)
    else Effect(Commit(WriteNext(m, Item(nome, tipo, quantidade))), true)
  }

  datatype AddOutcome = Added | BackpackFull | InvalidQuantity

  /**
    Option 1 of `menuVetor`: the menu refuses a full backpack and a
    non-positive quantity before it calls `inserirItemVetor`; a refusal
    leaves the array untouched.
   */
  function MenuAdicionarVetor(m: Mochila, nome: string, tipo: string, quantidade: int): (r: Effect<Mochila, AddOutcome>)
    requires Valid(m)
    ensures Valid(r.state)
    ensures r.outcome == BackpackFull <==> m.total >= MAX_ITENS
    ensures r.outcome == Added <==> m.total < MAX_ITENS && quantidade > 0
    ensures r.outcome != Added ==> r.state == m
    ensures r.outcome == Added ==> r.state.Contents() == m.Contents() + [Item(nome, tipo, quantidade)]
  {
    if m.total >= MAX_ITENS then Effect(m, BackpackFull)
    else if quantidade <= 0 then Effect(m, InvalidQuantity)
    else
      var Effect(m', ok) := InserirItemVetor(m, nome, tipo, quantidade);
      Effect(m', if ok then Added else BackpackFull)
  }

  /**
    `removerItemVetor`: false with the array unchanged exactly when no item
    has the name; otherwise the first such item goes, the order of the rest
    is kept and the count drops by one.
   */
  method RemoverItemVetor(m: Mochila, nome: string) returns (r: Mochila, ok: bool)
    requires Valid(m)
    ensures Valid(r)
    ensures ok <==> HasName(m.Contents(), NameOf, nome)
    ensures !ok ==> r == m
    ensures ok ==> r.total == m.total - 1
    ensures ok ==> exists k :: IsFirstMatch(m.Contents(), NameOf, nome, k)
                              && r.Contents() == m.Contents()[..k] + m.Contents()[k + 1..]
    ensures r.Contents() == RemoveFirst(m.Contents(), NameOf, nome)
  {
    var k;
    r, k := RemoveByName(m, NameOf, nome);
    ok := k != -1;
  }

  /**
    `buscarSequencialVetor`: the index of the first item with that name, or
    -1; the counter is that index plus one, or `totalItensVetor` on a miss.
   */
  method BuscarSequencialVetor(m: Mochila, nome: string) returns (indice: int, comparacoes: nat)
    requires Valid(m)
    ensures indice == -1 <==> !HasName(m.Contents(), NameOf, nome)
    ensures indice != -1 ==> IsFirstMatch(m.Contents(), NameOf, nome, indice)
    ensures comparacoes == if indice == -1 then m.total else indice + 1
  {
    indice, comparacoes := SequentialSearch(m.Contents(), NameOf, nome);
  }

  /**
    The inner loop of `ordenarVetor`: the index of the first strictly
    smallest name in `a[i..]` (a later name replaces the candidate only when
    `strcmp` says it is smaller).
   */
  method FirstMinimum(a: seq<Item>, i: nat) returns (menorIndice: nat)
    requires i < |a|
    ensures i <= menorIndice < |a|
    ensures forall k :: i <= k < |a| ==> Le(a[menorIndice].nome, a[k].nome)
    ensures forall k :: i <= k < menorIndice ==> Lt(a[menorIndice].nome, a[k].nome)
  {
    menorIndice := i;
    var j := i + 1;
    while j < |a|
      invariant i < j <= |a|
      invariant i <= menorIndice < j
      invariant forall k :: i <= k < j ==> Le(a[menorIndice].nome, a[k].nome)
      invariant forall k :: i <= k < menorIndice ==> Lt(a[menorIndice].nome, a[k].nome)
    {
      if Cmp(a[j].nome, a[menorIndice].nome) < 0 {
        forall k | i <= k < j ensures Lt(a[j].nome, a[k].nome) {
          CmpTransitive(a[j].nome, a[menorIndice].nome, a[k].nome);
        }
        menorIndice := j;
      } else {
        NotLtIsGe(a[j].nome, a[menorIndice].nome);
      }
      j := j + 1;
    }
  }

  /** Swapping the minimum of `a[i..]` into position `i` extends the sorted, partitioned prefix. */
  lemma SelectionStep(a: seq<Item>, i: nat, m: nat)
    requires i <= m < |a|
    requires SortedRange(a, NameOf, 0, i) && PartitionedAt(a, NameOf, i)
    requires forall k :: i <= k < |a| ==> Le(a[m].nome, a[k].nome)
    ensures var b := a[i := a[m]][m := a[i]];
      && multiset(b) == multiset(a)
      && SortedRange(b, NameOf, 0, i + 1) && PartitionedAt(b, NameOf, i + 1)
  {
    var b := a[i := a[m]][m := a[i]];
    forall p, q | 0 <= p <= i < q < |b| ensures Le(b[p].nome, b[q].nome) {
      assert b[q] == a[q] || b[q] == a[i];
    }
  }

  /**
    Selection sort ascending by name under `strcmp`, as `ordenarVetor` runs
    it: the result is a name-sorted permutation, and sorted input comes back
    unchanged because a swap needs a strictly smaller name.
   */
  method SelectionSortByName(s: seq<Item>) returns (a: seq<Item>)
    ensures multiset(a) == multiset(s)
    ensures SortedBy(a, NameOf)
    ensures SortedBy(s, NameOf) ==> a == s
  {
    a := s;
    var n := |s|;
    var i := 0;
    while i < n - 1
      invariant 0 <= i <= n
      invariant n > 0 ==> i <= n - 1
      invariant |a| == n
      invariant multiset(a) == multiset(s)
      invariant SortedRange(a, NameOf, 0, i) && PartitionedAt(a, NameOf, i)
      invariant SortedBy(s, NameOf) ==> a == s
    {
      var menorIndice := FirstMinimum(a, i);
      if SortedBy(s, NameOf) && menorIndice != i {
        CmpAntisymmetric(a[i].nome, a[menorIndice].nome);
      }
      SelectionStep(a, i, menorIndice);
      if menorIndice != i {
        a := a[i := a[menorIndice]][menorIndice := a[i]];
      }
      i := i + 1;
    }
  }

  /**
    `ordenarVetor`: sorts the used prefix of the array by name in place;
    the count and the unused slots are untouched.
   */
  method OrdenarVetor(m: Mochila) returns (r: Mochila)
    requires Valid(m)
    ensures Valid(r)
    ensures r.total == m.total
    ensures multiset(r.Contents()) == multiset(m.Contents())
    ensures SortedBy(r.Contents(), NameOf)
    ensures r.slots[r.total..] == m.slots[m.total..]
    ensures SortedBy(m.Contents(), NameOf) ==> r == m
  {
    var sorted := SelectionSortByName(m.Contents());
    r := WithContents(m, sorted);
  }

  /**
    `buscarBinariaVetor`: a found index holds the name and lies inside the
    used prefix, whatever the order of the array; when the array is sorted
    by name (the precondition the program states but does not check), -1
    means no item has the name. The counter stays within
    `1 + floor(log2 totalItensVetor)` either way.
   */
  method BuscarBinariaVetor(m: Mochila, nome: string) returns (indice: int, comparacoes: nat)
    requires Valid(m)
    ensures -1 <= indice < m.total
    ensures indice >= 0 ==> m.slots[indice].nome == nome
    ensures SortedBy(m.Contents(), NameOf) ==> (indice == -1 <==> !HasName(m.Contents(), NameOf, nome))
    ensures comparacoes <= MaxProbes(m.total)
  {
    var c := m.Contents();
    indice, comparacoes := BinarySearch(c, NameOf, nome);
    BinarySearchFacts(c, NameOf, nome);
    if indice >= 0 {
      assert c[indice] == m.slots[indice];
    }
  }

  /**
    The "theoretical maximum" of option 7 of `menuVetor`: start at one and
    add one per halving of the count down to 1. For a non-empty array this
    is `1 + floor(log2 n)`, the bound `BuscarBinariaVetor` keeps.
   */
  method ComparacoesTeoricas(n: int) returns (t: int)
    ensures n <= 1 ==> t == 1
    ensures n >= 1 ==> t == MaxProbes(n)
    ensures n >= 1 ==> Pow2(t - 1) <= n < Pow2(t)
  {
    t := 1;
    var temp := n;
    while temp > 1
      invariant n < 1 ==> temp == n && t == 1
      invariant n >= 1 ==> temp >= 1 && t - 1 + MaxProbes(temp) == MaxProbes(n)
      decreases temp
    {
      temp := temp / 2;
      t := t + 1;
    }
    if n >= 1 {
      MaxProbesIsLog(n);
    }
  }

  /**
    Adding an item under a fresh name through the menu and then removing
    that name gives back the original contents.
   */
  lemma AddThenRemove(m: Mochila, nome: string, tipo: string, quantidade: int)
    requires Valid(m) && m.total < MAX_ITENS && quantidade > 0
    requires !HasName(m.Contents(), NameOf, nome)
    ensures RemoveFirst(MenuAdicionarVetor(m, nome, tipo, quantidade).state.Contents(), NameOf, nome) == m.Contents()
  {
    AppendThenRemove(m.Contents(), Item(nome, tipo, quantidade), NameOf);
  }
}
