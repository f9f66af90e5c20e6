/**
  The tower of the advanced program (`mestre/mestre_Free_Fire.c`): at most
  `MAX_COMPONENTES` components in a global array with a count, three
  "sorted by" flags, the three instrumented sorts reached from the sorting
  menu, binary search by name gated by the name flag, and the side-by-side
  comparison that sorts copies only.
 */
module Mestre {
  import opened StrOrder
  import opened Records
  import opened FixedArray
  import opened Searching
  import opened BubbleSort
  import opened InsertionSort
  import opened SelectionSort
  import V = AventureiroVetor

  const MAX_COMPONENTES: nat := 20

  /** `ordenadoPorNome`, `ordenadoPorTipo`, `ordenadoPorPrioridade` */
  datatype Flags = Flags(porNome: bool, porTipo: bool, porPrioridade: bool)

  const NoFlags := Flags(false, false, false)

  datatype Torre = Torre(componentes: Store<Componente>, flags: Flags)
  {
    /** `0 <= totalComponentes <= MAX_COMPONENTES` over an array of `MAX_COMPONENTES` slots. */
    predicate Valid() {
      componentes.Valid(MAX_COMPONENTES)
    }

    function Total(): nat {
      componentes.total
    }

    /** `torre[0..totalComponentes)` */
    function Contents(): seq<Componente>
      requires Valid()
    {
      componentes.Contents()
    }
  }

  /** The tower at program start: zeroed slots, no components, no flag set. */
  function Initial(): (t: Torre)
    ensures t.Valid() && t.Contents() == [] && t.flags == NoFlags
  {
    Torre(Store(seq(MAX_COMPONENTES, _ => EmptyComponente), 0), NoFlags)
  }

  /** Each flag that is set tells the truth about the order of the tower. */
  ghost predicate FlagsSound(t: Torre)
    requires t.Valid()
  {
    && (t.flags.porNome ==> SortedBy(t.Contents(), NomeOf))
    && (t.flags.porTipo ==> SortedBy(t.Contents(), TipoOf))
    && (t.flags.porPrioridade ==> SortedDesc(t.Contents()))
  }

  datatype AddOutcome = Added | TowerFull | InvalidPriority | InvalidQuantity

  /**
    `adicionarComponente`: a full tower is refused untouched; otherwise the
    fields are written into the next free slot, the priority (1 to 10) is
    checked first and then the quantity, and only a component passing both
    is counted, which clears the three flags. A refused component leaves the
    visible components, the count and the flags as they were.
   */
  function AdicionarComponente(t: Torre, nome: string, tipo: string, prioridade: int, quantidade: int): (r: Effect<Torre, AddOutcome>)
    requires t.Valid()
    ensures r.state.Valid()
    ensures r.outcome == TowerFull <==> t.Total() >= MAX_COMPONENTES
    ensures r.outcome == InvalidPriority <==> t.Total() < MAX_COMPONENTES && !(1 <= prioridade <= 10)
    ensures r.outcome == Added <==> t.Total() < MAX_COMPONENTES && 1 <= prioridade <= 10 && quantidade > 0
    ensures r.outcome == Added ==> r.state.Contents() == t.Contents() + [Componente(nome, tipo, prioridade, quantidade)]
    ensures r.outcome == Added ==> r.state.flags == NoFlags
    ensures r.outcome != Added ==> r.state.Total() == t.Total() && r.state.Contents() == t.Contents() && r.state.flags == t.flags
    ensures r.outcome == TowerFull ==> r.state == t
  {
    if t.Total() >= MAX_COMPONENTES then Effect(t, TowerFull)
    else
      var w := WriteNext(t.componentes, Componente(nome, tipo, prioridade, quantidade));
      if prioridade < 1 || prioridade > 10 then Effect(Torre(w, t.flags), InvalidPriority)
      else if quantidade <= 0 then Effect(Torre(w, t.flags), InvalidQuantity)
      else Effect(Torre(Commit(w), NoFlags), Added)
  }

  datatype RemoveOutcome = TowerEmpty | NotFound | Removed

  /**
    `removerComponente`: nothing on an empty tower; otherwise the first
    component with the name is removed by shifting the later ones left, the
    count drops by one and the flags are cleared. With no match the tower,
    flags included, is unchanged.
   */
  method RemoverComponente(t: Torre, nome: string) returns (r: Torre, o: RemoveOutcome)
    requires t.Valid()
    ensures r.Valid()
    ensures o == TowerEmpty <==> t.Total() == 0
    ensures o == Removed <==> HasName(t.Contents(), NomeOf, nome)
    ensures o != Removed ==> r == t
    ensures o == Removed ==> r.Total() == t.Total() - 1 && r.flags == NoFlags
    ensures r.Contents() == RemoveFirst(t.Contents(), NomeOf, nome)
    ensures FlagsSound(t) ==> FlagsSound(r)
  {
    if t.Total() == 0 {
      return t, TowerEmpty;
    }
    var c, k := RemoveByName(t.componentes, NomeOf, nome);
    if k == -1 {
      return t, NotFound;
    }
    r, o := Torre(c, NoFlags), Removed;
  }

  /**
    Option 1 of the sorting menu: on a non-empty tower `bubbleSortNome`
    sorts the components by name and sets the name flag; the other two
    flags keep whatever value they had.
   */
  method OrdenarPorNome(t: Torre) returns (r: Torre, comparacoes: nat)
    requires t.Valid()
    ensures r.Valid() && r.Total() == t.Total()
    ensures t.Total() == 0 ==> r == t && comparacoes == 0
    ensures t.Total() > 0 ==> r.flags == t.flags.(porNome := true)
    ensures multiset(r.Contents()) == multiset(t.Contents())
    ensures SortedBy(r.Contents(), NomeOf)
    ensures r.componentes.slots[r.Total()..] == t.componentes.slots[t.Total()..]
    ensures 2 * comparacoes <= t.Total() * (t.Total() - 1)
    ensures SortedBy(t.Contents(), NomeOf) && t.Total() > 0 ==>
      r.componentes == t.componentes && comparacoes == t.Total() - 1
  {
    if t.Total() == 0 {
      return t, 0;
    }
    var a;
    a, comparacoes := BubbleSortNome(t.Contents());
    r := Torre(WithContents(t.componentes, a), t.flags.(porNome := true));
  }

  /**
    Option 2 of the sorting menu: on a non-empty tower `insertionSortTipo`
    sorts the components by type, stably, and sets the type flag; the name
    and priority flags keep whatever value they had.
   */
  method OrdenarPorTipo(t: Torre) returns (r: Torre, comparacoes: nat)
    requires t.Valid()
    ensures r.Valid() && r.Total() == t.Total()
    ensures t.Total() == 0 ==> r == t && comparacoes == 0
    ensures t.Total() > 0 ==> r.flags == t.flags.(porTipo := true)
    ensures multiset(r.Contents()) == multiset(t.Contents())
    ensures SortedBy(r.Contents(), TipoOf)
    ensures forall tipo :: OfType(r.Contents(), tipo) == OfType(t.Contents(), tipo)
    ensures r.componentes.slots[r.Total()..] == t.componentes.slots[t.Total()..]
    ensures 2 * comparacoes <= t.Total() * (t.Total() - 1)
    ensures SortedBy(t.Contents(), TipoOf) && t.Total() > 0 ==>
      r.componentes == t.componentes && comparacoes == t.Total() - 1
    ensures r.Contents() == InsertionSortRef(t.Contents())
  {
    if t.Total() == 0 {
      return t, 0;
    }
    var a;
    a, comparacoes := InsertionSortTipo(t.Contents());
    InsertionSortRefFacts(t.Contents());
    r := Torre(WithContents(t.componentes, a), t.flags.(porTipo := true));
  }

  /**
    Option 3 of the sorting menu: on a non-empty tower
    `selectionSortPrioridade` puts the components in non-increasing priority
    after exactly `n(n-1)/2` comparisons and sets the priority flag; the
    name and type flags keep whatever value they had.
   */
  method OrdenarPorPrioridade(t: Torre) returns (r: Torre, comparacoes: nat)
    requires t.Valid()
    ensures r.Valid() && r.Total() == t.Total()
    ensures t.Total() == 0 ==> r == t && comparacoes == 0
    ensures t.Total() > 0 ==> r.flags == t.flags.(porPrioridade := true)
    ensures multiset(r.Contents()) == multiset(t.Contents())
    ensures SortedDesc(r.Contents())
    ensures r.componentes.slots[r.Total()..] == t.componentes.slots[t.Total()..]
    ensures 2 * comparacoes == t.Total() * (t.Total() - 1)
    ensures SortedDesc(t.Contents()) ==> r.componentes == t.componentes
  {
    if t.Total() == 0 {
      return t, 0;
    }
    var a;
    a, comparacoes := SelectionSortPrioridade(t.Contents());
    r := Torre(WithContents(t.componentes, a), t.flags.(porPrioridade := true));
  }

  datatype SearchOutcome = EmptyTower | NotSortedByName | Searched(encontrado: int, comparacoes: nat)

  /**
    `buscaBinariaPorNome`: no search on an empty tower or while the name
    flag is clear; otherwise binary search by name over the components. A
    found index holds the name; when the components really are sorted by
    name, and in particular whenever the flags are sound, -1 means the name
    is absent. The counter stays within `1 + floor(log2 n)`.
   */
  method BuscaBinariaPorNome(t: Torre, nome: string) returns (o: SearchOutcome)
    requires t.Valid()
    ensures o == EmptyTower <==> t.Total() == 0
    ensures o == NotSortedByName <==> t.Total() > 0 && !t.flags.porNome
    ensures o.Searched? ==> -1 <= o.encontrado < t.Total()
    ensures o.Searched? && o.encontrado >= 0 ==> t.componentes.slots[o.encontrado].nome == nome
    ensures o.Searched? ==> 1 <= o.comparacoes <= MaxProbes(t.Total())
    ensures o.Searched? && SortedBy(t.Contents(), NomeOf) ==>
      (o.encontrado == -1 <==> !HasName(t.Contents(), NomeOf, nome))
    ensures o.Searched? && FlagsSound(t) ==> (o.encontrado == -1 <==> !HasName(t.Contents(), NomeOf, nome))
    ensures o.Searched? ==> Probe(o.encontrado, o.comparacoes) == BinarySearchFrom(t.Contents(), NomeOf, nome, 0, t.Total() - 1)
  {
    if t.Total() == 0 {
      return EmptyTower;
    }
    if !t.flags.porNome {
      return NotSortedByName;
    }
    var c := t.Contents();
    var encontrado, comparacoes := BinarySearch(c, NomeOf, nome);
    BinarySearchFacts(c, NomeOf, nome);
    if encontrado >= 0 {
      assert c[encontrado] == t.componentes.slots[encontrado];
    }
    if FlagsSound(t) {
      assert SortedBy(c, NomeOf);
    }
    o := Searched(encontrado, comparacoes);
  }

  /**
    The "theoretical maximum" that `buscaBinariaPorNome` prints: start at
    zero and add one per halving of the count down to 1, which gives
    `floor(log2 n)`, one less than the number of probes the search can make.
   */
  method ComparacoesTeoricasMestre(n: int) returns (t: int)
    ensures n <= 1 ==> t == 0
    ensures n >= 1 ==> t == MaxProbes(n) - 1
    ensures n >= 1 ==> Pow2(t) <= n < Pow2(t + 1)
  {
    t := 0;
    var temp := n;
    while temp > 1
      invariant n < 1 ==> temp == n && t == 0
      invariant n >= 1 ==> temp >= 1 && t + MaxProbes(temp) == MaxProbes(n)
      decreases temp
    {
      temp := temp / 2;
      t := t + 1;
    }
    if n >= 1 {
      MaxProbesIsLog(n);
    }
  }

  /**
    For every non-empty tower there is a name whose search makes
    `1 + floor(log2 n)` probes, one more than the printed maximum: any name
    greater than all the names present.
   */
  lemma TheoreticalMaxExceeded(a: seq<Componente>, nome: string)
    requires |a| >= 1
    requires forall k :: 0 <= k < |a| ==> Lt(a[k].nome, nome)
    ensures BinarySearchFrom(a, NomeOf, nome, 0, |a| - 1).probes == MaxProbes(|a|)
    ensures MaxProbes(|a|) >= 1
  {
    BinarySearchFromTight(a, NomeOf, nome, 0, |a| - 1);
    MaxProbesIsLog(|a|);
  }

  /**
    The search of `buscaBinariaPorNome` and the maximum it prints, side by
    side, for a name greater than every name present: the search makes one
    comparison more than the printed maximum allows.
   */
  method PrintedMaxTooLow(t: Torre, nome: string) returns (impresso: int, comparacoes: nat)
    requires t.Valid() && t.Total() >= 1 && t.flags.porNome
    requires forall k :: 0 <= k < t.Total() ==> Lt(t.componentes.slots[k].nome, nome)
    ensures comparacoes == impresso + 1
    ensures comparacoes == MaxProbes(t.Total())
  {
    var c := t.Contents();
    assert forall k :: 0 <= k < |c| ==> c[k] == t.componentes.slots[k];
    TheoreticalMaxExceeded(c, nome);
    var o := BuscaBinariaPorNome(t, nome);
    comparacoes := o.comparacoes;
    impresso := ComparacoesTeoricasMestre(t.Total());
  }

  /**
    `buscaBinariaPorNome` with the maximum computed as the intermediate
    program computes it (the halving loop started at 1): whenever a search
    runs, its comparisons never exceed the maximum reported beside them.
   */
  method BuscaBinariaComMaximo(t: Torre, nome: string) returns (o: SearchOutcome, maximo: int)
    requires t.Valid()
    ensures o == EmptyTower <==> t.Total() == 0
    ensures o == NotSortedByName <==> t.Total() > 0 && !t.flags.porNome
    ensures o.Searched? ==> 1 <= o.comparacoes <= maximo
    ensures t.Total() >= 1 ==> maximo == MaxProbes(t.Total())
  {
    o := BuscaBinariaPorNome(t, nome);
    maximo := V.ComparacoesTeoricas(t.Total());
  }

  /** `copiarComponentes`: a fresh copy of the `totalComponentes` components in use. */
  method CopiarComponentes(t: Torre) returns (copia: seq<Componente>)
    requires t.Valid()
    ensures copia == t.Contents()
  {
    copia := [];
    var i := 0;
    while i < t.Total()
      invariant 0 <= i <= t.Total()
      invariant copia == t.componentes.slots[..i]
    {
      copia := copia + [t.componentes.slots[i]];
      i := i + 1;
    }
  }

  datatype CompareOutcome = NothingToCompare | Compared(bubble: nat, insertion: nat, selection: nat)

  /**
    Option 4 of the sorting menu: each of the three sorts runs on its own
    copy of the components and only the comparison counts come back. The
    tower is taken by value and nothing is returned for it: its components,
    count and flags stay as they were by construction, not by proof.
   */
  method CompararAlgoritmos(t: Torre) returns (o: CompareOutcome)
    requires t.Valid()
    ensures o == NothingToCompare <==> t.Total() == 0
    ensures o.Compared? ==> 2 * o.bubble <= t.Total() * (t.Total() - 1)
    ensures o.Compared? && SortedBy(t.Contents(), NomeOf) ==> o.bubble == t.Total() - 1
    ensures o.Compared? ==> o.insertion == SortCount(t.Contents())
    ensures o.Compared? ==> 2 * o.selection == t.Total() * (t.Total() - 1)
  {
    if t.Total() == 0 {
      return NothingToCompare;
    }
    var n := t.Total();
    var copia1 := CopiarComponentes(t);
    var copia2 := CopiarComponentes(t);
    var copia3 := CopiarComponentes(t);
    var _, bubble := BubbleSortNome(copia1);
    assert 2 * bubble <= n * (n - 1);
    assert SortedBy(t.Contents(), NomeOf) ==> bubble == n - 1;
    var _, insertion := InsertionSortTipo(copia2);
    assert insertion == SortCount(t.Contents());
    var _, selection := SelectionSortPrioridade(copia3);
    assert 2 * selection == n * (n - 1);
    o := Compared(bubble, insertion, selection);
  }

  datatype SortKey = ByName | ByType | ByPriority

  /**
    The flag update the sorting menu evidently intends: the key just sorted
    on is set and the other two are cleared, since sorting on one key
    generally destroys the order on the others.
   */
  function FlagsAfterSort(k: SortKey): Flags
  {
    match k
    case ByName => Flags(true, false, false)
    case ByType => Flags(false, true, false)
    case ByPriority => Flags(false, false, true)
  }

  /**
    The sorting menu with the corrected flag update: after any sort, every
    flag that is set is true of the tower, so a later binary search by name
    can only run on components sorted by name.
   */
  method OrdenarCorrigido(t: Torre, k: SortKey) returns (r: Torre, comparacoes: nat)
    requires t.Valid()
    ensures r.Valid() && r.Total() == t.Total()
    ensures multiset(r.Contents()) == multiset(t.Contents())
    ensures t.Total() > 0 ==> r.flags == FlagsAfterSort(k)
    ensures t.Total() == 0 ==> r == t
    ensures FlagsSound(t) ==> FlagsSound(r)
    ensures t.Total() > 0 ==> FlagsSound(r)
  {
    match k {
      case ByName => r, comparacoes := OrdenarPorNome(t);
      case ByType => r, comparacoes := OrdenarPorTipo(t);
      case ByPriority => r, comparacoes := OrdenarPorPrioridade(t);
    }
    if t.Total() > 0 {
      r := r.(flags := FlagsAfterSort(k));
    }
  }

  /** Adding a component keeps the flags sound: success clears them, refusal changes nothing visible. */
  lemma AddKeepsFlagsSound(t: Torre, nome: string, tipo: string, prioridade: int, quantidade: int)
    requires t.Valid() && FlagsSound(t)
    ensures FlagsSound(AdicionarComponente(t, nome, tipo, prioridade, quantidade).state)
  {
  }

  /** The order facts the stale-flag example relies on. */
  lemma StaleNameFlagFacts(a: Componente, b: Componente)
    requires a == Componente("a", "y", 1, 1) && b == Componente("b", "x", 1, 1)
    ensures SortedBy([a, b], NomeOf)
    ensures InsertionSortRef([a, b]) == [b, a]
    ensures !SortedBy([b, a], NomeOf)
    ensures BinarySearchFrom([b, a], NomeOf, "a", 0, 1) == Probe(-1, 1)
  {
    assert Cmp("a", "b") < 0 && Cmp("b", "a") > 0;
    assert Cmp("y", "x") > 0;
    assert !Le(NomeOf([b, a][0]), NomeOf([b, a][1]));
    assert [a, b][..1] == [a];
    assert InsertionSortRef([a]) == [a] by {
      assert [a][..0] == [];
    }
    assert InsertRight([a], b) == InsertRight([], b) + [a] by {
      assert [a][..0] == [];
    }
  }

  /** A fresh tower after adding "a" of type "y" and then "b" of type "x", both of priority and quantity 1. */
  method TwoComponents() returns (t: Torre)
    ensures t.Valid()
    ensures t.Contents() == [Componente("a", "y", 1, 1), Componente("b", "x", 1, 1)]
  {
    t := Initial();
    t := AdicionarComponente(t, "a", "y", 1, 1).state;
    t := AdicionarComponente(t, "b", "x", 1, 1).state;
  }

  /**
    The flags as the program updates them can lie: two components, "a" of
    type "y" and "b" of type "x", are added, sorted by name, then sorted by
    type. The name flag is still set, the tower now reads "b", "a", and the
    binary search for "a", which is present, reports it missing after one
    probe.
   */
  method StaleNameFlag() returns (t: Torre, o: SearchOutcome)
    ensures t.Valid() && t.flags.porNome
    ensures !SortedBy(t.Contents(), NomeOf)
    ensures HasName(t.Contents(), NomeOf, "a")
    ensures o == Searched(-1, 1)
  {
    var a := Componente("a", "y", 1, 1);
    var b := Componente("b", "x", 1, 1);
    StaleNameFlagFacts(a, b);
    t := TwoComponents();
    var comparacoes;
    t, comparacoes := OrdenarPorNome(t);
    assert t.Contents() == [a, b];
    t, comparacoes := OrdenarPorTipo(t);
    assert t.Contents() == [b, a];
    assert t.Contents()[1] == a;
    o := BuscaBinariaPorNome(t, "a");
  }
}
