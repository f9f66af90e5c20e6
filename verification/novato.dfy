/**
  The novice program (`novato/novato_free_fire.c`): a backpack of at most
  `MAX_ITENS` items kept in a global array plus a count, with insert,
  remove-by-name and search-by-name. Field values that the program reads
  from the console are parameters here.
 */
module Novato {
  import opened Records
  import opened FixedArray
  import opened Searching

  const MAX_ITENS: nat := 10

  type Mochila = Store<Item>

  /** `0 <= totalItens <= MAX_ITENS` over an array of `MAX_ITENS` slots. */
  predicate Valid(m: Mochila) {
    m.Valid(MAX_ITENS)
  }

  /** The backpack at program start: zeroed slots, `totalItens == 0`. */
  function Initial(): (m: Mochila)
    ensures Valid(m) && m.Contents() == []
  {
    Store(seq(MAX_ITENS, _ => EmptyItem), 0)
  }

  datatype InsertOutcome = Inserted | BackpackFull | InvalidQuantity

  /**
    `inserirItem`: refuse when the backpack is full; otherwise the fields
    are written into the next free slot and the item is counted only when
    its quantity is positive.
   */
  function InserirItem(m: Mochila, nome: string, tipo: string, quantidade: int): (r: Effect<Mochila, InsertOutcome>)
    requires Valid(m)
    ensures Valid(r.state)
    ensures r.outcome == BackpackFull <==> m.total >= MAX_ITENS
    ensures r.outcome == Inserted <==> m.total < MAX_ITENS && quantidade > 0
    ensures r.outcome == Inserted ==> r.state.Contents() == m.Contents() + [Item(nome, tipo, quantidade)]
    ensures r.outcome != Inserted ==> r.state.total == m.total && r.state.Contents() == m.Contents()
    ensures r.outcome == BackpackFull ==> r.state == m
  {
    if m.total >= MAX_ITENS then Effect(m, BackpackFull)
    else
      var w := WriteNext(m, Item(nome, tipo, quantidade));
      if quantidade <= 0 then Effect(w, InvalidQuantity)
      else Effect(Commit(w), Inserted)
  }

  datatype RemoveOutcome = Removed | NothingToRemove | NotFound

  /**
    `removerItem`: nothing to do on an empty backpack; otherwise the first
    item with that name is removed by shifting the later ones left.
   */
  method RemoverItem(m: Mochila, nomeRemover: string) returns (r: Mochila, o: RemoveOutcome)
    requires Valid(m)
    ensures Valid(r)
    ensures o == NothingToRemove <==> m.total == 0
    ensures o == Removed <==> HasName(m.Contents(), NameOf, nomeRemover)
    ensures o != Removed ==> r == m
    ensures o == Removed ==> r.total == m.total - 1
    ensures r.Contents() == RemoveFirst(m.Contents(), NameOf, nomeRemover)
  {
    if m.total == 0 {
      return m, NothingToRemove;
    }
    var k;
    r, k := RemoveByName(m, NameOf, nomeRemover);
    o := if k == -1 then NotFound else Removed;
  }

  datatype SearchOutcome = NothingToSearch | Found(index: nat, item: Item) | Missing

  /**
    `buscarItem`: on a non-empty backpack, report the first item whose name
    equals the query, or that none does.
   */
  method BuscarItem(m: Mochila, nomeBusca: string) returns (o: SearchOutcome)
    requires Valid(m)
    ensures o == NothingToSearch <==> m.total == 0
    ensures o.Missing? <==> m.total > 0 && !HasName(m.Contents(), NameOf, nomeBusca)
    ensures o.Found? ==> IsFirstMatch(m.Contents(), NameOf, nomeBusca, o.index)
    ensures o.Found? ==> o.index < m.total && o.item == m.slots[o.index]
  {
    if m.total == 0 {
      return NothingToSearch;
    }
    var i, _ := SequentialSearch(m.Contents(), NameOf, nomeBusca);
    if i == -1 {
      o := Missing;
    } else {
      o := Found(i, m.slots[i]);
    }
  }

  /**
    Adding an item under a name not yet in the backpack and then removing
    that name gives back the original contents.
   */
  lemma InsertThenRemove(m: Mochila, nome: string, tipo: string, quantidade: int)
    requires Valid(m) && m.total < MAX_ITENS && quantidade > 0
    requires !HasName(m.Contents(), NameOf, nome)
    ensures RemoveFirst(InserirItem(m, nome, tipo, quantidade).state.Contents(), NameOf, nome) == m.Contents()
  {
    AppendThenRemove(m.Contents(), Item(nome, tipo, quantidade), NameOf);
  }
}
