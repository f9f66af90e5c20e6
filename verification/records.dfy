/**
  The records the programs keep: the inventory `Item` of the novice and
  intermediate programs (a name, a type and a quantity) and the tower
  `Componente` of the advanced program, which adds a priority from 1 to 10.
 */
module Records {

  /** What an operation leaves behind (`state`) and what it reports to the menu (`outcome`). */
  datatype Effect<S, O> = Effect(state: S, outcome: O)

  datatype Item = Item(nome: string, tipo: string, quantidade: int)

  /** The key every search, removal and name sort uses. */
  function NameOf(it: Item): string {
    it.nome
  }

  /** The value a zero-initialised global `Item` slot holds. */
  const EmptyItem := Item("", "", 0)

  datatype Componente = Componente(nome: string, tipo: string, prioridade: int, quantidade: int)

  /** The key of the name sort and of the binary search in the tower. */
  function NomeOf(c: Componente): string {
    c.nome
  }

  /** The key of the insertion sort. */
  function TipoOf(c: Componente): string {
    c.tipo
  }

  /** The value a zero-initialised global `Componente` slot holds. */
  const EmptyComponente := Componente("", "", 0, 0)

  /** `trocar`: exchange the records at positions `i` and `j`. */
  function Trocar<T>(a: seq<T>, i: nat, j: nat): (c: seq<T>)
    requires i < |a| && j < |a|
    ensures |c| == |a| && c[i] == a[j] && c[j] == a[i]
    ensures forall k :: 0 <= k < |a| && k != i && k != j ==> c[k] == a[k]
    ensures multiset(c) == multiset(a)
  {
    a[i := a[j]][j := a[i]]
  }
}
