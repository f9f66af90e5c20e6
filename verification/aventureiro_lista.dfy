/**
  The linked-list half of the intermediate program
  (`aventureiro/aventureiro_free_fire.c`): a singly linked chain of `No`
  nodes from `mochilaLista`, with `totalItensLista` kept beside it. The
  chain is modelled as a datatype, so the null pointer is `Nil` and a node
  pointer is the sub-chain that starts at that node; `malloc` either yields
  a node or fails, and that outcome is a parameter.
 */
module AventureiroLista {
  import opened StrOrder
  import opened Records
  import opened Searching
  import V = AventureiroVetor

  const MAX_ITENS: nat := 10

  datatype Chain = Nil | Node(dados: Item, proximo: Chain)

  /** The items met walking the chain from this node to the end. */
  function Items(c: Chain): seq<Item>
  {
    match c
    case Nil => []
    case Node(d, p) => [d] + Items(p)
  }

  datatype Lista = Lista(head: Chain, total: int)

  /** `totalItensLista` equals the length of the chain. */
  predicate Valid(l: Lista) {
    l.total == |Items(l.head)|
  }

  /** The list at program start: `mochilaLista == NULL`, no items. */
  function Initial(): (l: Lista)
    ensures Valid(l) && Items(l.head) == []
  {
    Lista(Nil, 0)
  }

  /** Walk to the last node and link a new node after it. */
  function AppendTail(c: Chain, x: Item): (r: Chain)
    ensures Items(r) == Items(c) + [x]
  {
    match c
    case Nil => Node(x, Nil)
    case Node(d, p) => Node(d, AppendTail(p, x))
  }

  /**
    `inserirItemLista`: when the node can be allocated the item is appended
    at the tail and the count grows by one; otherwise 0 and no change.
   */
  function InserirItemLista(l: Lista, nome: string, tipo: string, quantidade: int, alocou: bool): (r: Effect<Lista, bool>)
    requires Valid(l)
    ensures Valid(r.state)
    ensures r.outcome <==> alocou
    ensures !r.outcome ==> r.state == l
    ensures r.outcome ==> r.state.total == l.total + 1
    ensures r.outcome ==> Items(r.state.head) == Items(l.head) + [Item(nome, tipo, quantidade)]
  {
    if !alocou then Effect(l, false)
    else Effect(Lista(AppendTail(l.head, Item(nome, tipo, quantidade)), l.total + 1), true)
  }

  /**
    The walk of `removerItemLista` past the head: with `atual` trailing,
    the first later node with the name is unlinked; nothing changes when
    there is none.
   */
  function RemoveAfter(atual: Chain, nome: string): (r: Effect<Chain, bool>)
    requires atual.Node?
    ensures r.outcome <==> HasName(Items(atual.proximo), NameOf, nome)
    ensures !r.outcome ==> r.state == atual
    ensures Items(r.state) == [atual.dados] + RemoveFirst(Items(atual.proximo), NameOf, nome)
  {
    match atual.proximo
    case Nil => Effect(atual, false)
    case Node(d, p) =>
      HasNameCons(d, Items(p), NameOf, nome);
      assert ([d] + Items(p))[1..] == Items(p);
      if Cmp(d.nome, nome) == 0 then Effect(Node(atual.dados, p), true)
      else
        var Effect(rest, found) := RemoveAfter(atual.proximo, nome);
        Effect(if found then Node(atual.dados, rest) else atual, found)
  }

  /**
    `removerItemLista`: 0 and no change when no node has the name;
    otherwise the first such node is unlinked (the head as a special case),
    the others keep their order and the count drops by one.
   */
  function RemoverItemLista(l: Lista, nome: string): (r: Effect<Lista, bool>)
    requires Valid(l)
    ensures Valid(r.state)
    ensures r.outcome <==> HasName(Items(l.head), NameOf, nome)
    ensures !r.outcome ==> r.state == l
    ensures r.outcome ==> r.state.total == l.total - 1
    ensures Items(r.state.head) == RemoveFirst(Items(l.head), NameOf, nome)
  {
    match l.head
    case Nil => Effect(l, false)
    case Node(d, p) =>
      HasNameCons(d, Items(p), NameOf, nome);
      assert ([d] + Items(p))[1..] == Items(p);
      if Cmp(d.nome, nome) == 0 then Effect(Lista(p, l.total - 1), true)
      else
        var Effect(c, found) := RemoveAfter(l.head, nome);
        RemoveFirstLength(Items(l.head), NameOf, nome);
        if found then Effect(Lista(c, l.total - 1), true) else Effect(l, false)
  }

  /**
    `buscarSequencialLista`: the first node whose item has the name, with
    the counter at its 1-based position; `Nil` with the counter at the
    chain length when there is none.
   */
  method BuscarSequencialLista(l: Lista, nome: string) returns (no: Chain, comparacoes: nat)
    ensures no == Nil <==> !HasName(Items(l.head), NameOf, nome)
    ensures no == Nil ==> comparacoes == |Items(l.head)|
    ensures no != Nil ==> comparacoes >= 1 && IsFirstMatch(Items(l.head), NameOf, nome, comparacoes - 1)
    ensures no != Nil ==> Items(no) == Items(l.head)[comparacoes - 1..]
  {
    comparacoes := 0;
    var atual := l.head;
    while atual != Nil
      invariant comparacoes <= |Items(l.head)|
      invariant Items(atual) == Items(l.head)[comparacoes..]
      invariant forall j :: 0 <= j < comparacoes ==> Items(l.head)[j].nome != nome
      decreases atual
    {
      assert Items(atual)[0] == atual.dados;
      comparacoes := comparacoes + 1;
      if Cmp(atual.dados.nome, nome) == 0 {
        return atual, comparacoes;
      }
      assert Items(atual.proximo) == Items(atual)[1..];
      atual := atual.proximo;
    }
    no := Nil;
  }

  /**
    `liberarLista`: every node is released once, walking from the head;
    afterwards the chain is empty and the count is 0.
   */
  method LiberarLista(l: Lista) returns (r: Lista, liberados: nat)
    ensures Valid(r) && r.head == Nil && r.total == 0
    ensures liberados == |Items(l.head)|
  {
    liberados := 0;
    var atual := l.head;
    while atual != Nil
      invariant liberados + |Items(atual)| == |Items(l.head)|
      decreases atual
    {
      atual := atual.proximo;
      liberados := liberados + 1;
    }
    r := Lista(Nil, 0);
  }

  datatype AddOutcome = Added | BackpackFull | InvalidQuantity | OutOfMemory

  /**
    Option 1 of `menuLista`: the capacity of `MAX_ITENS` items and the
    positive quantity are checked by the menu, then `inserirItemLista` runs.
   */
  function MenuAdicionarLista(l: Lista, nome: string, tipo: string, quantidade: int, alocou: bool): (r: Effect<Lista, AddOutcome>)
    requires Valid(l)
    ensures Valid(r.state)
    ensures r.outcome == Added <==> l.total < MAX_ITENS && quantidade > 0 && alocou
    ensures r.outcome == BackpackFull <==> l.total >= MAX_ITENS
    ensures r.outcome != Added ==> r.state == l
    ensures r.outcome == Added ==> Items(r.state.head) == Items(l.head) + [Item(nome, tipo, quantidade)]
    ensures l.total <= MAX_ITENS ==> r.state.total <= MAX_ITENS
  {
    if l.total >= MAX_ITENS then Effect(l, BackpackFull)
    else if quantidade <= 0 then Effect(l, InvalidQuantity)
    else
      var Effect(l', ok) := InserirItemLista(l, nome, tipo, quantidade, alocou);
      Effect(l', if ok then Added else OutOfMemory)
  }

  /**
    The array and the list keep the same inventory: from equal contents,
    adding the same item through either menu (the node allocation
    succeeding) and removing the same name leave equal contents again.
   */
  lemma ListMatchesArray(m: V.Mochila, l: Lista, nome: string, tipo: string, quantidade: int, chave: string)
    requires V.Valid(m) && Valid(l) && m.Contents() == Items(l.head)
    ensures var Effect(m', _) := V.MenuAdicionarVetor(m, nome, tipo, quantidade);
      var Effect(l', _) := MenuAdicionarLista(l, nome, tipo, quantidade, true);
      && m'.Contents() == Items(l'.head)
      && RemoveFirst(m'.Contents(), NameOf, chave) == Items(RemoverItemLista(l', chave).state.head)
  {
    assert m.total == l.total;
  }
}
