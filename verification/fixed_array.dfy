/**
  The fixed-capacity array store the three programs share: a C array of
  `capacity` slots plus a count of the slots in use. Slots at or beyond
  the count keep whatever was last written there, exactly as the C arrays
  do; only the prefix `slots[..total]` is the visible inventory.
 */
module FixedArray {
  import opened StrOrder
  import opened Searching

  datatype Store<T> = Store(slots: seq<T>, total: nat)
  {
    /** The count never exceeds the capacity of the backing array. */
    predicate Valid(capacity: nat) {
      |slots| == capacity && total <= capacity
    }

    /** The records currently in the store, in slot order. */
    function Contents(): seq<T>
      requires total <= |slots|
    {
      slots[..total]
    }
  }

  /**
    Copy a record into the first free slot without counting it yet, as the
    programs do before they validate the fields they have just read.
   */
  function WriteNext<T>(st: Store<T>, x: T): (r: Store<T>)
    requires st.total < |st.slots|
    ensures |r.slots| == |st.slots| && r.total == st.total
    ensures r.Contents() == st.Contents()
    ensures r.slots[st.total] == x
    ensures forall i :: 0 <= i < |st.slots| && i != st.total ==> r.slots[i] == st.slots[i]
  {
    Store(st.slots[st.total := x], st.total)
  }

  /** Count the slot just written (`total++`): it joins the contents at the end. */
  function Commit<T>(st: Store<T>): (r: Store<T>)
    requires st.total < |st.slots|
    ensures r.slots == st.slots && r.total == st.total + 1
    ensures r.Contents() == st.Contents() + [st.slots[st.total]]
  {
    assert st.slots[..st.total + 1] == st.slots[..st.total] + [st.slots[st.total]];
    Store(st.slots, st.total + 1)
  }

  /**
    Overwrite the used prefix with `c`, as the in-place sorts do: the count
    and the slots past it stay as they were.
   */
  function WithContents<T>(st: Store<T>, c: seq<T>): (r: Store<T>)
    requires st.total <= |st.slots| && |c| == st.total
    ensures |r.slots| == |st.slots| && r.total == st.total
    ensures r.Contents() == c
    ensures r.slots[r.total..] == st.slots[st.total..]
    ensures c == st.Contents() ==> r == st
  {
    assert st.slots == st.Contents() + st.slots[st.total..];
    Store(c + st.slots[st.total..], st.total)
  }

  /**
    Remove the first record named `key`: a sequential scan for the first
    match, then every later record shifts one slot to the left and the count
    drops by one. `k` is the index removed, -1 when no record has the name,
    in which case nothing changes. The last used slot keeps its old value.
   */
  method RemoveByName<T>(st: Store<T>, name: T -> string, key: string) returns (r: Store<T>, k: int)
    requires st.total <= |st.slots|
    ensures k == -1 <==> !HasName(st.Contents(), name, key)
    ensures k == -1 ==> r == st
    ensures k != -1 ==> IsFirstMatch(st.Contents(), name, key, k)
    ensures k != -1 ==> r.total == st.total - 1 && |r.slots| == |st.slots|
    ensures k != -1 ==> r.Contents() == st.Contents()[..k] + st.Contents()[k + 1..]
    ensures k != -1 ==> r.slots[r.total..] == st.slots[r.total..]
    ensures r.Contents() == RemoveFirst(st.Contents(), name, key)
  {
    ghost var c := st.Contents();
    var indice := -1;
    var i := 0;
    while i < st.total
      invariant 0 <= i <= st.total
      invariant forall j :: 0 <= j < i ==> name(st.slots[j]) != key
    {
      if Cmp(name(st.slots[i]), key) == 0 {
        indice := i;
        break;
      }
      i := i + 1;
    }
    if indice == -1 {
      assert !HasName(c, name, key);
      RemoveFirstAbsent(c, name, key);
      return st, -1;
    }
    assert IsFirstMatch(c, name, key, indice);
    var a := st.slots;
    i := indice;
    while i < st.total - 1
      invariant indice <= i <= st.total - 1
      invariant |a| == |st.slots|
      invariant forall j :: 0 <= j < indice ==> a[j] == st.slots[j]
      invariant forall j :: indice <= j < i ==> a[j] == st.slots[j + 1]
      invariant forall j :: i <= j < |a| ==> a[j] == st.slots[j]
    {
      a := a[i := a[i + 1]];
      i := i + 1;
    }
    r := Store(a, st.total - 1);
    k := indice;
    assert r.Contents() == c[..k] + c[k + 1..];
    RemoveFirstAt(c, name, key, k);
  }
}
