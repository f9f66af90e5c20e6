# Free Fire backpack programs — a verified model

The repository holds three standalone C teaching programs. Each one keeps a
bounded inventory of game items and runs textbook algorithms over it:

- `novato/novato_free_fire.c`, the novice program. A backpack of at most 10
  items (name, type, quantity) in a global array with a count. It can insert,
  remove by name, and search by name.
- `aventureiro/aventureiro_free_fire.c`, the intermediate program. The same
  backpack appears twice. One copy is an array with insert, remove,
  sequential search, selection sort by name and binary search by name. The
  other is a singly linked list with append, remove, sequential search and
  teardown. Every search counts its comparisons. The menu prints a
  "theoretical maximum" for binary search.
- `mestre/mestre_Free_Fire.c`, the advanced program. An escape tower of at
  most 20 components (name, type, priority 1–10, quantity). It has:
  - three instrumented sorts: bubble sort by name with early exit, insertion
    sort by type, and selection sort by descending priority;
  - three "sorted by" flags, one of which gates a binary search by name;
  - a side-by-side run of the three sorts on copies.

The model is written in pure style. Each global array is a `Store<T>`
(module `FixedArray`): the backing slots at full capacity, plus the count.
Slots past the count keep whatever was last written there, as in C. An
operation takes the state as a value and returns the new state together with
its status code or counter. Names and types are compared through `Cmp`, the
sign of C `strcmp`, which is plain lexicographic order on `seq<char>`. The
linked list is a datatype chain, with `Nil` as the null pointer. Whether
`malloc` succeeds is a boolean parameter. Console input becomes parameters.

Modules:

- `StrOrder`: `strcmp` order.
- `Records`: the `Item` and `Componente` records, `trocar`, and `Effect`,
  the new state paired with the status an operation reports.
- `FixedArray`: the array-plus-count store.
- `Searching`: first match, reference removal, sequential search, binary
  search and its probe bound.
- `Counts`: `n(n-1)/2`.
- `Seqs`: generic sequence facts.
- `Novato`, `AventureiroVetor`, `AventureiroLista`: the first two programs.
- `BubbleSort`, `InsertionSort`, `SelectionSort`, `Mestre`: the third
  program.

Behaviours of the code that shape the model:

- In the advanced program a sort sets only its own flag and leaves the other
  two as they were. Only a successful add or remove clears all three.
  `Mestre.StaleNameFlag` shows a name flag that is set on a tower not sorted
  by name (see Findings).
- The advanced program prints `floor(log2 n)` as the theoretical maximum,
  one less than the worst case of its binary search (see Findings).
- The intermediate program's binary search does not check that the array is
  sorted. It only prints a warning. Sortedness is therefore not a
  precondition of `AventureiroVetor.BuscarBinariaVetor`:
  - its bounds and "found means the name matches" hold for every array;
  - "-1 means absent" is stated under the hypothesis that the array is
    sorted by name.

## Model

| member | source | states |
|---|---|---|
| StrOrder.Cmp | mestre/mestre_Free_Fire.c:297 | The sign of `strcmp` is -1, 0 or 1, and it is 0 exactly when the two strings are equal. |
| StrOrder.CmpAntisymmetric | mestre/mestre_Free_Fire.c:297 | Swapping the operands of the comparison negates it. |
| StrOrder.CmpTransitive | aventureiro/aventureiro_free_fire.c:222-227 | The `strcmp` order is transitive, and strictly so when either step is strict. This is what lets "smallest so far" tracking find a true minimum. |
| StrOrder.NotLtIsGe | aventureiro/aventureiro_free_fire.c:224 | A name that is not smaller than another is at least as large. Any two names are comparable. |
| StrOrder.AdjacentToSorted | mestre/mestre_Free_Fire.c:288-303 | A range whose neighbouring pairs are all in order is sorted. This is why a swap-free bubble pass ends the sort. |
| StrOrder.SortedFromParts | mestre/mestre_Free_Fire.c:288-303 | A sorted prefix, a sorted suffix, and every prefix name at most every suffix name make a sorted whole. |
| Records.Trocar | mestre/mestre_Free_Fire.c:91-96 | `trocar` exchanges positions `i` and `j`, leaves every other position alone, and keeps the multiset. |
| FixedArray.WriteNext | novato/novato_free_fire.c:123-135 | Writing the fields into slot `total` before validation leaves the visible contents and the count unchanged, and no other slot changes. |
| FixedArray.Commit | novato/novato_free_fire.c:145 | `total++` appends the slot just written to the visible contents. |
| FixedArray.WithContents | aventureiro/aventureiro_free_fire.c:213-240 | An in-place sort overwrites the used prefix only. The count and the unused slots stay, and writing back the same contents changes nothing. |
| FixedArray.RemoveByName | aventureiro/aventureiro_free_fire.c:115-142 | Scan, then shift left. With no match, -1 and nothing changes. Otherwise the first match `k` is spliced out (`old[..k] + old[k+1..]`), the count drops by one, the stale last slot is kept, and the result equals the reference `RemoveFirst`. |
| Searching.HasNameCons | aventureiro/aventureiro_free_fire.c:360-378 | A name occurs in a chain from a node iff it is the node's or occurs after it. |
| Searching.RemoveFirstAt | novato/novato_free_fire.c:186-206 | Removing the first match at `k` by shifting equals deleting position `k`, with the order of the rest kept. |
| Searching.RemoveFirstAbsent | novato/novato_free_fire.c:197-216 | Removing a name that no record has changes nothing. |
| Searching.RemoveFirstLength | aventureiro/aventureiro_free_fire.c:348-381 | Removal shortens the inventory by one exactly when the name occurs. |
| Searching.RemoveFirstMultiset | mestre/mestre_Free_Fire.c:188-206 | Removal takes exactly one copy of the first match out of the multiset of records. |
| Searching.AppendThenRemove | aventureiro/aventureiro_free_fire.c:94-142 | Appending a record under a fresh name and then removing that name restores the original sequence. |
| Searching.SequentialSearch | aventureiro/aventureiro_free_fire.c:188-202 | Returns -1 iff no record has the name, and otherwise the first match. The counter is the match index plus one, or the length on a miss. |
| Searching.MaxProbesIsLog | aventureiro/aventureiro_free_fire.c:716-722 | For `n >= 1` the probe bound is `1 + floor(log2 n)`: `2^(t-1) <= n < 2^t`. |
| Searching.MaxProbesMonotone | aventureiro/aventureiro_free_fire.c:257-275 | A larger range never has a smaller probe bound. |
| Searching.MaxProbesHalf | aventureiro/aventureiro_free_fire.c:260-272 | Halving a range of `n` elements leaves `n/2` or `(n-1)/2`, and each has a probe bound one less than `n`'s or lower. |
| Searching.HalvingStep | aventureiro/aventureiro_free_fire.c:260-272 | The midpoint `(lo+hi)/2` lies in the range, and each side left after one probe has a bound at least one lower. |
| Searching.SortedBelow | aventureiro/aventureiro_free_fire.c:267-269 | In a name-sorted array, if the probed name is below the key, so is every name up to it. Moving `esquerda` past the midpoint loses nothing. |
| Searching.SortedAbove | aventureiro/aventureiro_free_fire.c:271-273 | In a name-sorted array, if the probed name is above the key, so is every name from it on. Moving `direita` below the midpoint loses nothing. |
| Searching.BinarySearchFrom | aventureiro/aventureiro_free_fire.c:251-278 | Reference binary search over `lo..hi`. A hit lies in the range and holds the key, and a non-empty range costs at least one probe. |
| Searching.BinarySearchFromBound | aventureiro/aventureiro_free_fire.c:257-275 | The probes never exceed `1 + floor(log2 size)` of the range, because each probe leaves at most half of it. |
| Searching.BinarySearchFromStep | aventureiro/aventureiro_free_fire.c:259-273 | One probe either stops on a match after one comparison or continues in one half with one more comparison. |
| Searching.BinarySearchFromMiss | aventureiro/aventureiro_free_fire.c:248-278 | On a name-sorted array, a miss means no record in the range has the key. |
| Searching.BinarySearchFromTight | aventureiro/aventureiro_free_fire.c:716-722 | A key above every name drives the search to exactly `1 + floor(log2 n)` probes, so the bound is reached. |
| Searching.BinarySearchComplete | aventureiro/aventureiro_free_fire.c:248-278 | On a name-sorted array the search misses exactly when the key is absent (both directions). |
| Searching.BinarySearchFacts | aventureiro/aventureiro_free_fire.c:248-278 | Over a whole sequence, the result is -1 or an index holding the key. A non-empty sequence costs between 1 and `1 + floor(log2 n)` probes. On a name-sorted sequence, -1 iff the key is absent. |
| Searching.SearchInvStep | aventureiro/aventureiro_free_fire.c:259-273 | One probe of the loop either ends the search with the reference outcome or keeps the loop invariant on the half that remains. |
| Searching.SearchInvDone | aventureiro/aventureiro_free_fire.c:257-277 | When the range is empty, the outcome is -1 with the probes made so far. |
| Searching.BinarySearch | mestre/mestre_Free_Fire.c:441-463 | The loop with `esquerda`, `direita` and the probe counter returns exactly the index and probe count of the reference search. |
| Counts.TriClosedForm | mestre/mestre_Free_Fire.c:373-386 | The comparisons `(n-1) + (n-2) + ... + 1` total `n(n-1)/2`. |
| Novato.Initial | novato/novato_free_fire.c:46-47 | At start the backpack is valid and empty. |
| Novato.InserirItem | novato/novato_free_fire.c:108-151 | Full when and only when `totalItens >= 10`. The item is counted iff there is room and the quantity is positive, and then it is appended. A rejected insert leaves the count and the visible items unchanged, and a full backpack is untouched. |
| Novato.RemoverItem | novato/novato_free_fire.c:166-217 | An empty backpack reports so and is unchanged. Removal happens iff the name occurs; otherwise the state is unchanged. The first match goes, the others keep their order, and the count drops by one. |
| Novato.BuscarItem | novato/novato_free_fire.c:232-271 | An empty backpack reports so. "Not found" holds iff no item has the name. Otherwise the report is the first match and its record. |
| Novato.InsertThenRemove | novato/novato_free_fire.c:108-217 | Inserting under a fresh name and removing it restores the backpack's contents. |
| AventureiroVetor.InserirItemVetor | aventureiro/aventureiro_free_fire.c:94-107 | Returns 0 and changes nothing iff the array is full. Otherwise the item lands at the old count, earlier items stay and the count grows by one. |
| AventureiroVetor.MenuAdicionarVetor | aventureiro/aventureiro_free_fire.c:508-555 | The menu reports full iff the count is 10 or more. The item is added iff there is room and the quantity is positive. A refusal changes nothing. |
| AventureiroVetor.RemoverItemVetor | aventureiro/aventureiro_free_fire.c:115-142 | Returns 0 with the state unchanged iff no item has the name. Otherwise the contents become `old[..k] + old[k+1..]` for the first match `k`, and the count drops by one. |
| AventureiroVetor.BuscarSequencialVetor | aventureiro/aventureiro_free_fire.c:188-202 | The index of the first item with the name, or -1 iff none has it. The counter is index + 1, or `totalItensVetor` on a miss. |
| AventureiroVetor.FirstMinimum | aventureiro/aventureiro_free_fire.c:219-228 | The inner loop finds a smallest name in `a[i..]`, and the first one, since only a strictly smaller name replaces the candidate. |
| AventureiroVetor.SelectionStep | aventureiro/aventureiro_free_fire.c:230-236 | Swapping that minimum to position `i` keeps the multiset and extends the sorted, partitioned prefix by one. |
| AventureiroVetor.SelectionSortByName | aventureiro/aventureiro_free_fire.c:213-240 | Selection sort gives a permutation that is non-decreasing by name, and an array already sorted by name comes back unchanged. |
| AventureiroVetor.OrdenarVetor | aventureiro/aventureiro_free_fire.c:213-240 | `ordenarVetor` leaves a name-sorted permutation of the used prefix. The count and the unused slots are unchanged, and a sorted array is unchanged. |
| AventureiroVetor.BuscarBinariaVetor | aventureiro/aventureiro_free_fire.c:251-278 | The index stays within `-1 .. totalItensVetor-1`, and a found index holds the name, whatever the order. On a name-sorted array, -1 iff the name is absent. The counter stays within `1 + floor(log2 n)`. |
| AventureiroVetor.ComparacoesTeoricas | aventureiro/aventureiro_free_fire.c:716-722 | The halving loop started at 1 computes `1 + floor(log2 n)` for `n >= 1`, which is the probe bound of the search, and 1 for an empty array. |
| AventureiroVetor.AddThenRemove | aventureiro/aventureiro_free_fire.c:508-555 | Adding through the menu under a fresh name and removing that name restores the contents. |
| AventureiroLista.Initial | aventureiro/aventureiro_free_fire.c:80-81 | At start the chain is empty and the count matches it. |
| AventureiroLista.AppendTail | aventureiro/aventureiro_free_fire.c:327-337 | Walking to the last node and linking a new one appends the item to the chain's item sequence. |
| AventureiroLista.InserirItemLista | aventureiro/aventureiro_free_fire.c:290-340 | Succeeds iff the node is allocated. On failure the list is unchanged. On success the item is appended at the tail and the count grows by one. The count always equals the chain length. |
| AventureiroLista.RemoveAfter | aventureiro/aventureiro_free_fire.c:363-378 | The trailing-pointer walk unlinks the first later node with the name iff there is one, and leaves the chain as it was otherwise. |
| AventureiroLista.RemoverItemLista | aventureiro/aventureiro_free_fire.c:348-381 | Returns 1 iff some node has the name. The first such node, the head included, is unlinked, the others keep their order, and the count drops by one and still equals the chain length. Otherwise nothing changes. |
| AventureiroLista.BuscarSequencialLista | aventureiro/aventureiro_free_fire.c:432-448 | NULL iff no node has the name. Otherwise the first matching node, with the counter at its 1-based position. On a miss the counter is the chain length. |
| AventureiroLista.LiberarLista | aventureiro/aventureiro_free_fire.c:458-471 | The walk visits every node exactly once: the count of visited nodes is the chain length. Afterwards the chain is empty and `totalItensLista` is 0. |
| AventureiroLista.MenuAdicionarLista | aventureiro/aventureiro_free_fire.c:779-825 | Added iff there is room, the quantity is positive and allocation succeeds, and then the item is appended. Full iff the count is 10 or more. A refusal changes nothing, and the count never passes 10. |
| AventureiroLista.ListMatchesArray | aventureiro/aventureiro_free_fire.c:94-142 | From equal contents, the same add and the same removal through the array and through the list give equal contents again. |
| BubbleSort.BubblePass | mestre/mestre_Free_Fire.c:292-302 | One inner pass keeps the multiset and leaves the suffix alone. It carries the largest name of `a[..b+1]` to position `b`, and it swaps iff some neighbouring pair was out of order; no swap means no change. |
| BubbleSort.PassStep | mestre/mestre_Free_Fire.c:294-301 | One comparison, with a swap when the pair is out of order, keeps the pass invariant one position further. |
| BubbleSort.SwapKeepsBubble | mestre/mestre_Free_Fire.c:297-301 | Swapping an out-of-order pair moves the largest name so far forward and keeps the multiset and the partition. |
| BubbleSort.NoSwapKeepsBubble | mestre/mestre_Free_Fire.c:297 | A pair already in order leaves the largest name so far at the next position. |
| BubbleSort.BubbleStep | mestre/mestre_Free_Fire.c:288-303 | After a pass the sorted, partitioned suffix starts one position earlier. |
| BubbleSort.BubbleSortNome | mestre/mestre_Free_Fire.c:280-307 | A name-sorted permutation, with at most `n(n-1)/2` comparisons. Input already sorted by name comes back unchanged after exactly `n-1` comparisons (early exit). |
| InsertionSort.OfTypeAppend | mestre/mestre_Free_Fire.c:336 | Picking the elements of one type distributes over concatenation. |
| InsertionSort.InsertRightMultiset | mestre/mestre_Free_Fire.c:332-346 | One insertion adds exactly the key to the multiset. |
| InsertionSort.InsertRightElements | mestre/mestre_Free_Fire.c:332-346 | One insertion introduces nothing but the key. |
| InsertionSort.InsertRightSorted | mestre/mestre_Free_Fire.c:332-346 | Inserting into a type-sorted prefix keeps it sorted by type. |
| InsertionSort.InsertRightStable | mestre/mestre_Free_Fire.c:336 | Since only a strictly greater type is passed, the key joins the end of its own type's run. |
| InsertionSort.InsertCountBound | mestre/mestre_Free_Fire.c:336-344 | One insertion makes at most as many comparisons as there are elements before it. |
| InsertionSort.InsertionSortRefPermutation | mestre/mestre_Free_Fire.c:324-351 | The sort returns a permutation of its input. |
| InsertionSort.InsertionSortRefLength | mestre/mestre_Free_Fire.c:324-351 | The sort keeps the length. |
| InsertionSort.InsertionSortRefOrdered | mestre/mestre_Free_Fire.c:324-351 | The sort returns a sequence non-decreasing by type. |
| InsertionSort.InsertionSortRefStable | mestre/mestre_Free_Fire.c:324-351 | The sort is stable: for every type, the elements of that type come out in input order. |
| InsertionSort.SortCountBound | mestre/mestre_Free_Fire.c:336-344 | The counter never exceeds the number of pairs. |
| InsertionSort.InsertRightAtEnd | mestre/mestre_Free_Fire.c:336-346 | A key whose type is not below the last one stays in place after one comparison, or none when it is the first element. |
| InsertionSort.InsertionSortRefSorted | mestre/mestre_Free_Fire.c:324-351 | Input already sorted by type comes back unchanged after exactly `n-1` comparisons. |
| InsertionSort.SortCountQuadratic | mestre/mestre_Free_Fire.c:336-344 | The counter is at most `n(n-1)/2`. |
| InsertionSort.InsertionSortRefFacts | mestre/mestre_Free_Fire.c:324-351 | Collects what the sort promises: permutation, sorted by type, stable per type, at most `n(n-1)/2` comparisons, and `n-1` comparisons with no change on sorted input. |
| InsertionSort.PrefixStep | mestre/mestre_Free_Fire.c:330-332 | Taking `chave = torre[i]` into the sorted prefix is one reference insertion step, and the unsorted tail is still the input's. |
| InsertionSort.InsertAt | mestre/mestre_Free_Fire.c:332-346 | The inner loop for position `i` turns `a[..i+1]` into the reference insertion of `a[i]` into `a[..i]`. It leaves the rest untouched and counts exactly the reference comparisons: one per shift plus one when it stops inside the array. |
| InsertionSort.ShiftInvStep | mestre/mestre_Free_Fire.c:336-341 | One shift `torre[j+1] = torre[j]` keeps the inner-loop invariant one position further left. |
| InsertionSort.ShiftInvDone | mestre/mestre_Free_Fire.c:343-346 | When shifting stops, the extra comparison and writing `chave` into the gap complete the insertion and its count. |
| InsertionSort.PlaceKey | mestre/mestre_Free_Fire.c:346 | Writing the key into the gap yields the searched prefix, the key, then the shifted elements. The tail is untouched. |
| InsertionSort.ShiftStep | mestre/mestre_Free_Fire.c:336-340 | Passing an element of greater type moves it into the shifted tail and costs one comparison. |
| InsertionSort.StopStep | mestre/mestre_Free_Fire.c:343-346 | Where the shifting stops, the insertion is the searched prefix followed by the key, at a cost of one comparison, or none at the front. |
| InsertionSort.InsertionSortTipo | mestre/mestre_Free_Fire.c:324-351 | `insertionSortTipo` computes exactly the reference sort and its comparison count, so `InsertionSortRefFacts` describes its result. |
| SelectionSort.FirstMaximum | mestre/mestre_Free_Fire.c:375-386 | The inner loop finds the first component of greatest priority in `a[i..]` after exactly `n-i-1` comparisons. |
| SelectionSort.SelectionStep | mestre/mestre_Free_Fire.c:388-391 | Swapping that maximum to `i` extends the non-increasing, partitioned prefix. When the rest is already in order the maximum is at `i` itself. |
| SelectionSort.RoundStep | mestre/mestre_Free_Fire.c:373-392 | One outer round, swapping only when the maximum lies elsewhere, keeps the round invariant: permutation, sorted prefix, and sorted input untouched. |
| SelectionSort.SelectionSortPrioridade | mestre/mestre_Free_Fire.c:367-396 | A permutation non-increasing by priority after exactly `n(n-1)/2` comparisons. Input already in that order comes back unchanged. |
| Mestre.Initial | mestre/mestre_Free_Fire.c:50-61 | At start the tower is valid and empty, with all three flags clear. |
| Mestre.AdicionarComponente | mestre/mestre_Free_Fire.c:108-162 | Full iff the count is 20 or more. The priority check comes first. The component is counted iff there is room, the priority is 1–10 and the quantity is positive; it is appended and all flags clear. A rejected add keeps the count, the visible components and the flags. |
| Mestre.RemoverComponente | mestre/mestre_Free_Fire.c:170-221 | An empty tower is left alone. Removal happens iff the name occurs: the first match goes, the rest keep their order, the count drops by one and the flags clear. With no match everything, flags included, is unchanged. Sound flags stay sound. |
| Mestre.OrdenarPorNome | mestre/mestre_Free_Fire.c:539-560 | On a non-empty tower, a name-sorted permutation. The name flag is set and the other two flags are unchanged. The count and unused slots stay. There are at most `n(n-1)/2` comparisons, or `n-1` with no change on sorted input. An empty tower is untouched. |
| Mestre.OrdenarPorTipo | mestre/mestre_Free_Fire.c:564-585 | On a non-empty tower, a type-sorted, stable permutation. The type flag is set and the name and priority flags are unchanged. Comparisons are bounded as for insertion sort. An empty tower is untouched. |
| Mestre.OrdenarPorPrioridade | mestre/mestre_Free_Fire.c:589-610 | On a non-empty tower, a permutation non-increasing by priority after exactly `n(n-1)/2` comparisons. The priority flag is set and the name and type flags are unchanged. An empty tower is untouched. |
| Mestre.BuscaBinariaPorNome | mestre/mestre_Free_Fire.c:415-465 | No search iff the tower is empty or the name flag is clear. Otherwise the index stays within the tower and a found index holds the name. There are 1 to `1 + floor(log2 n)` probes. When the components are sorted by name, and whenever the flags are sound, -1 iff the name is absent. |
| Mestre.ComparacoesTeoricasMestre | mestre/mestre_Free_Fire.c:493-500 | The printed maximum, a halving loop started at 0, is `floor(log2 n)`, one less than the probe bound, and 0 for `n <= 1`. |
| Mestre.TheoreticalMaxExceeded | mestre/mestre_Free_Fire.c:441-500 | On every non-empty tower, a search for a name above all present names makes `1 + floor(log2 n)` probes, one more than the printed maximum. |
| Mestre.PrintedMaxTooLow | mestre/mestre_Free_Fire.c:441-500 | On a tower whose names are all below the key, the comparisons the search makes are exactly one more than the maximum the program prints, and equal `1 + floor(log2 n)`. |
| Mestre.BuscaBinariaComMaximo | aventureiro/aventureiro_free_fire.c:716-722 | With the maximum computed by the halving loop started at 1, every search that runs makes between 1 and that maximum comparisons, and the maximum is `1 + floor(log2 n)`. |
| Mestre.CopiarComponentes | mestre/mestre_Free_Fire.c:75-83 | The copy holds exactly the components in use, in order. |
| Mestre.CompararAlgoritmos | mestre/mestre_Free_Fire.c:614-748 | Nothing is written back to the tower (the sorts work on copies of its components). With no components there is nothing to compare; otherwise the three counts are those of the sorts on copies: bubble at most `n(n-1)/2` (and `n-1` on name-sorted input), insertion the reference count, and selection exactly `n(n-1)/2`. |
| Mestre.OrdenarCorrigido | mestre/mestre_Free_Fire.c:305 | With the corrected flag update (set the key just sorted, clear the other two), every set flag is true after any sort on a non-empty tower, and sound flags stay sound. |
| Mestre.AddKeepsFlagsSound | mestre/mestre_Free_Fire.c:151-158 | Adding a component never makes a sound set of flags unsound. |
| Mestre.StaleNameFlagFacts | mestre/mestre_Free_Fire.c:324-351 | For the two components of the stale-flag example, the type sort reverses their name order and the search for "a" misses after one probe. |
| Mestre.TwoComponents | mestre/mestre_Free_Fire.c:108-162 | Adding "a" (type "y") and then "b" (type "x") to a fresh tower gives exactly those two components in that order. |
| Mestre.StaleNameFlag | mestre/mestre_Free_Fire.c:349 | After sort by name, then sort by type, the name flag is still set while the tower is not sorted by name, and the search for "a", which is present, reports -1 after one probe. |

## Left out

- Console I/O: `printf`, `scanf`, `fgets`, the menus, `main`, and the screen
  texts and emoji. Values read from the console are parameters.
- The listing functions `listarItens`, `listarItensVetor`,
  `listarItensLista` and `listarComponentes`, and `telaComparacao`. They only
  print state.
- `clock()` timings and the `double` seconds printed by the sorting menu.
  These are wall-clock time and floating point.
- C-string mechanics:
  - NUL terminators, `strcpy`, and `fgets` truncation to 30 and 20 bytes.
  - Names and types are unbounded `seq<char>`.
  - A name longer than the buffer is therefore not cut short in the model.
- `malloc` and `free`: memory is not modelled. Whether `criarNo` gets its
  node is a boolean parameter of `AventureiroLista.InserirItemLista`.
- AventureiroLista.LiberarLista: counts the nodes it releases and does not
  state that the memory is freed, because the model has no heap.
- Mestre.CopiarComponentes: always yields the copy. The program does not
  check the result of `malloc` either, so an allocation failure there is
  undefined behaviour in C rather than a path the model could follow.
- The advisory printouts: the "n > 5" recommendations and the
  "componente-chave" message after a successful search.
- Option 4 of the sorting menu repeats the three sort loops inline on the
  copies. The model runs the same sort members on the copies, because the
  inline loops are the same statements as `bubbleSortNome`,
  `insertionSortTipo` and `selectionSortPrioridade` without the flag update.
- Integer width: counts and quantities are unbounded integers. The counters
  never exceed `20 * 19 / 2`, so 32-bit `int` cannot overflow in them.
- `scanf` failures: on non-numeric input `scanf` assigns nothing, so the
  field keeps whatever the slot held before. The model takes the integer
  read as a parameter and does not model that input.

## Findings

| source | as written | input that shows it | evidently intended | confidence | as-written member | corrected member |
|---|---|---|---|---|---|---|
| mestre/mestre_Free_Fire.c:493-500 | The "theoretical maximum" loop starts at 0, giving `floor(log2 n)`. | Add "a", sort by name (sorting menu option 1), then search "b": the search makes 1 comparison while the maximum printed is ~0. The same happens on every tower, after a sort by name, for a name above all present names. | Start at 1, as the intermediate program does (`aventureiro/aventureiro_free_fire.c:716`), giving `1 + floor(log2 n)`, the true worst case. | medium, not executed | Mestre.PrintedMaxTooLow | Mestre.BuscaBinariaComMaximo |
| mestre/mestre_Free_Fire.c:349 | `insertionSortTipo` (and `selectionSortPrioridade` at line 394) set only their own flag and leave `ordenadoPorNome` set from an earlier name sort, so the check at line 428 lets binary search run on an array no longer sorted by name. | Add "a" (type "y") and "b" (type "x"), sort by name, sort by type, then search "a": the tower reads "b", "a" and the search reports "not found" after 1 comparison. | Each sort sets its own flag and clears the other two, so a set name flag means the tower is sorted by name. | high, not executed | Mestre.StaleNameFlag | Mestre.OrdenarCorrigido |
