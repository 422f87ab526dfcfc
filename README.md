# GCC's typed hash table, modelled in Dafny

This project models `hash_table<Descriptor, Allocator>` from `gcc/hash-table.h`. It is GCC's open-addressing hash table with double hashing and tombstones.

- **Slots.** The table is a slot array (`m_entries`). Each slot is Empty (`HTAB_EMPTY_ENTRY`), Deleted (`HTAB_DELETED_ENTRY`, a tombstone) or holds a live value.
- **Counters.** `m_n_elements` counts the live and deleted slots. `m_n_deleted` counts the tombstones.
- **Size.** The size is a prime taken from the table of primes at `m_size_prime_index`.
- **Probing.** A search for hash `h` starts at `hash_table_mod1` and advances by `hash_table_mod2`, wrapping around by one subtraction.

The model has the following modules:

- `Slots`: the slot datatype and the counts over a slot sequence. These are the used slots, the tombstones, the live slots and the multiset of live values. Its lemmas say how each kind of slot write changes them.
- `PrimeService`: the table of primes, `hash_table_higher_prime_index`, `hash_table_mod1` and `hash_table_mod2`.
  - The header only declares these. The table of primes is a parameter of the hash table.
  - It must hold primes of at least 5.
  - The three functions are given the definitions their contracts call for.
- `Probing`: the probe sequence.
  - Its closed form is `(start + k * step) mod size`.
  - Coverage and distinctness of the first `size` probes are proved from primality.
  - It also holds the 32-bit step as the source writes it.
- `Search`: the probe searches as functions of the slot array. These are the lookup, the earliest tombstone an insertion reuses, and the free-slot search of `expand`. Its lemmas cover the first-match, round-trip and deletion properties.
- `Scan`: the live slots of a range, the next live slot (`slide`) and the callbacks made by `traverse_noresize`.
- `Iterators`: `hash_table::iterator`, a class with the two slot pointers `m_slot` and `m_limit`.
- `HashTables`: `hash_table` itself.
  - It is a class with the fields `m_entries` (an array), `m_size`, `m_n_elements`, `m_n_deleted` and `m_size_prime_index`.
  - The descriptor's `hash` and `equal` are function fields.
  - The descriptor's `remove` is recorded in a ghost multiset `disposed`.
  - Its invariant `Valid()` says:
    - the size is the prime at the size index;
    - the counters are the counts of the slot array;
    - fewer slots are used than exist, so an Empty slot always remains and every probe loop ends.

Slot pointers are slot indices. Places where the source aborts are modelled as results:

- `clear_slot` returns `aborted`.
- `find_empty_slot_for_expand` returns `None`.
- `expand` returns `ok == false` when no prime is large enough.
- `find_slot_with_hash` returns `None` in that case too. There the source aborts inside `expand`; the `NULL` its documentation allows is for an allocation failure, which is not modelled.

The INSERT protocol has two steps:

- An INSERT lookup that misses leaves the reserved slot Empty but counted (`Reserved`).
- `Store` is the caller's `*slot = value`.

## Model

| member | source | states |
|---|---|---|
| PrimeService.HigherPrimeIndex | gcc/hash-table.h:318 | a returned index lies in the table of primes and its prime is at least n |
| PrimeService.HigherPrimeIndexFirst | gcc/hash-table.h:318 | the index returned is the first whose prime is at least n; None means every prime is below n (the service would abort) |
| PrimeService.Mod1 | gcc/hash-table.h:319 | the start slot is below the table size |
| PrimeService.Mod2 | gcc/hash-table.h:320 | the probe increment is at least 1 and below the table size |
| PrimeService.ModFormulas | gcc/hash-table.h:319-320 | the start slot is hash mod p and the increment is 1 + hash mod (p - 2) |
| Probing.Step | gcc/hash-table.h:534-545 | `index += hash2; if (index >= size) index -= size` keeps the index below the size |
| Probing.StepIsMod | gcc/hash-table.h:673-678 | wrapping by one subtraction is the sum modulo the size |
| Probing.ProbeNext | gcc/hash-table.h:719-724 | each probe of a search is one wrapped step on from the previous one |
| Probing.ProbeClosedForm | gcc/hash-table.h:719-736 | the k-th probe is (start + k * increment) mod size |
| Probing.ProbeAtCovers | gcc/hash-table.h:719-736 | in a table of prime size every slot is among the first size probes, so a search reaches any Empty slot |
| Probing.ProbeAtInjective | gcc/hash-table.h:719-736 | the first size probes of a search are pairwise distinct |
| Probing.Step32 | gcc/hash-table.h:676-678 | the step as written on 32-bit `hashval_t` still lands below the size |
| Probing.Step32Agrees | gcc/hash-table.h:536-538 | below 2^31 slots the 32-bit step equals the intended step |
| Probing.Step32Wraps | gcc/hash-table.h:722-724 | above 2^31 slots the 32-bit sum wraps and the step lands on a different slot |
| Slots.LiveCounts | gcc/hash-table.h:359 | live slots plus tombstones are the used slots, so `m_n_elements - m_n_deleted` is the live count and never negative |
| Slots.LiveValuesCount | gcc/hash-table.h:359 | the multiset of live values has as many members as there are live slots |
| Slots.KillSlotCounts | gcc/hash-table.h:650-651 | a live slot turned into a tombstone keeps the used count, adds one tombstone and removes one live slot |
| Slots.KillSlot | gcc/hash-table.h:648-650 | a live slot turned into a tombstone removes exactly its value from the live values |
| Slots.ReuseTombstoneCounts | gcc/hash-table.h:744-745 | a tombstone turned back into Empty uncounts one used slot and one tombstone and keeps the live count |
| Slots.ReuseTombstone | gcc/hash-table.h:744-745 | a tombstone turned back into Empty keeps the live values |
| Slots.FillSlot | gcc/hash-table.h:597 | a value written into an Empty slot adds one used and one live slot and adds that value to the live values |
| Slots.SpareSlotIsEmpty | gcc/hash-table.h:702-703 | fewer used slots than slots means some slot is Empty |
| Slots.CountsAllEmpty | gcc/hash-table.h:631-633 | an all-Empty slot array has zero counts and no live values |
| Slots.NoDeletedCounts | gcc/hash-table.h:585-586 | a slot array without tombstones has a tombstone count of 0 |
| Slots.LiveValueIn | gcc/hash-table.h:431 | the value of a live slot, which `*it` yields, is one of the table's live values |
| Slots.RemovedIsLive | gcc/hash-table.h:615-617 | the removal loop, from the last slot down, hands `remove` exactly the live values |
| Search.SearchFrom | gcc/hash-table.h:673-685 | a search ends no earlier than where it starts, and where it ends within the table the slot is Empty or a matching live value |
| Search.SearchSkips | gcc/hash-table.h:680-684 | a search passes only over tombstones and non-matching live values |
| Search.Lookup | gcc/hash-table.h:658-686 | a found slot holds a live value that `equal` matches |
| Search.SearchEnds | gcc/hash-table.h:673-685 | in a table of prime size with an Empty slot, a search ends within size probes |
| Search.LookupIsFirstMatch | gcc/hash-table.h:658-686 | the lookup returns the first matching live value on the probe path, skipping tombstones, or not-found at the first Empty slot |
| Search.FirstDeletedProbe | gcc/hash-table.h:729-733 | the remembered probe lies before the given one and meets a tombstone |
| Search.FirstDeletedIsFirst | gcc/hash-table.h:729-733 | no earlier probe meets a tombstone; with none remembered, no probe so far met one |
| Search.ReserveSlotChoice | gcc/hash-table.h:738-750 | an INSERT miss reserves the earliest tombstone before the final Empty slot if there is one, else that Empty slot; the reserved slot is not live |
| Search.LookupAfterStore | gcc/hash-table.h:742-750 | after an INSERT miss, writing a matching value into the reserved slot makes the lookup find it there |
| Search.LookupAfterRemove | gcc/hash-table.h:762-769 | when only the found slot matches, turning it into a tombstone makes the lookup report not-found |
| Search.LookupFindsFindable | gcc/hash-table.h:658-686 | a matching value on its probe path with no Empty slot before it is always found: the search passes over tombstones and other values |
| Search.LookupFoundIsFindable | gcc/hash-table.h:711-735 | the slot a lookup returns lies on the probe path with no Empty slot before it |
| Search.ReachableIsFindable | gcc/hash-table.h:591-598 | a slot reached over live slots only, as expand places values, is findable |
| Search.FindableKept | gcc/hash-table.h:650-651 | a value stays findable through any change that turns no used slot Empty |
| Search.PlacedIsAllFindable | gcc/hash-table.h:591-598 | a table as expand leaves it has every live value findable from its own hash |
| Search.DeleteKeepsAllFindable | gcc/hash-table.h:650-651 | turning a live slot into a tombstone keeps every other value findable from its own hash |
| Search.StoreKeepsAllFindable | gcc/hash-table.h:692-693 | writing v into the slot an INSERT lookup for v's hash returns (the hit, or the reserved slot of a miss) keeps every value findable and makes v findable there |
| Search.PointerLookupAfterRemove | gcc/hash-table.h:762-769 | with `pointer_hash` equality, after one stored pointer is removed every other stored pointer is still found by its own hash |
| Search.PointerLookupFindsStored | gcc/hash-table.h:294-300 | with `pointer_hash` equality, in a table whose values are all findable, looking up a stored pointer by its own hash finds a slot holding that pointer |
| Search.FreeFrom | gcc/hash-table.h:528-545 | the free-slot search ends no earlier than where it starts, at a slot that is not live |
| Search.FreeSkips | gcc/hash-table.h:534-545 | the free-slot search passes over live slots only |
| Search.FreeSlotPlaces | gcc/hash-table.h:519-546 | without tombstones and with an Empty slot, the free-slot search does not abort, returns an Empty slot, and a value written there is reachable from its hash |
| Search.PlaceStep | gcc/hash-table.h:591-598 | one reinsertion of expand keeps the table tombstone-free and every value reachable, counts one more used slot and adds the value to the live values |
| Search.RemoveAsWritten | gcc/hash-table.h:762-769 | as written: a hit becomes a tombstone of the found live slot, the Empty-slot early return is dead code, and every miss dereferences NULL |
| Search.RemoveFromEmptyTableDereferencesNull | gcc/hash-table.h:739-740 | removing any key from a table of five Empty slots dereferences NULL as written |
| Scan.LiveBetweenIsLiveSlots | gcc/hash-table.h:821-826 | the listed slots of a range are exactly its live slots, in increasing order |
| Scan.NextLive | gcc/hash-table.h:821-828 | slide stops at the first live slot of the range, or finds none |
| Scan.NextLiveHead | gcc/hash-table.h:815-829 | sliding loses no live slot: the live slots of a range are the next live slot followed by the live slots after it |
| Scan.CallsArePrefix | gcc/hash-table.h:781-795 | a traversal calls back on a prefix of the live slots in array order; every callback but the last returned true, so it stops at the first that returns false; it stops early only after a callback returned false, and visits all of them when none does |
| HashTables.HashTable.constructor | gcc/hash-table.h:487-500 | a new table has the first prime size not below the requested size, all slots Empty and both counters 0 |
| HashTables.HashTable.Elements | gcc/hash-table.h:359 | `elements ()` is the number of live slots |
| HashTables.HashTable.FindWithHash | gcc/hash-table.h:658-686 | returns the value in the slot the lookup finds, or None, and changes nothing |
| HashTables.HashTable.ClearSlot | gcc/hash-table.h:642-652 | aborts unless the slot is in range and live; otherwise disposes of that one value, makes exactly that slot a tombstone and counts it; every other value stays findable |
| HashTables.HashTable.Store | gcc/hash-table.h:393-394 | writing a value into a reserved or found slot changes only that slot and restores the invariant |
| HashTables.HashTable.FindEmptySlotForExpand | gcc/hash-table.h:519-546 | returns the first non-live slot on the probe path if it is Empty; None where the source aborts on a tombstone |
| HashTables.HashTable.Expand | gcc/hash-table.h:555-605 | resizes to the first prime for twice the live count only when too full or too sparse, else keeps the size; aborts only when no prime is large enough; afterwards no tombstones, the old live count, the same live values, each reachable from its hash |
| HashTables.HashTable.Rebuild | gcc/hash-table.h:580-602 | the new slot array has the chosen prime size and holds exactly the old live values, with no tombstones |
| HashTables.HashTable.Reinsert | gcc/hash-table.h:588-602 | the reinsertion loop moves every live value of the old array to a reachable slot of the new one, with no tombstones |
| HashTables.HashTable.SearchSlot | gcc/hash-table.h:705-751 | a hit returns its slot and changes nothing; a NO_INSERT miss returns None and changes nothing; an INSERT miss reserves the slot ReserveSlot names and keeps the live count |
| HashTables.HashTable.ProbePath | gcc/hash-table.h:707-736 | the probe loop stops where the lookup ends and remembers the earliest tombstone passed |
| HashTables.HashTable.Reserve | gcc/hash-table.h:738-750 | an INSERT miss reuses the earliest tombstone (uncounting it) or counts the final Empty slot; the live count is kept |
| HashTables.HashTable.FindSlotWithHash | gcc/hash-table.h:696-751 | expands first when INSERT finds the table three quarters used, into a fresh slot array that keeps the live values, placed and without tombstones, at the size index of the first prime not below twice the live values when the size must change and at the same size otherwise; without expansion the slot array, size and size index stay; a hit or NO_INSERT miss changes nothing; an INSERT miss reserves a slot and `elements ()` grows by exactly one |
| HashTables.HashTable.RemoveEltWithHash | gcc/hash-table.h:757-770 | a found value is disposed of and its slot becomes a tombstone; a miss changes nothing; every other value stays findable |
| HashTables.HashTable.RemoveAll | gcc/hash-table.h:615-617 | every live value is handed to `remove` |
| HashTables.HashTable.Clear | gcc/hash-table.h:609-634 | disposes every live value and leaves all slots Empty with zero counts; shrinks a table above 1024*1024/sizeof (PTR) slots, clears a smaller one in place |
| HashTables.HashTable.ResetSlots | gcc/hash-table.h:619-633 | a large table gets a new slot array of the first prime not below 1024/sizeof (PTR); a small one is cleared in place; both counts become 0 |
| HashTables.HashTable.TraverseNoresize | gcc/hash-table.h:776-795 | the slots called back are exactly those `Calls` lists, and nothing changes |
| HashTables.HashTable.Traverse | gcc/hash-table.h:800-813 | expands first exactly when fewer than an eighth of more than 32 slots are live, and that expansion cannot fail, leaving every value placed without tombstones at the first prime not below twice the live values; the live values are kept |
| HashTables.HashTable.Begin | gcc/hash-table.h:444-449 | the iterator points into the table's slot array with the limit at its end, and will visit every live slot in array order |
| HashTables.HashTable.End | gcc/hash-table.h:451 | the end iterator has both pointers NULL and nothing to visit |
| Iterators.Iterator.Finished | gcc/hash-table.h:426 | the default iterator has both pointers NULL |
| Iterators.Iterator.constructor | gcc/hash-table.h:428-429 | the iterator holds the given slot and limit |
| Iterators.Iterator.Slide | gcc/hash-table.h:817-829 | moves to the first live slot before the limit, or makes both pointers NULL; the live slots still to visit are unchanged |
| Iterators.Iterator.Next | gcc/hash-table.h:833-840 | `++` consumes exactly the current live slot and stays on the same slot array and limit |
| Iterators.Iterator.Current | gcc/hash-table.h:431 | `*it` is the value of the first slot still to visit |
| Iterators.Iterator.Differs | gcc/hash-table.h:434-437 | the pointers differ; against `end ()`, exactly while live slots remain |

## Left out

- Memory allocation: `xcallocator`, `data_alloc` and `data_free` are modelled as `new` arrays. An allocation failure (`gcc_assert`) is not modelled.
- `typed_free_remove` and every descriptor's `remove` are recorded as the ghost multiset `disposed`. They do not free anything.
- `~hash_table` is modelled only through its removal loop (`RemoveAll`). The destructor itself is not a member.
- `m_searches`, `m_collisions` and `collisions ()` are left out. They are debugging statistics, and `collisions ()` returns a `double`.
- `size ()` and `elements_with_deleted ()` are left out. They are plain field reads.
- `find`, `find_slot` and `remove_elt` are left out. They only pass `Descriptor::hash (value)` to the `_with_hash` operations.
- The `FOR_EACH_HASH_TABLE_ELEMENT` macro is left out. It is call-site sugar over `begin`, `end`, `!=`, `*` and `++`.
- `pointer_hash`'s hash (the address shifted right by 3) is left out, because it depends on pointer representation. `equal` as pointer identity is modelled, in `Search.PointerLookupFindsStored`.
- The values of `prime_tab` are left out. The table of primes is a parameter, required to hold primes of at least 5.
- The bodies of the extern functions `hash_table_higher_prime_index`, `hash_table_mod1` and `hash_table_mod2` are left out. libiberty's `hashtab.c` is not part of this model. Mod1 and Mod2 are given the formulas h mod p and 1 + h mod (p - 2). The source computes them through the precomputed inverses, which is not modelled.
- `hashval_t`, `size_t` and `unsigned int` widths are not modelled by the table operations. Indices and counts are unbounded; the 32-bit probe step is modelled separately under Findings.
- Callbacks of `traverse` that modify the table are left out. A callback is a pure function of the slot index and value.
- `sizeof (PTR)` is fixed at 8, a 64-bit host (`PtrSize`).
- Iterators invalidated by a later change to the table are left out. An iterator reads the slot array it was made from.
- HashTables.HashTable.constructor: requires a prime at least as large as the requested size, instead of modelling `hash_table_higher_prime_index`'s abort.
- HashTables.HashTable.ClearSlot: its ensures give the new slot array and counters. The change to the live values is stated by `Slots.KillSlot` about that slot array.
- HashTables.HashTable.RemoveEltWithHash: its ensures give the new slot array and counters. The change to the live values is stated by `Slots.KillSlot`, and the lookup afterwards by `Search.LookupAfterRemove`.
- HashTables.HashTable.Store: its ensures give the new slot array. The live values after an INSERT round trip are stated by `Slots.FillSlot` and `Search.LookupAfterStore`.
- That every value is findable from its own hash (`Search.AllFindable`) is not part of `Valid()`. An INSERT miss that reuses a tombstone writes Empty into it (gcc/hash-table.h:745), so values behind that slot are not findable until the caller stores into it. Findability is stated across the whole insert-and-store by `Search.StoreKeepsAllFindable`, and `ClearSlot` and `RemoveEltWithHash` keep it.
- HashTables.HashTable.Clear: states that every slot is Empty with zero counts. That the live values are then empty follows from `Slots.CountsAllEmpty`.

## Findings

| source | as written | input that shows it | evidently intended | confidence | as-written member | corrected member |
|---|---|---|---|---|---|---|
| gcc/hash-table.h:762-764 | `remove_elt_with_hash` reads `*slot` from a NO_INSERT lookup, which returns NULL on a miss (lines 739-740) | any key absent from the table, e.g. key 3 with hash 7 in a table of five Empty slots | do nothing when the key is absent, as the documentation at lines 399-401 says | not executed | Search.RemoveFromEmptyTableDereferencesNull | HashTables.HashTable.RemoveEltWithHash |
| gcc/hash-table.h:676-678 | `index += hash2` is computed in 32-bit `hashval_t` before the `index >= size` test | size 4294967291, index 4294967290, increment 4294967289: the sum wraps and the step gives slot 4294967283 instead of 4294967288 | the sum modulo the table size | not executed | Probing.Step32Wraps | Probing.Step |
