# Copy-on-write small vector, modelled in Dafny

`vector<T>` of vector.h is a dynamic array with two storage layers.

- **Small-object layer.** The storage is a two-alternative variant. Alternative 1 holds a single element inside the vector. Alternative 0 holds a pointer to a heap block, and a null pointer means the vector is empty.
- **Copy-on-write layer.** A heap block has a header of size, capacity and reference counter, followed by its element slots. Copying or assigning a vector makes both vectors point at one block and raises the counter. Destroying a vector or moving it to another block lowers the counter, and the block is freed when the counter reaches zero. Element access through the mutable `operator[]` first gives the writer a private copy of a shared block (`copy_if_necessary`).

The model has four modules.

- `HeapBlock` (block.dfy): the heap block as a class `Block` whose `size`, `capacity` and `refcount` fields are the header words. The slots are an `array` allocated with the block, and a `freed` flag stands for the memory having been returned. It also holds `free_check` (`Block.Release`), `std::uninitialized_copy` (`CopyRange`) and `allocate_and_copy` (`AllocateAndCopy`).
- `CowVector` (vector.dfy): the variant as the datatype `Storage` (`Ptr(p)` with a possibly-null `Block`, or `Inline(value)`) and the class `Vector` whose one field is that variant.
  - Every mutator is a method whose postcondition states the new contents, and for each path the new header of the block and what happened to the old block.
  - The observers are functions over the ghost `Contents()`.
  - The element moves of `insert` and `erase` are array methods proved against the sequence functions `Inserted` and `Erased`. `CopyRange` (the element copy) and `AssignDown` (the assignment loop of `erase`) are loops with invariants; `CopyAround`, `ShiftTail` and `ShiftLongTail` compose them.
- `Relational` (relational.dfy): the six free comparison operators over the element sequences. The element type's `operator<` is passed in as a comparator `lt`. Lemmas prove that `<` is the textbook lexicographic order, and that the six operators agree with each other whenever `lt` is a strict total order.
- `Scenarios` (scenarios.dfy): client runs whose postconditions state the resulting contents, counters and capacities.
  - the assignment / write / push sequence of main.cpp;
  - copy independence of element writes for every vector;
  - a run for each point below where vector.h departs from copy-on-write, except the return value of `insert`, which the model does not follow.

Iterators are indices. Element values are unconstrained: `T(0)` only says a slot always holds some value, as uninitialised memory does.

The code is modelled as written where it departs from plain copy-on-write semantics. Each such point is stated in the member's contract and doc comment:

- `allocate_and_copy` gives the new block the counter of the block it copies (vector.h:717, 725), so growing or reserving a shared vector yields a block whose counter exceeds its number of holders.
- `push_back`'s in-place path, `pop_back` and the mutable `front()`/`back()` have no copy-on-write gate. Their changes show through every vector sharing the block.
- `insert` before the single inline element yields `[old, v]`.
- `insert` returns a position computed from an iterator into the old block. The model returns the insertion index.
- The range constructor on an empty range makes a non-null block of capacity 0. The next `push_back` goes inline and drops that block without releasing it.

The written code writes outside the memory it means to in three places:

- the under-allocating copy of `copy_if_necessary` (vector.h:736-739), listed under Findings; the rest of the model uses the corrected copy;
- the range constructor, which copies the elements over the block header (vector.h:278), listed under Left out;
- `erase` on a shared block, whose iterators still point into the shared block after `copy_if_necessary` (vector.h:526-561), listed under Left out.

## Model

| member | source | states |
|---|---|---|
| HeapBlock.Block.constructor | vector.h:713-718 | a fresh block of `n` slots with size 0, capacity `n`, counter 1 |
| HeapBlock.Block.Acquire | vector.h:266-269 | the counter rises by one; size, capacity and the in-use state are kept |
| HeapBlock.Block.Release | vector.h:666-671 | `free_check`: the counter drops by one; the block is freed exactly when it reaches 0; size and capacity are kept |
| HeapBlock.CopyRange | vector.h:726 | `uninitialized_copy`: the destination range holds the old source range (also when both are one array and the copy moves towards the front); the rest of the destination is unchanged |
| HeapBlock.AllocateAndCopy | vector.h:713-732 | a fresh valid block of capacity `sz`; from null it is empty with counter 1, otherwise it holds the source's elements and, as written, the source's counter |
| CowVector.Inserted | vector.h:470-506 | the sequence one longer with `v` at `k`, earlier elements in place and later ones one up |
| CowVector.Erased | vector.h:521-574 | the sequence `j - i` shorter, elements before `i` in place and those from `j` on moved down to `i` |
| CowVector.GrownCapacity | vector.h:351-370 | capacity after one `push_back`: above the old size, never below the old capacity, and equal to it while there is room |
| CowVector.InsertThenErase | vector.h:470-574 | erasing the element just inserted at `k` gives back the original sequence |
| CowVector.InsertAtEnd | vector.h:471-474 | inserting at the end is appending |
| CowVector.EraseEmptyRange | vector.h:522-524 | erasing an empty range changes nothing |
| CowVector.Vector.Empty | vector.h:428-431 | true exactly when the contents are empty (null pointer, or a block of size 0) |
| CowVector.Vector.Size | vector.h:433-435 | the number of elements: 0 for null, 1 inline, the header size otherwise |
| CowVector.Vector.Capacity | vector.h:462-464 | at least the size; for a block, its recorded capacity, which equals its slot count |
| CowVector.Vector.At | vector.h:316-321 | the element at index `i` |
| CowVector.Vector.Front | vector.h:330-335 | the first element |
| CowVector.Vector.Back | vector.h:344-349 | the last element |
| CowVector.Vector.constructor | vector.h:250 | the null pointer: no elements, capacity 0 |
| CowVector.Vector.Copy | vector.h:262-270 | same storage and contents as `other`, whose block gains one holder |
| CowVector.Vector.FromRange | vector.h:272-284 | contents equal the range; one element inline, otherwise a fresh block with capacity the range length and counter 1 (capacity 0 for an empty range) |
| CowVector.Vector.Dispose | vector.h:252-260 | inline becomes null; a block is released, and freed if this was its last holder |
| CowVector.Vector.Assign | vector.h:286-298 | contents and storage become `other`'s; the old block is released, the new one gains a holder; self-assignment and assignment between vectors already sharing a block change no counter |
| CowVector.Vector.Swap | vector.h:576-578 | the two variants, and so the two contents, are exchanged |
| CowVector.Vector.CopyIfNecessary | vector.h:734-750 | afterwards the block has counter 1, same contents and recorded capacity; a shared block is replaced by a fresh one and released, keeping its elements |
| CowVector.Vector.CopyIfNecessaryAsWritten | vector.h:734-750 | on a shared block, the private copy has `size` slots while recording the old capacity; on an unshared block the storage and the block are left as they are |
| CowVector.Vector.Set | vector.h:307-314 | contents become `old[i := x]`, capacity kept; an inline vector stays inline; an unshared block is written in place; afterwards a block always has counter 1; a shared block is left with one holder less and unchanged elements |
| CowVector.Vector.SetFront | vector.h:323-328 | contents become `old[0 := x]`; an inline vector stays inline; a block is written in place with no copy |
| CowVector.Vector.SetBack | vector.h:337-342 | contents become `old[n-1 := x]`; an inline vector stays inline; a block is written in place with no copy |
| CowVector.Vector.OnlyPushBack | vector.h:698-707 | the first free slot of the current block holds `a`; nothing else changes |
| CowVector.Vector.AllocateAndPushBack | vector.h:632-664 | a fresh block of twice the capacity holding the old elements then `a`; counter 1 from inline, the old block's counter otherwise; the old block is released |
| CowVector.Vector.PushBack | vector.h:351-370 | contents become `old + [a]` and capacity `GrownCapacity`; per path: inline with the capacity-0 block untouched, fresh block with counter 1, fresh block inheriting the counter, or the same block grown in place |
| CowVector.Vector.PopBack | vector.h:372-380 | contents lose their last element; inline becomes null; a block keeps its identity, capacity and counter, and its size drops by one |
| CowVector.Vector.Convert | vector.h:437-449 | the inline element moves to a fresh block of capacity 1 with counter 1 |
| CowVector.Vector.Reserve | vector.h:451-460 | contents kept; nothing changes unless `cap` exceeds the capacity, and then the capacity is exactly `cap` in a fresh block and the old block is released |
| CowVector.Vector.Insert | vector.h:470-515 | returns `k`; capacity is `GrownCapacity`; at the end contents become `old + [v]` with every path of `push_back`: from capacity 0 the element goes inline, from inline to a fresh block with counter 1, and the old block is left untouched at capacity 0, released after a growth that inherits its counter, or grown in place; before the end, on a block they become `Inserted(old, k, v)` in a fresh block with counter 1 and the old block is released; inline they become `[old, v]` |
| CowVector.Vector.InsertInBlock | vector.h:475-505 | contents become `Inserted(old, k, v)` in a fresh block with counter 1 and capacity `GrownCapacity`; the old block is released |
| CowVector.Vector.InsertInline | vector.h:507-514 | contents become `[old, v]` in a fresh block of capacity 2 |
| CowVector.Vector.Erase | vector.h:521-574 | returns `first`; contents become `Erased(old, first, last)`; an empty range changes nothing; inline becomes null; a block ends with counter 1 and the same capacity; an unshared block is kept and erased in place, a shared block is released unchanged |
| CowVector.Vector.EraseInBlock | vector.h:525-571 | the block's elements become `Erased(old, first, last)`; capacity and counter are kept |
| CowVector.Vector.EraseAt | vector.h:517-519 | the element at `k` is removed and `k` returned; inline becomes null; an unshared block is kept, a shared block is released unchanged, and the vector ends on a block with counter 1 and the same capacity |
| CowVector.BuildInserted | vector.h:476-502 | a fresh valid block with counter 1, capacity `GrownCapacity`, elements `Inserted(old, k, v)` |
| CowVector.CopyAround | vector.h:479-497 | the front of the destination holds `Inserted(src[..n], k, v)` |
| CowVector.ShiftTail | vector.h:533-568 | slots before `first` are kept and `first ..` holds the old tail `a[last..n]` |
| CowVector.ShiftLongTail | vector.h:549-567 | the same as ShiftTail, for a tail longer than the gap |
| CowVector.AssignDown | vector.h:559-561 | the loop moves `a[src..end]` down to `dest`; every other slot keeps its value |
| CowVector.Swap | vector.h:755-758 | the two vectors' variants and contents are exchanged |
| Relational.Less | vector.h:770-773 | `operator<`; its meaning is stated by LessIsLexicographic and the order lemmas below |
| Relational.LessEq | vector.h:775-778 | `operator<=`; ComparisonsConsistent ties it to Less (not `b < a`) |
| Relational.Greater | vector.h:780-783 | `operator>`; ComparisonsConsistent ties it to Less and LessEq |
| Relational.GreaterEq | vector.h:785-788 | `operator>=`; ComparisonsConsistent ties it to Less (not `a < b`) |
| Relational.Equal | vector.h:760-763 | true exactly when the two sequences are equal |
| Relational.NotEqual | vector.h:765-768 | true exactly when the two sequences differ |
| Relational.LessIsLexicographic | vector.h:770-773 | under a strict total order, `<` holds exactly when there is a first position where `a` has ended or is smaller |
| Relational.LessIrreflexive | vector.h:770-773 | no sequence is smaller than itself |
| Relational.LessTrichotomy | vector.h:770-773 | exactly one of `a < b`, `a == b`, `b < a` |
| Relational.LessTransitive | vector.h:770-773 | `<` is transitive |
| Relational.ComparisonsConsistent | vector.h:775-788 | `<=` is not-`>`, `>` is not-`<=`, `>=` is not-`<`, and exactly one of `<`, `==`, `>` holds |
| Relational.LessEqAntisymmetric | vector.h:775-778 | `a <= b` and `b <= a` imply `a == b` |
| Scenarios.AssignedPair | main.cpp:25-32 | after `b = a`, both vectors are on `a`'s block of capacity 4, which now has counter 2 |
| Scenarios.MainScenario | main.cpp:25-41 | after `b = a; b[1] = 0; b.push_back(6)`, `a` is 1 2 3 with its own block and `b` is 1 0 3 6 |
| Scenarios.CopyThenWrite | vector.h:307-314 | for every vector `a`: after `b` copies `a` and writes `b[i]`, `a` is unchanged and `b` is `a[i := x]` |
| Scenarios.CopyThenPushBack | vector.h:351-370 | for every vector `a`: after `b` copies `a` and pushes `x`, `a` also gains `x` when it had room, and is unchanged when it was full |
| Scenarios.PushBackShowsThroughAlias | vector.h:366-369 | a push onto a copy with room shows in the original |
| Scenarios.InsertAtEndShowsThroughAlias | vector.h:471-473 | `insert` at the end of a copy with room shows in the original, as `push_back` does |
| Scenarios.EraseAtCopyLeavesOriginal | vector.h:517-526 | the model's erase by index on a copy leaves the original 1 2 3 on its block, back to counter 1; vector.h itself does not (see Left out) |
| Scenarios.SetFrontShowsThroughAlias | vector.h:323-328 | a write through the mutable `front()` of a copy shows in the original |
| Scenarios.SetBackShowsThroughAlias | vector.h:337-342 | a write through the mutable `back()` of a copy shows in the original |
| Scenarios.PopBackShowsThroughAlias | vector.h:372-380 | a pop from a copy shows in the original |
| Scenarios.GrowthInheritsCounter | vector.h:652-663 | growing a copy yields a block that still has counter 1 after its only holder is destroyed |
| Scenarios.EmptyRangeBlockLeaks | vector.h:272-284 | after `push_back` onto an empty-range vector the old block is not freed and keeps counter 1 |
| Scenarios.InlineInsertAtFront | vector.h:507-514 | inserting 2 before the inline 1 gives 1 2 |
| Scenarios.InsertThenEraseRestores | vector.h:470-574 | insert then erase at the same index gives back 1 2 3 |
| Scenarios.InlineThenPromoted | vector.h:351-370 | the first push goes inline with capacity 1, the second to a block of capacity 2 with counter 1 |
| Scenarios.SharedBlockFreedByLastHolder | vector.h:252-260 | a shared block survives its first holder's destruction and is freed by the second |
| Scenarios.UnderAllocatedCopy | vector.h:734-750 | the as-written copy of a shared 3-element block records capacity 4 over 3 slots |
| Scenarios.CorrectedCopyKeepsRoom | vector.h:734-750 | the corrected copy has 4 slots for capacity 4 |

## Left out

- Exceptions and rollback: element copies are taken to succeed, so every `try`/`catch` path (for example vector.h:354-359, 478-501, 541-566, 635-660, 727-730) is not modelled.
- The byte layout of a block (the three header words before the slots, `reinterpret_cast`, `operator new`/`operator delete`, vector.h:584-630, 678-680, 709-711): a block is an object with fields and a slot array.
- CowVector.Vector.FromRange: the source copies the range to the start of the raw allocation, where the header lives, instead of to the slots (vector.h:278), so the header writes that follow overwrite the first elements. With no byte layout the model stores the range in the slots.
- CowVector.Vector.Erase: with indices for iterators, erase acts on the intended positions even on a shared block. In the source, `first` and `last` still point into the shared block after `copy_if_necessary` has moved the vector to its private copy (vector.h:526-538), so the `end()` test and the offsets mix two allocations. On a shared block the source's erase then writes into the block that the other holders still use: `last == end()` is false, `end() - last` wraps, and `data() + begin_size` lands back in the shared block (vector.h:535-561).
- CowVector.Vector.Insert: returns the insertion index `k`, not the value computed at vector.h:505 from an iterator into the released block.
- Element construction and destruction side effects (`construct`, `std::destroy`, the instance counter `cnt` of main.cpp:8-22): they are sequence updates, and destroyed slots simply keep their old values.
- Iterators, reverse iterators, `data()`, `begin()`/`end()` (vector.h:10-234, 382-426): positions are indices.
- `assign` (vector.h:301-305): it returns a value from a `void` function and does not compile once instantiated.
- `shrink_to_fit`, `resize` and `clear`: vector.h names them only in a comment (vector.h:466-468). The model has no such operations.
- Thread safety: the counter is a plain integer and the model is sequential.
- Scenarios.EraseAtCopyLeavesOriginal: states the model's erase by index. In vector.h the same run writes into the original's block through the stale iterators (vector.h:526-561), so the source does not leave the original as it was.
- Console output in main.cpp: MainScenario states the printed contents as postconditions.
- The element type's `operator<` is the comparator parameter `lt`. The order lemmas assume it is a strict total order.
- The element type's `operator==` is Dafny equality (`T(==)`). An element `operator==` that is not an equivalence, or that disagrees with `lt`, is not modelled; LessTrichotomy and ComparisonsConsistent rely on this choice.
- CowVector.Vector.Assign: requires that two distinct vectors sharing a block see a counter of at least 2. The counter never undercounts holders, but the model does not track the global set of holders, so this is a precondition.
- CowVector.Vector.PopBack, Front, Back and At: callers must supply a non-empty vector or an index below the size, as the source assumes without checking.
- Integer widths: sizes and counters are unbounded naturals. `size_t` wrap-around is not modelled. It arises from `pop_back` on an empty block, and from `end() - last` in `erase` on a shared block (vector.h:535).

## Findings

| source | as written | input that shows it | evidently intended | confidence | as-written member | corrected member |
|---|---|---|---|---|---|---|
| vector.h:736-739 | the private copy of a shared block allocates room for `size` elements but records the old `capacity` | main.cpp:25-34: `a` is 1 2 3 with capacity 4, `b = a`, `b[1] = 0` copies into 3 slots marked capacity 4, then `b.push_back(6)` sees room and writes a fourth slot that was never allocated | allocate `capacity` slots, so the header matches the allocation | high; not executed | CowVector.Vector.CopyIfNecessaryAsWritten (shown by Scenarios.UnderAllocatedCopy) | CowVector.Vector.CopyIfNecessary (shown by Scenarios.CorrectedCopyKeepsRoom) |
