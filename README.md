# Generational stable index

A model of the generational stable index of the `ctri` game engine: a
fixed-capacity slot allocator that hands out handles `{index, generation}`.

- **Free list.** `available[0..availiable_size)` holds the free slots in
  strictly descending order, so the lowest free slot is always on top
  (last).
- **Generations.** Each slot has a 32-bit generation. Removing the slot
  bumps it modulo 2^32, so handles issued before the removal no longer
  match.
- **Masks.** Each slot has a 16-bit category mask.
- **Views.** A bounded list of registered views. Each view keeps, in
  ascending order and in a buffer of the index's capacity, only slots in use
  whose mask contains the view's filter mask. A view registered before any
  matching slot is in use holds all of them (`Complete`). `add_view` does
  not back-fill, so a view registered later misses the matching slots
  already in use.
  - `create_mask` inserts the new slot into the views by shifting their
    tails.
  - `stable_index_remove` takes the slot out of the views by linear search
    and compaction.

Modules, one file each:

- `IndexTypes` (`index_types.dfy`): the value types of `src/index.h`.
  - handles, view keys, the `unsigned short` mask with `mask_contains`;
  - the wrapping `unsigned int` generation step.
- `OrderedSeq` (`ordered_seq.dfy`): the two in-place sequence edits the
  index performs, stated as functions with their lemmas. They are insertion
  by tail shifting into an ordered sequence, and removal of the first
  occurrence.
- `StableIndexSpec` (`stable_index_spec.dfy`): the abstract state, the
  transition of each operation, and the invariant every transition keeps.
  - The state is the free list, generations, masks, views and the view bound.
  - The invariant `WellFormed`: the free list is strictly descending and in
    range, and every view is strictly ascending and holds only slots in use
    whose mask contains the view mask.
  - The optional invariant `Complete`: every view holds every such slot.
- `StableIndex` (`stable_index.dfy`): the index as a class over arrays
  (`available`, `generations`, `masks`) and a sequence of `View` objects,
  each with its own `indices` array.
  - The loops are written as in the C code.
  - Every method is proved to follow its transition in `StableIndexSpec`
    (`State() == AfterCreate(old(State()), mask)` and so on).
  - Every method keeps `Valid()`, which includes `WellFormed(State())`.
- `SourceDefects` (`source_defects.dfy`): the two defects of the removal
  code as written, with the concrete inputs that show them (see Findings).

I/O goes as follows. The `printf` diagnostics are dropped. `malloc` becomes
Dafny allocation (`new`), and allocation failure is not modelled. Nothing
else in the core touches I/O, clocks or randomness.

## Model

| member | source | states |
|---|---|---|
| IndexTypes.MaskContains | src/index.h:82-85 | `a` contains `b` when `a & b == b`: every bit set in `b` is set in `a`; its properties are the four lemmas below |
| IndexTypes.MaskContainsBits | src/index.h:82-85 | `a` contains `b` exactly when every single bit set in `b` is also set in `a` |
| IndexTypes.MaskContainsZero | src/index.h:82-85 | every mask contains the empty mask, so a view with mask 0 receives every created slot |
| IndexTypes.MaskContainsReflexive | src/index.h:82-85 | every mask contains itself |
| IndexTypes.MaskContainsTransitive | src/index.h:82-85 | containment of masks is transitive |
| IndexTypes.Next | src/index.c:162 | the generation after a removal is `(g + 1) mod 2^32` and differs from `g` |
| OrderedSeq.InsertPosition | src/index.c:142-145 | where the shifting loop puts the new element: walking back from the end past every element the new one precedes; it lies within the sequence |
| OrderedSeq.Insert | src/index.c:156-161 | the sequence with the new element written into the gap the loop opens, one element longer |
| OrderedSeq.InsertPositionBounds | src/index.c:142-145 | every element from the insertion point on follows `x`; the element just before it does not |
| OrderedSeq.InsertPositionUnique | src/index.c:142-145 | a cursor with those two properties is the insertion point, so it is where the shifting loop stops |
| OrderedSeq.InsertMultiset | src/index.c:142-148 | the shifting insertion adds exactly one copy of the new element and keeps all others |
| OrderedSeq.InsertMembers | src/index.c:142-148 | after insertion the members are the old members plus the new element |
| OrderedSeq.InsertOrdered | src/index.c:142-148 | inserting a new element into a strictly ordered sequence keeps it strictly ordered |
| OrderedSeq.RemoveFirst | src/index.c:181-194 | the view without its first occurrence of `idx`: one shorter when `idx` is present, unchanged when it is absent |
| OrderedSeq.RemoveFirstMultiset | src/index.c:181-194 | removal takes out exactly one copy of `x` when there is one, and nothing otherwise |
| OrderedSeq.RemoveFirstAt | src/index.c:190-192 | compacting the tail over the first occurrence of `x` is the removal of `x`, with the other elements in their order |
| OrderedSeq.RemoveFirstOrdered | src/index.c:181-194 | removal from a strictly ordered sequence keeps it ordered and leaves exactly the other members |
| OrderedSeq.OrderedOnce | src/index.c:156-161 | a strictly ordered list holds each element once |
| OrderedSeq.OrderedFitsBelow | src/index.c:143-147 | a strictly ordered sequence of indices below `n` that misses one of them is shorter than `n`, so the write at position `size` stays in bounds |
| StableIndex.ShiftUp | src/index.c:140-145 | the shifting loop stops at the insertion point; below it the array is unchanged and above it every element moved up one place |
| StableIndex.InsertShifting | src/index.c:140-148 | after shifting and writing `x` into the gap, the first `n + 1` elements are the ordered insertion of `x` |
| StableIndex.CompactOver | src/index.c:190-192 | the compaction loop leaves the first `n - 1` elements equal to the old ones without position `i` |
| StableIndex.View.constructor | src/index.c:78-83 | a new view has the given mask, a fresh buffer of the index's capacity and no members |
| StableIndex.View.Add | src/index.c:138-149 | `size` grows by one and the members become the ordered insertion of `idx` |
| StableIndex.View.Find | src/index.c:179-188 | the search stops at the first position holding `idx`, or at `size` when there is none; it tests the bound before it reads |
| StableIndex.View.Remove | src/index.c:177-195 | an absent `idx` leaves the view unchanged; otherwise its first occurrence goes, `size` drops by one, and the others keep their order |
| StableIndex.StableIndex.Init | src/index.c:37-63 | the state is the initial state: free list `capacity-1, ..., 0`, generations and masks 0, no views |
| StableIndex.StableIndex.RemainingCap | src/index.c:8-10 | returns the length of the free list, which plus the number of slots in use is the capacity |
| StableIndex.StableIndex.AddView | src/index.c:65-88 | with `viewCapacity` views registered, returns null and changes nothing; otherwise appends a fresh empty view with the given mask and the index's capacity |
| StableIndex.StableIndex.AppendView | src/index.c:74-85 | the view list grows by the new view, keyed by its mask and position, and the abstract views by an empty view |
| StableIndex.StableIndex.GetView | src/index.c:90-99 | returns the first registered view whose key mask equals `mask`, or null exactly when none does |
| StableIndex.StableIndex.AddToViewAt | src/index.c:121-124 | view `j` receives the slot when the slot mask contains its mask; the other views are unchanged |
| StableIndex.StableIndex.InsertIntoViews | src/index.c:120-125 | every view receives the slot when the slot mask contains its mask, and only then |
| StableIndex.StableIndex.CreateMask | src/index.c:105-136 | returns the created handle of the old state and moves to the create transition; with an empty free list, returns `{0, 0}` and changes nothing |
| StableIndex.StableIndex.Create | src/index.c:101-103 | `create_mask` with mask 0 |
| StableIndex.StableIndex.PushFree | src/index.c:153-161 | the free list becomes the descending insertion of the freed slot and its size grows by one |
| StableIndex.StableIndex.RemoveFromViewAt | src/index.c:166-168 | view `j` loses the slot when the slot mask contains its mask; the other views are unchanged |
| StableIndex.StableIndex.RemoveFromAllViews | src/index.c:165-169 | every view loses the slot when the slot mask contains its mask, and only then |
| StableIndex.StableIndex.Remove | src/index.c:152-175 | moves to the remove transition: the slot goes back on the free list, its generation is bumped, and it leaves the views |
| StableIndexSpec.InitState | src/index.c:37-57 | the state `init` builds; its properties are in `Countdown` and `InitEstablishes` |
| StableIndexSpec.Countdown | src/index.c:51-55 | the initial free list has `available[k] == capacity - 1 - k` |
| StableIndexSpec.InitEstablishes | src/index.c:37-63 | the initial state keeps both invariants and has no slot in use |
| StableIndexSpec.FailureHandleIsFirstHandle | src/index.c:107-117 | the failure result `{0, 0}` is also the first handle a fresh index hands out |
| StableIndexSpec.WellFormed | src/index.c:49-57 | the invariant: array sizes and the view bound hold, the free list `available[0..availiable_size)` is strictly descending and in range, and every view is strictly ascending and holds only slots in use whose mask contains the view mask (the order the insertions of src/index.c:113-128 and 153-163 keep) |
| StableIndexSpec.Complete | src/index.c:120-125 | every view holds every slot in use whose mask contains its mask, which create (src/index.c:120-125) and remove (src/index.c:165-169) keep and `add_view` (src/index.c:65-88) does not establish |
| StableIndex.StableIndex.Valid | src/index.c:37-57 | the class invariant: the arrays have the index's capacity and are distinct, each view object has its own buffer of that capacity and holds the members of its abstract view, the view keys match the views, and the abstract state is `WellFormed` |
| StableIndexSpec.MembershipExact | src/index.c:120-125 | with both invariants, a slot is in a view exactly when it is in use and its mask contains the view mask, and no view outgrows the capacity |
| StableIndexSpec.AfterAddView | src/index.c:65-88 | the `add_view` transition: no change at the view bound, otherwise one more empty view with the given mask; its properties are in `AddViewPreserves` |
| StableIndexSpec.AddViewPreserves | src/index.c:65-88 | registering a view keeps the invariant; the views stay complete when no slot in use matches the new mask |
| StableIndexSpec.AddViewDoesNotBackfill | src/index.c:77-85 | for every well-formed state with room for a view: when some slot in use has a mask containing the new view mask, the views after registering are not complete |
| StableIndexSpec.CreatedHandle | src/index.c:107-117 | the handle `create_mask` returns: `{0, 0}` on an empty free list, otherwise the top slot with its generation; its properties are in `CreateAllocatesLowest` |
| StableIndexSpec.AddToView | src/index.c:121-124 | one view after a create: the new slot inserted in order when the slot mask contains the view mask, otherwise unchanged |
| StableIndexSpec.AddToViews | src/index.c:120-125 | every view after a create, one per old view |
| StableIndexSpec.AfterCreate | src/index.c:105-136 | the `create_mask` transition: pop the top, set its mask, update the views; it keeps the shape of the state |
| StableIndexSpec.Top | src/index.c:113 | the top of a non-empty free list is a free slot in range |
| StableIndexSpec.PopTop | src/index.c:113-128 | popping the top takes out exactly the top slot |
| StableIndexSpec.CreateAllocatesLowest | src/index.c:113-128 | a create hands out the lowest free slot with its current generation, puts exactly it in use, sets its mask only, keeps the generations, and shortens the free list by one |
| StableIndexSpec.CreateUpdatesViews | src/index.c:120-125 | the new slot joins exactly the views whose mask the new mask contains; the other views are unchanged |
| StableIndexSpec.ViewHasRoom | src/index.c:142-147 | before a create, every view has room for one more slot |
| StableIndexSpec.ViewsHaveRoom | src/index.c:120-125 | before a create, all views have room at once |
| StableIndexSpec.CreateKeepsView | src/index.c:120-125 | a create keeps each view sound, and complete if it was |
| StableIndexSpec.CreatePreserves | src/index.c:105-136 | a create keeps the invariant and keeps the views complete |
| StableIndexSpec.NoReuseUntilFreed | src/index.c:113-128 | two creates in a row hand out different slots |
| StableIndexSpec.RemoveFromView | src/index.c:166-168 | one view after a remove: the slot taken out when the slot mask contains the view mask, otherwise unchanged |
| StableIndexSpec.RemoveFromViews | src/index.c:165-169 | every view after a remove, one per old view |
| StableIndexSpec.AfterRemoveUnchecked | src/index.c:152-169 | the remove transition for any slot in range: ordered free-list insertion, wrapped generation bump, removal from the views. It matches the source only while the free list has room; on a full free list the source writes past `available` instead (see `DoubleRemoveCorruptsFreeList`) |
| StableIndexSpec.RemoveKeepsShape | src/index.c:152-163 | freeing a slot that is not free keeps the free list strictly descending and in range |
| StableIndexSpec.AfterRemove | src/index.c:152-169 | the remove transition, which keeps the shape of the state when the slot was not free |
| StableIndexSpec.FreeHasRoom | src/index.c:156-161 | while a slot is in use the free list has room for it |
| StableIndexSpec.RemoveFreesSlot | src/index.c:152-169 | removal frees exactly that slot and takes it out of every view; it bumps that generation only, keeps the masks, and lengthens the free list by one |
| StableIndexSpec.RemoveInvalidatesHandle | src/index.h:92-94 | after removal, the removed handle's generation no longer matches the slot |
| StableIndexSpec.RemoveKeepsView | src/index.c:165-169 | a remove keeps each view sound, and complete if it was |
| StableIndexSpec.RemovePreserves | src/index.c:152-175 | a remove keeps the invariant and keeps the views complete |
| StableIndexSpec.RemoveThenCreateReuses | src/index.c:152-163 | a freed slot below every free slot is handed out by the next create, with the bumped generation |
| StableIndexSpec.DoubleRemoveCorruptsFreeList | src/index.c:152-161 | removing a slot that is already free leaves the free list out of order, holding that slot twice; when every slot was free, that list has `capacity + 1` entries, one more than `available` holds, so the source writes past the buffer |
| StableIndexSpec.RemainingPlusInUse | src/index.c:8-10 | the free slots and the slots in use partition the capacity |
| SourceDefects.RemoveCursor | src/index.c:153-159 | the cursor the free-list loop leaves behind lies in `[-1, size)` and is -1 exactly when the freed slot is above every free slot |
| SourceDefects.BottomExactlyAboveAll | src/index.c:153-159 | the freed slot goes to the bottom of the free list exactly when it is above every free slot |
| SourceDefects.AfterRemoveAsWritten | src/index.c:152-169 | the removal as written faults exactly when the free list already fills `available` (the shift or final write lands one past the buffer), when there is a view and the cursor is -1 (the test reads `masks[-1]`), or when a view passing its test fills its buffer without holding `idx` (the search reads one past that buffer); otherwise its free list and generations are the intended ones |
| SourceDefects.SearchOverruns | src/index.c:177-188 | the search as written, over the `capacity` cells of a view, reads past them exactly when the view fills them and `idx` is in none of them |
| SourceDefects.RemoveAsWrittenReachesSearchOverrun | src/index.c:152-194 | from a fresh index with one view, six calls (creates, and removes of slots in use) reach a state where the view holds `[0, 0, 0]` in its three cells, and removing slot 1, which is in use, searches that view past its end |
| SourceDefects.RemoveAsWrittenKeepsFreedSlot | src/index.c:165-169 | in a concrete well-formed state, the removal as written leaves a freed slot in a view and breaks the invariant |
| SourceDefects.RemoveCorrectedEmptiesView | src/index.c:165-169 | in the same state, the corrected removal empties the view and keeps the invariant |
| SourceDefects.RemoveAsWrittenReadsBeforeMasks | src/index.c:153-166 | in a concrete well-formed state, the removal as written reads `masks[-1]` |
| SourceDefects.SearchFrom | src/index.c:179-183 | the search loop as written from position `i`, reading the buffer before testing the bound; `None` for a read past the buffer |
| SourceDefects.ViewSearchAsWritten | src/index.c:179-183 | within a buffer the view fits, the search as written faults exactly when the view fills the buffer and lacks `idx`, and otherwise stops at the first `idx` or at `size` |
| SourceDefects.SearchFromSpec | src/index.c:179-183 | the search as written reads past the buffer exactly when the view fills its buffer and lacks `idx`; otherwise it stops where the corrected search stops |
| SourceDefects.ViewSearchAsWrittenOverruns | src/index.c:181-183 | a full one-element view without `idx` makes the search as written read `indices[1]` |

## Left out

- Debug printing (`_stable_index_print`, `_stable_index_view_print`) and the `printf` diagnostics are output only; they are dropped.
- `stable_index_delete` only frees memory; it is dropped.
- `stable_index_view_update` is declared in `src/index.h` but never defined; there is nothing to model.
- Allocation failure of `malloc` is not modelled.
- The contents of freshly allocated buffers are not modelled either; only the `[0, size)` prefixes are ever read once the search tests its bound first.
- The `view_keys` buffer is allocated with the size of a view rather than a key. This over-allocation has no visible effect and is not modelled.
- The physics, world, rendering and entry-point code (`src/common.c`, `src/world.c`, `src/main.c`) is not part of this model. It is floating-point and graphics glue that calls into the index.
- StableIndex.StableIndex.Init: requires `capacity <= 0x7FFF_FFFF` and `viewCapacity <= 0x7FFF_FFFF`. The loops run signed 32-bit cursors over the free list, the view buffers (src/index.c:140, 153) and the view list (src/index.c:92, 120, 165), and the source states no bound of its own.
- StableIndex.StableIndex.Remove: requires the slot to be in use, which the source never checks. StableIndexSpec.DoubleRemoveCorruptsFreeList shows what removing a free slot does. The generation of the handle is not read by the source and is not required to match.
- StableIndexSpec.AfterCreate: on a state the as-written removal has corrupted, a full view can receive one more member. There `view_add` writes past the view buffer, and the model lengthens the view instead. `StableIndexSpec.ViewHasRoom` proves room only for well-formed states, which the corrected model keeps.
- StableIndexSpec.AfterRemoveUnchecked: does not model the write past `available` when a free slot is removed from a full free list (src/index.c:157, 161). It lengthens the list instead. `DoubleRemoveCorruptsFreeList` states that the result then does not fit, and `SourceDefects.AfterRemoveAsWritten` returns `None` for it.
- StableIndex.StableIndex.Remove: uses the intended view test, "the slot's mask contains the view mask", instead of the test as written (Findings, first row).
- StableIndex.View.Remove: its search tests the bound before it reads the buffer (Findings, second row). As written, the code reads one slot past a full buffer.
- Generations are not claimed to grow without bound: they wrap modulo 2^32 (`IndexTypes.Next`).
- `get_view` returns a pointer into the index's view array; the model returns the `View` object. The views are objects held in a sequence rather than structs in one array.
- `size_t` and `unsigned int` counters are unbounded naturals. Within the two bounds `Init` requires, only the generation's wrap-around is observable.

## Findings

| source | as written | input that shows it | evidently intended | confidence | as-written member | corrected member |
|---|---|---|---|---|---|---|
| src/index.c:166 | each view is tested with `mask_contains(views[j].mask, masks[i])`. `i` is the cursor the free-list loop leaves behind, and the arguments are in the reverse of the order `create_mask` uses | slot 0 has mask 3, sits in the view for mask 1, and the free list is `[1]`: the removal tests whether 1 contains 3, so slot 0 stays in the view after it is freed. Also: slot 2 in use with free list `[1]` and one view leaves the cursor at -1, which reads `masks[-1]`. The first defect also makes the second reachable through removes of slots in use only (`SourceDefects.RemoveAsWrittenReachesSearchOverrun`) | `mask_contains(masks[handle.index], views[j].mask)`, the test `create_mask` uses | high, not executed | SourceDefects.AfterRemoveAsWritten | StableIndexSpec.AfterRemove |
| src/index.c:181 | the search reads `indices[i]` before it tests `i < size` | a full view with capacity 1 and `indices == [0]`, searched for 5: the loop reads `indices[1]`. A full view without the slot arises from removes of slots in use (see the first row): with capacity 3 and a view for mask 1, `create_mask(3)`, `create_mask(0)`, `remove(0)`, `create_mask(3)`, `remove(0)`, `create_mask(1)` leave the view at `[0, 0, 0]`, and `remove` of slot 1 then reads `indices[3]` | test `i < size` first | high, not executed | SourceDefects.ViewSearchAsWrittenOverruns | StableIndex.View.Find |
