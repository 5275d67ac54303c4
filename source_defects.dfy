/** The removal code as written, next to the corrected behaviour the rest of
    the model uses (StableIndexSpec.AfterRemove and StableIndex.View.Find).
    Each defect comes with a concrete state that shows it. */
module SourceDefects {
  import opened IndexTypes
  import opened OrderedSeq
  import opened StableIndexSpec

  datatype Option<T> = None | Some(value: T)

  /** The cursor the free-list loop of `stable_index_remove` leaves behind:
      one below the position the freed slot was inserted at, so -1 when the
      slot went to the bottom of the list. */
  function RemoveCursor(free: seq<nat>, idx: nat): (c: int)
    ensures -1 <= c < |free|
    ensures c == -1 <==> forall j :: j in free ==> j < idx
  {
    BottomExactlyAboveAll(free, idx);
    InsertPosition(free, idx, Descending) - 1
  }

  /** The freed slot goes to the bottom of the descending free list exactly
      when it is above every free slot. */
  lemma BottomExactlyAboveAll(free: seq<nat>, idx: nat)
    ensures InsertPosition(free, idx, Descending) == 0 <==> forall j :: j in free ==> j < idx
  {
    InsertPositionBounds(free, idx, Descending);
    var p := InsertPosition(free, idx, Descending);
    if p > 0 {
      assert free[p - 1] in free;
    } else {
      forall j | j in free ensures j < idx {
        var m :| 0 <= m < |free| && free[m] == j;
      }
    }
  }

  /** A free list of distinct slot indices is no longer than the capacity. */
  lemma FreeFits(st: IndexState)
    requires Shape(st)
    ensures |st.free| <= st.capacity
  {
    OrderedCard(st.free, Descending);
    BelowSpec(st.capacity);
    assert ElementSet(st.free) <= Below(st.capacity);
    SubsetCard(ElementSet(st.free), Below(st.capacity));
  }

  /** The search of `stable_index_view_remove` as written, over the
      `capacity` cells of a view's buffer, reads past the buffer exactly when
      the view fills it and `idx` is in none of its cells. */
  function SearchOverruns(members: seq<nat>, capacity: nat, idx: nat): (b: bool)
    ensures b <==> |members| >= capacity && idx !in members[..capacity]
  {
    if |members| < capacity then false
    else
      var buf := members[..capacity];
      SearchFromSpec(buf, capacity, idx, 0);
      assert idx in buf <==> exists m :: 0 <= m < capacity && buf[m] == idx;
      ViewSearchAsWritten(buf, capacity, idx).None?
  }

  /** `stable_index_remove` as written: the free list and the generation are
      updated as intended, but each view is tested with the view mask
      containing the mask of slot `RemoveCursor`, a free-list position, where
      the slot's own mask containing the view mask was meant. `None` when the
      code as written reads or writes outside a buffer:
      - the free list already fills the `capacity` cells of `available`, so
        the shift or the final write stores one cell past the buffer;
      - there is a view to test and the cursor is -1, so the test reads
        before the start of `masks`;
      - a view that passes the test fills its buffer without holding `idx`,
        so the search as written reads one cell past that buffer. */
  function AfterRemoveAsWritten(st: IndexState, idx: nat): (r: Option<IndexState>)
    requires Shape(st) && idx < st.capacity
    ensures r.None? <==>
              |st.free| >= st.capacity ||
              (|st.views| > 0 && forall j :: j in st.free ==> j < idx) ||
              (RemoveCursor(st.free, idx) >= 0 &&
               exists k :: 0 <= k < |st.views| &&
                 MaskContains(st.views[k].mask, st.masks[RemoveCursor(st.free, idx)]) &&
                 |st.views[k].members| >= st.capacity && idx !in st.views[k].members[..st.capacity])
    ensures r.Some? ==> r.value.free == AfterRemove(st, idx).free &&
                        r.value.generations == AfterRemove(st, idx).generations &&
                        r.value.masks == st.masks && |r.value.views| == |st.views|
  {
    var c := RemoveCursor(st.free, idx);
    FreeFits(st);
    if |st.free| >= st.capacity || (|st.views| > 0 && c == -1) then None
    else if 0 <= c && (exists k :: 0 <= k < |st.views| &&
                         MaskContains(st.views[k].mask, st.masks[c]) &&
                         SearchOverruns(st.views[k].members, st.capacity, idx)) then None
    else
      Some(st.(free := Insert(st.free, idx, Descending),
               generations := st.generations[idx := Next(st.generations[idx])],
               views := seq(|st.views|, k requires 0 <= k < |st.views| =>
                              if MaskContains(st.views[k].mask, st.masks[c])
                              then ViewState(st.views[k].mask, RemoveFirst(st.views[k].members, idx))
                              else st.views[k])))
  }

  /** Slot 0, with mask 3, in use and in the view for mask 1. */
  function FreedSlotExample(): IndexState {
    IndexState(2, [1], [0, 0], [3, 0], [ViewState(1, [0])], 1)
  }

  /** Removing slot 0 as written tests whether 1 contains 3, leaves slot 0 in
      the view after it is freed, and so breaks the invariant. */
  lemma RemoveAsWrittenKeepsFreedSlot()
    ensures var st := FreedSlotExample();
            WellFormed(st) && Complete(st) && InUse(st, 0) &&
            AfterRemoveAsWritten(st, 0) == Some(IndexState(2, [1, 0], [1, 0], [3, 0], [ViewState(1, [0])], 1)) &&
            !WellFormed(AfterRemoveAsWritten(st, 0).value)
  {
    var st := FreedSlotExample();
    assert MaskContains(3, 1) && !MaskContains(1, 3);
    assert Insert([1], 0, Descending) == [1, 0] by {
      assert InsertPosition([1], 0, Descending) == 1;
    }
    assert RemoveCursor(st.free, 0) == 0;
    var bad := AfterRemoveAsWritten(st, 0).value;
    assert bad.views == [ViewState(1, [0])];
    assert bad.generations == [1, 0];
    assert bad == IndexState(2, [1, 0], [1, 0], [3, 0], [ViewState(1, [0])], 1);
    assert !InUse(bad, 0);
    assert !ViewSound(bad, bad.views[0]);
  }

  /** The corrected removal of slot 0 empties the view and keeps the
      invariant. */
  lemma RemoveCorrectedEmptiesView()
    ensures var st := FreedSlotExample();
            AfterRemove(st, 0).views == [ViewState(1, [])] && WellFormed(AfterRemove(st, 0))
  {
    var st := FreedSlotExample();
    assert MaskContains(3, 1);
    assert RemoveFirst([0], 0) == [];
    assert InUse(st, 0);
    assert ViewSound(st, st.views[0]);
    RemovePreserves(st, 0);
  }

  /** Slot 2 is in use and above every free slot, so it goes to the bottom of
      the free list and the cursor ends at -1: removing it as written reads
      `masks[-1]`. */
  lemma RemoveAsWrittenReadsBeforeMasks()
    ensures var st := IndexState(3, [1], [0, 0, 0], [0, 0, 0], [ViewState(0, [0, 2])], 1);
            WellFormed(st) && Complete(st) && InUse(st, 2) &&
            AfterRemoveAsWritten(st, 2) == None &&
            WellFormed(AfterRemove(st, 2))
  {
    var st := IndexState(3, [1], [0, 0, 0], [0, 0, 0], [ViewState(0, [0, 2])], 1);
    assert MaskContains(0, 0);
    RemovePreserves(st, 2);
  }

  /** The search loop of `stable_index_view_remove` as written, from position
      `i`: it reads `buf[i]` before it tests `i < size`. `None` when that read
      falls outside the buffer; otherwise the position it stops at. */
  function SearchFrom(buf: seq<nat>, size: nat, idx: nat, i: nat): (r: Option<nat>)
    decreases |buf| - i
  {
    if i >= |buf| then None
    else if buf[i] == idx || i >= size then Some(i)
    else SearchFrom(buf, size, idx, i + 1)
  }

  /** The whole search as written: within a buffer the view fits, it faults
      exactly when the view fills the buffer and lacks `idx`, and otherwise
      stops at the first `idx` or at `size`. */
  function ViewSearchAsWritten(buf: seq<nat>, size: nat, idx: nat): (r: Option<nat>)
    ensures size <= |buf| ==>
              (r.None? <==> size == |buf| && forall m :: 0 <= m < size ==> buf[m] != idx)
    ensures size <= |buf| && r.Some? ==>
              r.value <= size && (forall m :: 0 <= m < r.value ==> buf[m] != idx) &&
              (r.value < size ==> buf[r.value] == idx)
  {
    SearchFromSpec(buf, size, idx, 0);
    SearchFrom(buf, size, idx, 0)
  }

  /** From a position inside the view, the search as written reads outside
      the buffer exactly when the view fills its buffer and `idx` is not
      among the positions left; otherwise it stops where the corrected search
      stops. */
  lemma {:induction false} SearchFromSpec(buf: seq<nat>, size: nat, idx: nat, i: nat)
    ensures size <= |buf| && i <= size ==>
              (SearchFrom(buf, size, idx, i).None? <==>
                 size == |buf| && forall m :: i <= m < size ==> buf[m] != idx)
    ensures size <= |buf| && i <= size && SearchFrom(buf, size, idx, i).Some? ==>
              var r := SearchFrom(buf, size, idx, i).value;
              i <= r <= size && (forall m :: i <= m < r ==> buf[m] != idx) &&
              (r < size ==> buf[r] == idx)
    decreases |buf| - i
  {
    if i < size <= |buf| && buf[i] != idx {
      SearchFromSpec(buf, size, idx, i + 1);
    }
  }

  /** A full view that does not hold `idx`: the search as written reads
      `indices[size]`, one past the buffer. */
  lemma ViewSearchAsWrittenOverruns()
    ensures ViewSearchAsWritten([0], 1, 5) == None
  {
  }

  /** Defect 1 makes the search overrun reachable by removing slots in use
      only. From a fresh index of capacity 3 with one view for mask 1:
      `create_mask(3)`, `create_mask(0)`, `remove(0)`, `create_mask(3)`,
      `remove(0)`, `create_mask(1)`. Each `remove(0)` leaves slot 0 in the
      view and each re-create adds it again, so the view fills its buffer with
      `[0, 0, 0]`. Removing slot 1, which is in use, then tests that view and
      searches it past its end. */
  lemma RemoveAsWrittenReachesSearchOverrun()
    ensures var s0 := IndexState(3, [2, 1, 0], [0, 0, 0], [0, 0, 0], [ViewState(1, [])], 1);
            var s1 := IndexState(3, [2], [0, 0, 0], [3, 0, 0], [ViewState(1, [0])], 1);
            var b := IndexState(3, [2, 0], [1, 0, 0], [3, 0, 0], [ViewState(1, [0])], 1);
            var s2 := IndexState(3, [2], [1, 0, 0], [3, 0, 0], [ViewState(1, [0, 0])], 1);
            var c := IndexState(3, [2, 0], [2, 0, 0], [3, 0, 0], [ViewState(1, [0, 0])], 1);
            var s3 := IndexState(3, [2], [2, 0, 0], [1, 0, 0], [ViewState(1, [0, 0, 0])], 1);
            AfterAddView(InitState(3, 1), 1) == s0 &&
            AfterCreate(AfterCreate(s0, 3), 0) == s1 &&
            AfterRemoveAsWritten(s1, 0) == Some(b) &&
            AfterCreate(b, 3) == s2 &&
            AfterRemoveAsWritten(s2, 0) == Some(c) &&
            AfterCreate(c, 1) == s3 &&
            InUse(s3, 1) && AfterRemoveAsWritten(s3, 1) == None
  {
    TraceStart();
    TraceFirstCreates();
    TraceFirstRemove();
    TraceRecreate();
    TraceSecondRemove();
    TraceThirdCreate();
    TraceSearchOverrun();
  }

  lemma TraceStart()
    ensures AfterAddView(InitState(3, 1), 1) ==
            IndexState(3, [2, 1, 0], [0, 0, 0], [0, 0, 0], [ViewState(1, [])], 1)
  {
    assert Countdown(3) == [2, 1, 0];
  }

  lemma TraceFirstCreates()
    ensures var s0 := IndexState(3, [2, 1, 0], [0, 0, 0], [0, 0, 0], [ViewState(1, [])], 1);
            AfterCreate(AfterCreate(s0, 3), 0) ==
            IndexState(3, [2], [0, 0, 0], [3, 0, 0], [ViewState(1, [0])], 1)
  {
    var s0 := IndexState(3, [2, 1, 0], [0, 0, 0], [0, 0, 0], [ViewState(1, [])], 1);
    assert MaskContains(3, 1) && !MaskContains(0, 1);
    assert Insert([], 0, Ascending) == [0];
    var a := AfterCreate(s0, 3);
    assert a == IndexState(3, [2, 1], [0, 0, 0], [3, 0, 0], [ViewState(1, [0])], 1);
  }

  lemma TraceFirstRemove()
    ensures AfterRemoveAsWritten(IndexState(3, [2], [0, 0, 0], [3, 0, 0], [ViewState(1, [0])], 1), 0) ==
            Some(IndexState(3, [2, 0], [1, 0, 0], [3, 0, 0], [ViewState(1, [0])], 1))
  {
    var st := IndexState(3, [2], [0, 0, 0], [3, 0, 0], [ViewState(1, [0])], 1);
    assert !MaskContains(1, 3);
    assert InsertPosition([2], 0, Descending) == 1;
    assert Insert([2], 0, Descending) == [2, 0];
    assert RemoveCursor([2], 0) == 0;
    assert forall k :: 0 <= k < |st.views| ==> !MaskContains(st.views[k].mask, st.masks[0]);
    var r := AfterRemoveAsWritten(st, 0).value;
    assert r.views == [ViewState(1, [0])];
    assert r.generations == [1, 0, 0];
  }

  lemma TraceRecreate()
    ensures AfterCreate(IndexState(3, [2, 0], [1, 0, 0], [3, 0, 0], [ViewState(1, [0])], 1), 3) ==
            IndexState(3, [2], [1, 0, 0], [3, 0, 0], [ViewState(1, [0, 0])], 1)
  {
    assert MaskContains(3, 1);
    assert InsertPosition([0], 0, Ascending) == 1;
    assert Insert([0], 0, Ascending) == [0, 0];
  }

  lemma TraceSecondRemove()
    ensures AfterRemoveAsWritten(IndexState(3, [2], [1, 0, 0], [3, 0, 0], [ViewState(1, [0, 0])], 1), 0) ==
            Some(IndexState(3, [2, 0], [2, 0, 0], [3, 0, 0], [ViewState(1, [0, 0])], 1))
  {
    var st := IndexState(3, [2], [1, 0, 0], [3, 0, 0], [ViewState(1, [0, 0])], 1);
    assert !MaskContains(1, 3);
    assert InsertPosition([2], 0, Descending) == 1;
    assert Insert([2], 0, Descending) == [2, 0];
    assert RemoveCursor([2], 0) == 0;
    assert forall k :: 0 <= k < |st.views| ==> !MaskContains(st.views[k].mask, st.masks[0]);
    var r := AfterRemoveAsWritten(st, 0).value;
    assert r.views == [ViewState(1, [0, 0])];
    assert r.generations == [2, 0, 0];
  }

  lemma TraceThirdCreate()
    ensures AfterCreate(IndexState(3, [2, 0], [2, 0, 0], [3, 0, 0], [ViewState(1, [0, 0])], 1), 1) ==
            IndexState(3, [2], [2, 0, 0], [1, 0, 0], [ViewState(1, [0, 0, 0])], 1)
  {
    assert MaskContains(1, 1);
    assert InsertPosition([0, 0], 0, Ascending) == 2;
    assert Insert([0, 0], 0, Ascending) == [0, 0, 0];
  }

  lemma TraceSearchOverrun()
    ensures var s3 := IndexState(3, [2], [2, 0, 0], [1, 0, 0], [ViewState(1, [0, 0, 0])], 1);
            InUse(s3, 1) && AfterRemoveAsWritten(s3, 1) == None
  {
    var s3 := IndexState(3, [2], [2, 0, 0], [1, 0, 0], [ViewState(1, [0, 0, 0])], 1);
    assert MaskContains(1, 1);
    assert InsertPosition([2], 1, Descending) == 1;
    assert RemoveCursor([2], 1) == 0;
    assert s3.views[0].members[..3] == [0, 0, 0];
  }
}
