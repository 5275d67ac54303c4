/** The abstract state of a stable index and the state transitions of its
    operations, with the invariants each transition keeps. The class in
    module StableIndex is proved to follow these transitions. */
module StableIndexSpec {
  import opened IndexTypes
  import opened OrderedSeq

  /** A registered view: its filter mask and its members `indices[0..size)`. */
  datatype ViewState = ViewState(mask: Mask, members: seq<nat>)

  /** The free list is `available[0..availiable_size)`, top of the stack last. */
  datatype IndexState = IndexState(
    capacity: nat,
    free: seq<nat>,
    generations: seq<u32>,
    masks: seq<Mask>,
    views: seq<ViewState>,
    viewCapacity: nat)

  /** A slot is in use when it is not on the free list. */
  predicate InUse(st: IndexState, i: nat) {
    i < st.capacity && i !in st.free
  }

  /** The slots in use, as a set. */
  function InUseSet(st: IndexState): set<nat> {
    set i | i in Below(st.capacity) && InUse(st, i)
  }

  /** Array sizes, the view bound, and a strictly descending free list of
      slot indices (so the lowest free slot is on top). */
  predicate Shape(st: IndexState) {
    |st.generations| == st.capacity && |st.masks| == st.capacity &&
    st.capacity <= MaxCapacity && |st.views| <= st.viewCapacity &&
    StrictlyOrdered(st.free, Descending) &&
    (forall x :: x in st.free ==> x < st.capacity)
  }

  /** A view holds, in strictly ascending order, only slots in use whose mask
      contains the view's mask. */
  predicate ViewSound(st: IndexState, v: ViewState)
    requires |st.masks| == st.capacity
  {
    StrictlyOrdered(v.members, Ascending) &&
    forall x :: x in v.members ==> InUse(st, x) && MaskContains(st.masks[x], v.mask)
  }

  /** A view holds every slot in use whose mask contains the view's mask. */
  predicate ViewComplete(st: IndexState, v: ViewState)
    requires |st.masks| == st.capacity
  {
    forall i: nat :: i < st.capacity && InUse(st, i) && MaskContains(st.masks[i], v.mask) ==> i in v.members
  }

  /** The invariant every operation keeps. */
  predicate WellFormed(st: IndexState) {
    Shape(st) && forall k :: 0 <= k < |st.views| ==> ViewSound(st, st.views[k])
  }

  /** Every view is complete. Kept by create and remove; a view registered
      while matching slots are in use starts out incomplete. */
  predicate Complete(st: IndexState)
    requires Shape(st)
  {
    forall k :: 0 <= k < |st.views| ==> ViewComplete(st, st.views[k])
  }

  /** With both invariants, view membership is exactly "in use and the slot's
      mask contains the view's mask", and a view never outgrows its buffer. */
  lemma MembershipExact(st: IndexState, k: nat, i: nat)
    requires WellFormed(st) && Complete(st) && k < |st.views|
    ensures i in st.views[k].members <==> InUse(st, i) && MaskContains(st.masks[i], st.views[k].mask)
    ensures |st.views[k].members| <= st.capacity
  {
    assert ViewSound(st, st.views[k]) && ViewComplete(st, st.views[k]);
    var m := st.views[k].members;
    if i in m {
      assert InUse(st, i);
    }
    if |m| > 0 {
      OrderedFitsBelow(m, Ascending, st.capacity + 1, st.capacity);
    }
  }

  /** The free indices `capacity-1, ..., 1, 0`. */
  function Countdown(n: nat): (s: seq<nat>)
    ensures |s| == n
    ensures forall k :: 0 <= k < n ==> s[k] == n - 1 - k
  {
    if n == 0 then [] else [n - 1] + Countdown(n - 1)
  }

  function InitState(capacity: nat, viewCapacity: nat): (r: IndexState) {
    IndexState(capacity, Countdown(capacity), seq(capacity, _ => 0), seq(capacity, _ => 0), [], viewCapacity)
  }

  /** A fresh index keeps the invariants, and no slot is in use. */
  lemma InitEstablishes(capacity: nat, viewCapacity: nat)
    requires capacity <= MaxCapacity
    ensures WellFormed(InitState(capacity, viewCapacity))
    ensures Complete(InitState(capacity, viewCapacity))
    ensures forall i: nat :: !InUse(InitState(capacity, viewCapacity), i)
  {
    var st := InitState(capacity, viewCapacity);
    forall i: nat | i < capacity ensures i in st.free {
      assert st.free[capacity - 1 - i] == i;
    }
  }

  /** The failure result `{0, 0}` of a create is also the first handle a
      fresh index of any positive capacity hands out. */
  lemma FailureHandleIsFirstHandle(capacity: nat, viewCapacity: nat)
    requires capacity <= MaxCapacity
    ensures CreatedHandle(InitState(0, viewCapacity)) == Handle(0, 0)
    ensures 0 < capacity ==> CreatedHandle(InitState(capacity, viewCapacity)) == Handle(0, 0)
  {
    InitEstablishes(capacity, viewCapacity);
  }

  function AfterAddView(st: IndexState, mask: Mask): (r: IndexState) {
    if |st.views| >= st.viewCapacity then st
    else st.(views := st.views + [ViewState(mask, [])])
  }

  /** Registering a view keeps the invariant. The new view starts empty, so
      the views stay complete only when no slot in use matches its mask. */
  lemma AddViewPreserves(st: IndexState, mask: Mask)
    requires WellFormed(st)
    ensures WellFormed(AfterAddView(st, mask))
    ensures Complete(st) && (forall i: nat :: InUse(st, i) ==> !MaskContains(st.masks[i], mask))
            ==> Complete(AfterAddView(st, mask))
  {
    var st' := AfterAddView(st, mask);
    assert forall k :: 0 <= k < |st.views| ==> st'.views[k] == st.views[k];
  }

  /** `add_view` does not back-fill: a view registered while a slot in use
      has a mask containing the new view's mask starts out incomplete. */
  lemma AddViewDoesNotBackfill(st: IndexState, mask: Mask, i: nat)
    requires WellFormed(st) && |st.views| < st.viewCapacity
    requires InUse(st, i) && MaskContains(st.masks[i], mask)
    ensures !Complete(AfterAddView(st, mask))
  {
    AddViewPreserves(st, mask);
    var st' := AfterAddView(st, mask);
    assert !ViewComplete(st', st'.views[|st.views|]);
  }

  /** The top of the free list. */
  function Top(st: IndexState): (r: nat)
    requires Shape(st) && |st.free| > 0
    ensures r in st.free && r < st.capacity
  {
    assert st.free[|st.free| - 1] in st.free;
    st.free[|st.free| - 1]
  }

  /** What `create_mask` returns: the top of the free list with its current
      generation, or `{0, 0}` when the free list is empty. */
  function CreatedHandle(st: IndexState): (h: Handle)
    requires Shape(st)
  {
    if |st.free| == 0 then Handle(0, 0)
    else Handle(Top(st), st.generations[Top(st)])
  }

  /** `idx` inserted into view `v` when the new slot mask contains the
      view's mask. */
  function AddToView(v: ViewState, idx: nat, mask: Mask): (r: ViewState) {
    if MaskContains(mask, v.mask) then ViewState(v.mask, Insert(v.members, idx, Ascending))
    else v
  }

  /** `idx` inserted into every view whose mask the new slot mask contains. */
  function AddToViews(vs: seq<ViewState>, idx: nat, mask: Mask): (r: seq<ViewState>)
    ensures |r| == |vs|
  {
    seq(|vs|, k requires 0 <= k < |vs| => AddToView(vs[k], idx, mask))
  }

  function AfterCreate(st: IndexState, mask: Mask): (r: IndexState)
    requires Shape(st)
    ensures Shape(r)
  {
    if |st.free| == 0 then st
    else
      var idx := Top(st);
      var rest := st.free[..|st.free| - 1];
      assert forall x :: x in rest ==> x in st.free;
      assert forall i, j :: 0 <= i < j < |rest| ==> rest[i] == st.free[i] && rest[j] == st.free[j];
      st.(free := rest,
          masks := st.masks[idx := mask],
          views := AddToViews(st.views, idx, mask))
  }

  /** Popping the top removes exactly the top: the list has no duplicates. */
  lemma PopTop(st: IndexState)
    requires Shape(st) && |st.free| > 0
    ensures forall y :: y in st.free[..|st.free| - 1] <==> y in st.free && y != Top(st)
  {
    var s := st.free;
    var n := |s|;
    assert Top(st) == s[n - 1];
    forall y ensures y in s[..n - 1] <==> y in s && y != s[n - 1] {
      if y in s[..n - 1] {
        var k :| 0 <= k < n - 1 && s[..n - 1][k] == y;
        assert Precedes(s[k], s[n - 1], Descending);
      }
      if y in s && y != s[n - 1] {
        var k :| 0 <= k < n && s[k] == y;
        assert s[..n - 1][k] == y;
      }
    }
  }

  /** A successful create hands out the lowest free slot with its current
      generation, puts exactly that slot in use, sets its mask, and leaves
      the other masks and every generation as they were. */
  lemma CreateAllocatesLowest(st: IndexState, mask: Mask)
    requires WellFormed(st) && |st.free| > 0
    ensures var h := CreatedHandle(st);
            h.index < st.capacity && !InUse(st, h.index) &&
            (forall i: nat :: i < st.capacity && !InUse(st, i) ==> h.index <= i) &&
            h.generation == st.generations[h.index]
    ensures var h := CreatedHandle(st);
            var st' := AfterCreate(st, mask);
            InUse(st', h.index) &&
            (forall i: nat :: i != h.index ==> (InUse(st', i) <==> InUse(st, i))) &&
            st'.masks[h.index] == mask &&
            (forall i :: 0 <= i < |st.masks| && i != h.index ==> st'.masks[i] == st.masks[i]) &&
            st'.generations == st.generations &&
            |st'.free| == |st.free| - 1
  {
    var s := st.free;
    var n := |s|;
    PopTop(st);
    forall i: nat | i < st.capacity && !InUse(st, i) ensures Top(st) <= i {
      var k :| 0 <= k < n && s[k] == i;
      if k < n - 1 {
        assert Precedes(s[k], s[n - 1], Descending);
      }
    }
  }

  /** A successful create adds the new slot to exactly the views whose mask
      the new slot mask contains, and leaves the other views unchanged. */
  lemma CreateUpdatesViews(st: IndexState, mask: Mask, k: nat)
    requires WellFormed(st) && |st.free| > 0 && k < |st.views|
    ensures var st' := AfterCreate(st, mask);
            var v := st.views[k];
            st'.views[k].mask == v.mask &&
            (forall i :: i in st'.views[k].members <==>
               i in v.members || (i == CreatedHandle(st).index && MaskContains(mask, v.mask))) &&
            (!MaskContains(mask, v.mask) ==> st'.views[k] == v)
  {
  }

  /** Each view has room for the slot a create hands out. */
  lemma ViewHasRoom(st: IndexState, k: nat)
    requires WellFormed(st) && |st.free| > 0 && k < |st.views|
    ensures |st.views[k].members| < st.capacity
  {
    var m := st.views[k].members;
    assert ViewSound(st, st.views[k]);
    assert Top(st) in st.free;
    assert forall x :: x in m ==> x < st.capacity && x != Top(st);
    OrderedFitsBelow(m, Ascending, st.capacity, Top(st));
  }

  /** Every view has room for the slot a create hands out. */
  lemma ViewsHaveRoom(st: IndexState)
    requires WellFormed(st) && |st.free| > 0
    ensures forall k :: 0 <= k < |st.views| ==> |st.views[k].members| < st.capacity
  {
    forall k | 0 <= k < |st.views| ensures |st.views[k].members| < st.capacity {
      ViewHasRoom(st, k);
    }
  }

  /** Create keeps view `k` sound, and complete if it was. */
  lemma CreateKeepsView(st: IndexState, mask: Mask, k: nat)
    requires WellFormed(st) && |st.free| > 0 && k < |st.views|
    ensures ViewSound(AfterCreate(st, mask), AfterCreate(st, mask).views[k])
    ensures ViewComplete(st, st.views[k]) ==>
              ViewComplete(AfterCreate(st, mask), AfterCreate(st, mask).views[k])
  {
    var st' := AfterCreate(st, mask);
    var idx := Top(st);
    var v := st.views[k];
    CreateAllocatesLowest(st, mask);
    assert ViewSound(st, v);
    assert idx !in v.members;
    if MaskContains(mask, v.mask) {
      InsertOrdered(v.members, idx, Ascending);
    }
    CreateUpdatesViews(st, mask, k);
  }

  /** Create keeps the invariant, and keeps the views complete. */
  lemma CreatePreserves(st: IndexState, mask: Mask)
    requires WellFormed(st)
    ensures WellFormed(AfterCreate(st, mask))
    ensures Complete(st) ==> Complete(AfterCreate(st, mask))
  {
    if |st.free| > 0 {
      var st' := AfterCreate(st, mask);
      forall k | 0 <= k < |st.views|
        ensures ViewSound(st', st'.views[k])
        ensures Complete(st) ==> ViewComplete(st', st'.views[k])
      {
        CreateKeepsView(st, mask, k);
      }
    }
  }

  /** A slot handed out by create is not handed out again by the next create. */
  lemma NoReuseUntilFreed(st: IndexState, m1: Mask)
    requires WellFormed(st) && |st.free| >= 2
    ensures CreatedHandle(AfterCreate(st, m1)).index != CreatedHandle(st).index
  {
    var st' := AfterCreate(st, m1);
    CreateAllocatesLowest(st, m1);
    CreatePreserves(st, m1);
    CreateAllocatesLowest(st', m1);
  }

  /** `idx` taken out of view `v` when the slot mask contains the view's
      mask. */
  function RemoveFromView(v: ViewState, idx: nat, slotMask: Mask): (r: ViewState) {
    if MaskContains(slotMask, v.mask) then ViewState(v.mask, RemoveFirst(v.members, idx))
    else v
  }

  /** `idx` taken out of every view whose mask the slot mask contains. */
  function RemoveFromViews(vs: seq<ViewState>, idx: nat, slotMask: Mask): (r: seq<ViewState>)
    ensures |r| == |vs|
  {
    seq(|vs|, k requires 0 <= k < |vs| => RemoveFromView(vs[k], idx, slotMask))
  }

  /** The remove transition: the slot goes onto the free list in order, its
      generation is bumped, and it leaves every view whose mask the slot mask
      contains. */
  function AfterRemove(st: IndexState, idx: nat): (r: IndexState)
    requires Shape(st) && idx < st.capacity
    ensures idx !in st.free ==> Shape(r)
  {
    RemoveKeepsShape(st, idx);
    AfterRemoveUnchecked(st, idx)
  }

  /** The remove transition for any slot in range. When the slot is already
      free and the free list is full, the result is longer than the
      `capacity` cells of `available`: the source writes past that buffer. */
  function AfterRemoveUnchecked(st: IndexState, idx: nat): (r: IndexState)
    requires Shape(st) && idx < st.capacity
  {
    st.(free := Insert(st.free, idx, Descending),
        generations := st.generations[idx := Next(st.generations[idx])],
        views := RemoveFromViews(st.views, idx, st.masks[idx]))
  }

  /** Freeing a slot that is not free keeps the free list strictly
      descending and in range. */
  lemma RemoveKeepsShape(st: IndexState, idx: nat)
    requires Shape(st) && idx < st.capacity
    ensures idx !in st.free ==> Shape(AfterRemoveUnchecked(st, idx))
  {
    if idx !in st.free {
      InsertOrdered(st.free, idx, Descending);
      InsertMembers(st.free, idx, Descending);
    }
  }

  /** The free list has room for a slot in use. */
  lemma FreeHasRoom(st: IndexState, idx: nat)
    requires WellFormed(st) && InUse(st, idx)
    ensures |st.free| < st.capacity
  {
    OrderedFitsBelow(st.free, Descending, st.capacity, idx);
  }

  /** Removing a slot in use frees exactly that slot, takes it out of every
      view, bumps its generation (modulo 2^32) and no other, and leaves the
      masks as they were. */
  lemma RemoveFreesSlot(st: IndexState, idx: nat)
    requires WellFormed(st) && InUse(st, idx)
    ensures var st' := AfterRemove(st, idx);
            !InUse(st', idx) &&
            (forall i: nat :: i != idx ==> (InUse(st', i) <==> InUse(st, i))) &&
            (forall k :: 0 <= k < |st'.views| ==> idx !in st'.views[k].members) &&
            st'.generations[idx] == Next(st.generations[idx]) &&
            (forall i :: 0 <= i < |st.generations| && i != idx ==> st'.generations[i] == st.generations[i]) &&
            st'.masks == st.masks &&
            |st'.free| == |st.free| + 1
  {
    var st' := AfterRemove(st, idx);
    forall k | 0 <= k < |st.views| ensures idx !in st'.views[k].members {
      var v := st.views[k];
      assert ViewSound(st, v);
      if MaskContains(st.masks[idx], v.mask) {
        RemoveFirstOrdered(v.members, idx, Ascending);
      } else {
        assert idx !in v.members;
      }
    }
  }

  /** After a remove, the handle that named the slot no longer matches its
      generation. */
  lemma RemoveInvalidatesHandle(st: IndexState, h: Handle)
    requires WellFormed(st) && InUse(st, h.index) && st.generations[h.index] == h.generation
    ensures AfterRemove(st, h.index).generations[h.index] != h.generation
  {
  }

  /** Remove keeps view `k` sound, and complete if it was. */
  lemma RemoveKeepsView(st: IndexState, idx: nat, k: nat)
    requires WellFormed(st) && InUse(st, idx) && k < |st.views|
    ensures ViewSound(AfterRemove(st, idx), AfterRemove(st, idx).views[k])
    ensures ViewComplete(st, st.views[k]) ==>
              ViewComplete(AfterRemove(st, idx), AfterRemove(st, idx).views[k])
  {
    var st' := AfterRemove(st, idx);
    var v := st.views[k];
    RemoveFreesSlot(st, idx);
    assert ViewSound(st, v);
    RemoveFirstOrdered(v.members, idx, Ascending);
    assert forall x :: x in st'.views[k].members <==> x in v.members && x != idx;
  }

  /** Remove keeps the invariant, and keeps the views complete. */
  lemma RemovePreserves(st: IndexState, idx: nat)
    requires WellFormed(st) && InUse(st, idx)
    ensures WellFormed(AfterRemove(st, idx))
    ensures Complete(st) ==> Complete(AfterRemove(st, idx))
  {
    var st' := AfterRemove(st, idx);
    InsertOrdered(st.free, idx, Descending);
    forall k | 0 <= k < |st.views|
      ensures ViewSound(st', st'.views[k])
      ensures Complete(st) ==> ViewComplete(st', st'.views[k])
    {
      RemoveKeepsView(st, idx, k);
    }
  }

  /** A freed slot that is now the lowest free slot is handed out again by
      the next create, with the bumped generation. */
  lemma RemoveThenCreateReuses(st: IndexState, idx: nat)
    requires WellFormed(st) && InUse(st, idx)
    requires forall j :: j in st.free ==> idx < j
    ensures CreatedHandle(AfterRemove(st, idx)) == Handle(idx, Next(st.generations[idx]))
  {
    var s := st.free;
    if |s| > 0 {
      assert s[|s| - 1] in s;
    }
    InsertPositionUnique(s, idx, Descending, |s|);
  }

  /** Removing a slot that is already free, which the removal code does not
      guard against, puts a duplicate on the free list. When every slot is
      free the list already fills `available`, and the longer list does not
      fit: the source writes one cell past the buffer. */
  lemma DoubleRemoveCorruptsFreeList(st: IndexState, idx: nat)
    requires Shape(st) && idx < st.capacity && idx in st.free
    ensures !StrictlyOrdered(AfterRemove(st, idx).free, Descending)
    ensures multiset(AfterRemove(st, idx).free)[idx] == 2
    ensures |st.free| == st.capacity ==> |AfterRemove(st, idx).free| == st.capacity + 1
  {
    OrderedOnce(st.free, idx, Descending);
    InsertMultiset(st.free, idx, Descending);
    var s := st.free;
    var r := Insert(s, idx, Descending);
    var p := InsertPosition(s, idx, Descending);
    var q :| 0 <= q < |s| && s[q] == idx;
    assert r[p] == idx;
    if q < p {
      assert r[q] == idx && !Precedes(r[q], r[p], Descending);
    } else {
      assert r[q + 1] == idx && !Precedes(r[p], r[q + 1], Descending);
    }
  }

  /** The free list and the slots in use partition the slots. */
  lemma RemainingPlusInUse(st: IndexState)
    requires WellFormed(st)
    ensures |st.free| + |InUseSet(st)| == st.capacity
  {
    BelowSpec(st.capacity);
    OrderedCard(st.free, Descending);
    assert Below(st.capacity) == ElementSet(st.free) + InUseSet(st);
    assert ElementSet(st.free) * InUseSet(st) == {};
  }
}
