/** The generational stable index: a fixed-capacity slot allocator with a
    descending free list, per-slot generations and masks, and registered
    views that keep the in-use slots matching a filter mask in ascending
    order. Every method is proved to follow the state transition of the same
    name in module StableIndexSpec. */
module StableIndex {
  import opened IndexTypes
  import opened OrderedSeq
  import opened StableIndexSpec

  /** Opens a gap for `x` among the first `n` elements of `a`: walking back
      from the last one, shifts each element that `x` precedes one place up,
      and returns the position of the gap. */
  method ShiftUp(a: array<nat>, n: nat, x: nat, o: Order) returns (p: nat)
    requires n < a.Length
    modifies a
    ensures p == InsertPosition(old(a[..n]), x, o)
    ensures forall m :: 0 <= m < p ==> a[m] == old(a[m])
    ensures forall m :: p < m <= n ==> a[m] == old(a[m - 1])
  {
    ghost var s := a[..n];
    var i: int := n - 1;
    while i >= 0 && Precedes(x, a[i], o)
      invariant -1 <= i < n
      invariant forall m :: 0 <= m <= i ==> a[m] == s[m]
      invariant forall m :: i + 1 < m <= n ==> a[m] == s[m - 1]
      invariant forall m :: i < m < n ==> Precedes(x, s[m], o)
    {
      a[i + 1] := a[i];
      i := i - 1;
    }
    p := i + 1;
    InsertPositionUnique(s, x, o, p);
  }

  /** The insertion both the free list and the views use: the gap `ShiftUp`
      opens receives `x`. */
  method InsertShifting(a: array<nat>, n: nat, x: nat, o: Order)
    requires n < a.Length
    modifies a
    ensures a[..n + 1] == Insert(old(a[..n]), x, o)
  {
    ghost var s := a[..n];
    var p := ShiftUp(a, n, x, o);
    a[p] := x;
    GapFilled(s, a[..n + 1], p, x);
  }

  /** Closes the gap at position `i` of the first `n` elements of `a`: each
      later element moves one place down. */
  method CompactOver(a: array<nat>, n: nat, i: nat)
    requires i < n <= a.Length
    modifies a
    ensures a[..n - 1] == old(a[..n])[..i] + old(a[..n])[i + 1..]
  {
    ghost var s := a[..n];
    var j := i;
    while j < n - 1
      invariant i <= j <= n - 1
      invariant forall m :: 0 <= m < i ==> a[m] == s[m]
      invariant forall m :: i <= m < j ==> a[m] == s[m + 1]
      invariant forall m :: j <= m < n ==> a[m] == s[m]
    {
      a[j] := a[j + 1];
      j := j + 1;
    }
    GapClosed(s, a[..n - 1], i);
  }

  /** A view: the slots whose mask contains `mask`, kept ascending in
      `indices[0..size)`. Its buffer has the index's capacity. */
  class View {
    const mask: Mask
    const indices: array<nat>
    const capacity: nat
    var size: nat

    ghost predicate Valid()
      reads this
    {
      size <= capacity && indices.Length == capacity
    }

    /** The members of the view. */
    ghost function Elements(): seq<nat>
      reads this, indices
      requires Valid()
    {
      indices[..size]
    }

    /** The view has mask and members as `v` records. */
    ghost predicate Holds(v: ViewState)
      reads this, indices
    {
      Valid() && mask == v.mask && Elements() == v.members
    }

    constructor (mask: Mask, capacity: nat)
      ensures this.mask == mask && this.capacity == capacity
      ensures Valid() && fresh(indices) && Elements() == []
    {
      this.mask := mask;
      this.capacity := capacity;
      indices := new nat[capacity];
      size := 0;
    }

    /** Insertion from the tail: shift every element greater than `idx` one
        place up, then write `idx` into the gap. */
    method Add(idx: nat)
      requires Valid() && size < capacity
      modifies this, indices
      ensures Valid() && size == old(size) + 1
      ensures Elements() == Insert(old(Elements()), idx, Ascending)
    {
      InsertShifting(indices, size, idx, Ascending);
      size := size + 1;
    }

    /** The linear search: the position of the first `idx` among the
        members, or `size` when there is none. It tests its bound before it
        reads the buffer. */
    method Find(idx: nat) returns (i: nat)
      requires Valid()
      ensures i <= size
      ensures i < size ==> Elements()[i] == idx
      ensures forall m :: 0 <= m < i ==> Elements()[m] != idx
    {
      i := 0;
      while i < size && indices[i] != idx
        invariant i <= size
        invariant forall m :: 0 <= m < i ==> indices[m] != idx
      {
        i := i + 1;
      }
    }

    /** Linear search for `idx`, then compaction of the tail over it. */
    method Remove(idx: nat)
      requires Valid()
      modifies this, indices
      ensures Valid()
      ensures size == if idx in old(Elements()) then old(size) - 1 else old(size)
      ensures Elements() == RemoveFirst(old(Elements()), idx)
    {
      ghost var s := Elements();
      var i := Find(idx);
      if i == size {
        assert forall m :: 0 <= m < |s| ==> s[m] != idx;
        return;
      }
      assert idx in s;
      RemoveFirstAt(s, idx, i);
      CompactOver(indices, size, i);
      size := size - 1;
      assert Elements() == s[..i] + s[i + 1..];
    }
  }

  /** The index. The free list is `available[0..availSize)`, with the lowest
      free slot on top (last); `views` and `viewKeys` are the registered
      views and their keys, at most `viewCapacity` of them. */
  class StableIndex {
    const capacity: nat
    const viewCapacity: nat
    const available: array<nat>
    const generations: array<u32>
    const masks: array<Mask>
    var availSize: nat
    var views: seq<View>
    var viewKeys: seq<ViewKey>
    /** The members of the views, in the abstract. */
    ghost var Views: seq<ViewState>
    ghost var Repr: set<object>
    /** The views and their buffers. */
    ghost var ViewRepr: set<object>

    /** The abstract state. */
    ghost function State(): IndexState
      reads this`availSize, this`Views, available, generations, masks
      requires availSize <= available.Length
    {
      IndexState(capacity, available[..availSize], generations[..], masks[..], Views, viewCapacity)
    }

    /** The view buffers, in a footprint of their own, have the index's
        capacity and are pairwise distinct. */
    ghost predicate ViewsValid()
      reads this`views, this`ViewRepr
    {
      (forall k :: 0 <= k < |views| ==> views[k] in ViewRepr && views[k].indices in ViewRepr) &&
      (forall k :: 0 <= k < |views| ==> views[k].capacity == capacity) &&
      (forall j, k :: 0 <= j < k < |views| ==> views[j].indices != views[k].indices)
    }

    /** Each view holds the members `Views` records for it. */
    ghost predicate ViewsMatch()
      reads this`views, this`Views, this`ViewRepr, ViewRepr
      requires ViewsValid()
    {
      |Views| == |views| &&
      forall k :: 0 <= k < |views| ==> views[k].Holds(Views[k])
    }

    /** The arrays, the footprints and the view keys fit together. */
    ghost predicate Layout()
      reads this`Repr, this`ViewRepr, this`views, this`viewKeys
    {
      this in Repr && available in Repr && generations in Repr && masks in Repr &&
      available.Length == capacity && generations.Length == capacity && masks.Length == capacity &&
      ViewRepr <= Repr &&
      this !in ViewRepr && available !in ViewRepr && generations !in ViewRepr && masks !in ViewRepr &&
      available as object != generations && available as object != masks && generations as object != masks &&
      |viewKeys| == |views| &&
      (forall k :: 0 <= k < |views| ==> viewKeys[k] == ViewKey(views[k].mask, k))
    }

    ghost predicate Valid()
      reads this, Repr
    {
      Layout() && availSize <= capacity &&
      ViewsValid() && ViewsMatch() &&
      WellFormed(State())
    }

    /** All indices free in descending order, generations and masks zero, no
        views. */
    constructor Init(capacity: nat, viewCapacity: nat)
      requires capacity <= MaxCapacity && viewCapacity <= MaxCapacity
      ensures Valid() && fresh(Repr)
      ensures State() == InitState(capacity, viewCapacity)
      ensures views == []
    {
      var av := new nat[capacity];
      var gs := new u32[capacity];
      var ms := new Mask[capacity];
      for i := 0 to capacity
        invariant forall m :: 0 <= m < i ==> av[m] == capacity - 1 - m && gs[m] == 0 && ms[m] == 0
      {
        av[i] := capacity - 1 - i;
        gs[i] := 0;
        ms[i] := 0;
      }
      this.capacity := capacity;
      this.viewCapacity := viewCapacity;
      available, generations, masks := av, gs, ms;
      availSize := capacity;
      views, viewKeys, Views := [], [], [];
      Repr := {this, av, gs, ms};
      ViewRepr := {};
      new;
      assert av[..] == Countdown(capacity);
      assert gs[..] == seq(capacity, _ => 0);
      assert ms[..] == seq(capacity, _ => 0);
      InitEstablishes(capacity, viewCapacity);
    }

    /** The number of free slots. */
    method RemainingCap() returns (n: nat)
      requires Valid()
      ensures n == |State().free|
      ensures n + |InUseSet(State())| == capacity
    {
      n := availSize;
      RemainingPlusInUse(State());
    }

    /** Registers an empty view for `mask`, or returns null once
        `viewCapacity` views are registered. */
    method AddView(mask: Mask) returns (v: View?)
      requires Valid()
      modifies this
      ensures Valid() && fresh(Repr - old(Repr))
      ensures State() == AfterAddView(old(State()), mask)
      ensures old(|views|) >= viewCapacity ==> v == null && views == old(views)
      ensures old(|views|) < viewCapacity ==>
                v != null && fresh(v) && views == old(views) + [v] &&
                v.mask == mask && v.capacity == capacity && v.Valid() && v.Elements() == []
    {
      ghost var st := State();
      if |views| >= viewCapacity {
        return null;
      }
      v := new View(mask, capacity);
      AppendView(v);
      assert State() == AfterAddView(st, mask);
      AddViewPreserves(st, mask);
    }

    /** Registers the new, empty view `v` under the next key. */
    method AppendView(v: View)
      requires Layout() && ViewsValid() && ViewsMatch()
      requires v !in Repr && v.indices !in Repr && v.indices != v as object
      requires v.Valid() && v.capacity == capacity && v.Elements() == []
      modifies this`views, this`viewKeys, this`Views, this`Repr, this`ViewRepr
      ensures Layout() && ViewsValid() && ViewsMatch()
      ensures views == old(views) + [v] && Views == old(Views) + [ViewState(v.mask, [])]
      ensures Repr == old(Repr) + {v, v.indices}
    {
      viewKeys := viewKeys + [ViewKey(v.mask, |views|)];
      views := views + [v];
      Views := Views + [ViewState(v.mask, [])];
      Repr := Repr + {v, v.indices};
      ViewRepr := ViewRepr + {v, v.indices};
      forall k | 0 <= k < |views| - 1
        ensures views[k].Holds(Views[k]) && viewKeys[k] == ViewKey(views[k].mask, k)
      {
        assert old(views[k].Holds(Views[k]));
      }
      assert Layout();
      assert ViewsValid();
    }

    /** The first registered view whose key mask is `mask`, or null. */
    method GetView(mask: Mask) returns (v: View?)
      requires Valid()
      ensures v == null <==> forall k :: 0 <= k < |views| ==> views[k].mask != mask
      ensures v != null ==>
                exists k :: 0 <= k < |views| && views[k] == v && v.mask == mask &&
                  forall j :: 0 <= j < k ==> views[j].mask != mask
    {
      var i := 0;
      while i < |viewKeys|
        invariant 0 <= i <= |viewKeys|
        invariant forall j :: 0 <= j < i ==> views[j].mask != mask
      {
        if viewKeys[i].mask == mask {
          return views[viewKeys[i].arrIdx];
        }
        i := i + 1;
      }
      return null;
    }

    /** One turn of the view loop of `create_mask`: view `j` receives `idx`
        when `slotMask` contains its mask. */
    method AddToViewAt(j: nat, idx: nat, slotMask: Mask)
      requires this !in ViewRepr && ViewsValid() && ViewsMatch() && j < |views|
      requires MaskContains(slotMask, Views[j].mask) ==> |Views[j].members| < capacity
      modifies this`Views, views[j], views[j].indices
      ensures ViewsValid() && ViewsMatch()
      ensures Views == old(Views)[j := AddToView(old(Views[j]), idx, slotMask)]
    {
      ghost var vs := Views;
      assert forall k :: 0 <= k < |views| && k != j ==>
               views[k] != views[j] && views[k].indices != views[j].indices;
      if MaskContains(slotMask, views[j].mask) {
        ghost var before := views[j].Elements();
        assert before == vs[j].members;
        views[j].Add(idx);
        assert views[j].Elements() == Insert(before, idx, Ascending);
      }
      Views := Views[j := AddToView(Views[j], idx, slotMask)];
      assert views[j].Holds(Views[j]);
      forall k | 0 <= k < |views| ensures views[k].Holds(Views[k]) {
        if k != j {
          assert old(views[k].Holds(vs[k]));
        }
      }
    }

    /** The view loop of `create_mask`: `idx` goes into every view whose mask
        `slotMask` contains. */
    method InsertIntoViews(idx: nat, slotMask: Mask)
      requires this !in ViewRepr && ViewsValid() && ViewsMatch()
      requires forall k :: 0 <= k < |Views| && MaskContains(slotMask, Views[k].mask) ==>
                 |Views[k].members| < capacity
      modifies this`Views, ViewRepr
      ensures ViewsValid() && ViewsMatch()
      ensures Views == AddToViews(old(Views), idx, slotMask)
    {
      ghost var vs := Views;
      var j := 0;
      while j < |views|
        invariant 0 <= j <= |views|
        invariant ViewsValid() && ViewsMatch()
        invariant |Views| == |vs|
        invariant forall k :: 0 <= k < j ==> Views[k] == AddToView(vs[k], idx, slotMask)
        invariant forall k :: j <= k < |vs| ==> Views[k] == vs[k]
      {
        AddToViewAt(j, idx, slotMask);
        j := j + 1;
      }
      assert Views == AddToViews(vs, idx, slotMask);
    }

    /** One turn of the view loop of `stable_index_remove`: `idx` leaves view
        `j` when `slotMask` contains its mask. */
    method RemoveFromViewAt(j: nat, idx: nat, slotMask: Mask)
      requires this !in ViewRepr && ViewsValid() && ViewsMatch() && j < |views|
      modifies this`Views, views[j], views[j].indices
      ensures ViewsValid() && ViewsMatch()
      ensures Views == old(Views)[j := RemoveFromView(old(Views[j]), idx, slotMask)]
    {
      ghost var vs := Views;
      assert forall k :: 0 <= k < |views| && k != j ==>
               views[k] != views[j] && views[k].indices != views[j].indices;
      if MaskContains(slotMask, views[j].mask) {
        ghost var before := views[j].Elements();
        assert before == vs[j].members;
        views[j].Remove(idx);
        assert views[j].Elements() == RemoveFirst(before, idx);
      }
      Views := Views[j := RemoveFromView(Views[j], idx, slotMask)];
      assert views[j].Holds(Views[j]);
      forall k | 0 <= k < |views| ensures views[k].Holds(Views[k]) {
        if k != j {
          assert old(views[k].Holds(vs[k]));
        }
      }
    }

    /** The view loop of `stable_index_remove`: `idx` leaves every view whose
        mask `slotMask` contains. */
    method RemoveFromAllViews(idx: nat, slotMask: Mask)
      requires this !in ViewRepr && ViewsValid() && ViewsMatch()
      modifies this`Views, ViewRepr
      ensures ViewsValid() && ViewsMatch()
      ensures Views == RemoveFromViews(old(Views), idx, slotMask)
    {
      ghost var vs := Views;
      var j := 0;
      while j < |views|
        invariant 0 <= j <= |views|
        invariant ViewsValid() && ViewsMatch()
        invariant |Views| == |vs|
        invariant forall k :: 0 <= k < j ==> Views[k] == RemoveFromView(vs[k], idx, slotMask)
        invariant forall k :: j <= k < |vs| ==> Views[k] == vs[k]
      {
        RemoveFromViewAt(j, idx, slotMask);
        j := j + 1;
      }
      assert Views == RemoveFromViews(vs, idx, slotMask);
    }

    /** Takes the top of the free list, sets its mask and adds it to every
        view whose mask the new mask contains; `{0, 0}` and no change when no
        slot is free. */
    method CreateMask(mask: Mask) returns (h: Handle)
      requires Valid()
      modifies this`availSize, this`Views, masks, ViewRepr
      ensures Valid() && Repr == old(Repr) && ViewRepr == old(ViewRepr) && views == old(views)
      ensures h == CreatedHandle(old(State()))
      ensures State() == AfterCreate(old(State()), mask)
      ensures old(availSize) == 0 ==> h == Handle(0, 0) && State() == old(State())
    {
      ghost var st := State();
      if availSize == 0 {
        return Handle(0, 0);
      }
      var newIdx := available[availSize - 1];
      assert newIdx == Top(st);
      var newGen := generations[newIdx];
      masks[newIdx] := mask;
      h := Handle(newIdx, newGen);
      ViewsHaveRoom(st);
      ghost var ms := masks[..];
      assert ms == st.masks[newIdx := mask];
      InsertIntoViews(newIdx, mask);
      availSize := availSize - 1;
      assert available[..availSize] == st.free[..|st.free| - 1];
      assert generations[..] == st.generations;
      assert masks[..] == ms;
      assert Views == AddToViews(st.views, newIdx, mask);
      assert State() == IndexState(capacity, st.free[..|st.free| - 1], st.generations, ms,
                                   AddToViews(st.views, newIdx, mask), viewCapacity);
      CreatePreserves(st, mask);
    }

    /** `create_mask` with the empty mask. */
    method Create() returns (h: Handle)
      requires Valid()
      modifies this`availSize, this`Views, masks, ViewRepr
      ensures Valid() && Repr == old(Repr) && ViewRepr == old(ViewRepr) && views == old(views)
      ensures h == CreatedHandle(old(State()))
      ensures State() == AfterCreate(old(State()), 0)
    {
      h := CreateMask(0);
    }

    /** The shifting insertion of `idx` into the descending free list, from
        the top down. */
    method PushFree(idx: nat)
      requires availSize < available.Length
      modifies this`availSize, available
      ensures availSize == old(availSize) + 1
      ensures available[..availSize] == Insert(old(available[..availSize]), idx, Descending)
    {
      InsertShifting(available, availSize, idx, Descending);
      availSize := availSize + 1;
    }

    /** Frees the slot of a live handle: inserts it into the free list
        keeping it descending, bumps its generation, and takes it out of
        every view whose mask the slot's mask contains. */
    method Remove(h: Handle)
      requires Valid()
      requires InUse(State(), h.index)
      modifies this`availSize, this`Views, available, generations, ViewRepr
      ensures Valid() && Repr == old(Repr) && ViewRepr == old(ViewRepr) && views == old(views)
      ensures State() == AfterRemove(old(State()), h.index)
    {
      ghost var st := State();
      var idx := h.index;
      assert idx !in st.free;
      FreeHasRoom(st, idx);
      PushFree(idx);
      generations[idx] := Next(generations[idx]);
      RemoveFromAllViews(idx, masks[idx]);
      assert available[..availSize] == Insert(st.free, idx, Descending);
      assert generations[..] == st.generations[idx := Next(st.generations[idx])];
      assert masks[..] == st.masks;
      assert Views == RemoveFromViews(st.views, idx, st.masks[idx]);
      assert State() == AfterRemoveUnchecked(st, idx);
      RemovePreserves(st, idx);
    }
  }
}
