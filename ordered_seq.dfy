/** Ordered sequences of slot indices and the two in-place edits the index
    performs on them: insertion by shifting the tail (the free list and every
    view) and removal of the first occurrence by compaction (a view). */
module OrderedSeq {

  /** The free list is kept in descending order, the views in ascending order. */
  datatype Order = Ascending | Descending

  /** Whether `a` belongs strictly before `b` in order `o`. */
  predicate Precedes(a: nat, b: nat, o: Order) {
    match o
    case Ascending => a < b
    case Descending => a > b
  }

  /** Every element strictly before every later one: sorted and free of
      duplicates. */
  predicate StrictlyOrdered(s: seq<nat>, o: Order) {
    forall i, j :: 0 <= i < j < |s| ==> Precedes(s[i], s[j], o)
  }

  /** Where the tail-shifting insertion loop puts `x`: it walks back from
      the end past every element that `x` precedes. */
  function InsertPosition(s: seq<nat>, x: nat, o: Order): (p: nat)
    ensures p <= |s|
  {
    if |s| == 0 || !Precedes(x, s[|s| - 1], o) then |s|
    else InsertPosition(s[..|s| - 1], x, o)
  }

  /** `s` with `x` put where the insertion loop puts it. */
  function Insert(s: seq<nat>, x: nat, o: Order): (r: seq<nat>)
    ensures |r| == |s| + 1
  {
    var p := InsertPosition(s, x, o);
    s[..p] + [x] + s[p..]
  }

  /** The insertion adds exactly one copy of `x`. */
  lemma InsertMultiset(s: seq<nat>, x: nat, o: Order)
    ensures multiset(Insert(s, x, o)) == multiset(s) + multiset{x}
  {
    var p := InsertPosition(s, x, o);
    assert s == s[..p] + s[p..];
  }

  /** The insertion adds `x` and keeps every element already there. */
  lemma InsertMembers(s: seq<nat>, x: nat, o: Order)
    ensures forall y :: y in Insert(s, x, o) <==> y in s || y == x
  {
    var r := Insert(s, x, o);
    InsertMultiset(s, x, o);
    forall y ensures y in r <==> y in s || y == x {
      assert y in r <==> y in multiset(r);
      assert y in s <==> y in multiset(s);
    }
  }

  /** The insertion point lies after the last element that does not follow
      `x`, and before a run of elements that all follow `x`. */
  lemma {:induction false} InsertPositionBounds(s: seq<nat>, x: nat, o: Order)
    ensures forall m :: InsertPosition(s, x, o) <= m < |s| ==> Precedes(x, s[m], o)
    ensures InsertPosition(s, x, o) > 0 ==> !Precedes(x, s[InsertPosition(s, x, o) - 1], o)
  {
    if |s| == 0 || !Precedes(x, s[|s| - 1], o) {
    } else {
      InsertPositionBounds(s[..|s| - 1], x, o);
    }
  }

  /** Those two facts determine the insertion point: this is what ties the
      loop's final cursor to `InsertPosition`. */
  lemma {:induction false} InsertPositionUnique(s: seq<nat>, x: nat, o: Order, p: nat)
    requires p <= |s|
    requires p == 0 || !Precedes(x, s[p - 1], o)
    requires forall m :: p <= m < |s| ==> Precedes(x, s[m], o)
    ensures InsertPosition(s, x, o) == p
  {
    if p < |s| {
      assert Precedes(x, s[|s| - 1], o);
      var t := s[..|s| - 1];
      assert forall m :: p <= m < |t| ==> t[m] == s[m];
      InsertPositionUnique(t, x, o, p);
    }
  }

  /** A sequence that agrees with `s` before `p`, holds `x` at `p` and
      agrees with `s` shifted one place after `p` is `s` with `x` at `p`. */
  lemma GapFilled(s: seq<nat>, t: seq<nat>, p: nat, x: nat)
    requires p <= |s| && |t| == |s| + 1 && t[p] == x
    requires forall m :: 0 <= m < p ==> t[m] == s[m]
    requires forall m :: p < m < |t| ==> t[m] == s[m - 1]
    ensures t == s[..p] + [x] + s[p..]
  {
  }

  /** A sequence one shorter than `s` that agrees with `s` before `i` and
      with `s` shifted one place down from `i` is `s` without position `i`. */
  lemma GapClosed(s: seq<nat>, t: seq<nat>, i: nat)
    requires i < |s| && |t| == |s| - 1
    requires forall m :: 0 <= m < i ==> t[m] == s[m]
    requires forall m :: i <= m < |t| ==> t[m] == s[m + 1]
    ensures t == s[..i] + s[i + 1..]
  {
  }

  /** Inserting a new element into a strictly ordered sequence keeps it
      strictly ordered. */
  lemma InsertOrdered(s: seq<nat>, x: nat, o: Order)
    requires StrictlyOrdered(s, o)
    requires x !in s
    ensures StrictlyOrdered(Insert(s, x, o), o)
  {
    var p := InsertPosition(s, x, o);
    var r := Insert(s, x, o);
    InsertPositionBounds(s, x, o);
    assert forall m :: 0 <= m < p ==> Precedes(s[m], x, o) by {
      if p > 0 {
        assert s[p - 1] != x;
        forall m | 0 <= m < p ensures Precedes(s[m], x, o) {
          if m < p - 1 { assert Precedes(s[m], s[p - 1], o); }
        }
      }
    }
    forall i, j | 0 <= i < j < |r| ensures Precedes(r[i], r[j], o) {
      if j < p {
        assert r[i] == s[i] && r[j] == s[j];
      } else if j == p {
        assert r[i] == s[i] && r[j] == x;
      } else if i < p {
        assert r[i] == s[i] && r[j] == s[j - 1];
        assert Precedes(s[i], x, o) && Precedes(x, s[j - 1], o);
      } else if i == p {
        assert r[i] == x && r[j] == s[j - 1];
      } else {
        assert r[i] == s[i - 1] && r[j] == s[j - 1];
      }
    }
  }

  /** A strictly ordered sequence holds each of its elements once. */
  lemma {:induction false} OrderedOnce(s: seq<nat>, x: nat, o: Order)
    requires StrictlyOrdered(s, o) && x in s
    ensures multiset(s)[x] == 1
  {
    var t := s[1..];
    assert s == [s[0]] + t;
    assert StrictlyOrdered(t, o) by {
      forall i, j | 0 <= i < j < |t| ensures Precedes(t[i], t[j], o) {
        assert t[i] == s[i + 1] && t[j] == s[j + 1];
      }
    }
    if s[0] == x {
      assert x !in t by {
        forall k | 0 <= k < |t| ensures t[k] != x {
          assert Precedes(s[0], s[k + 1], o);
        }
      }
    } else {
      OrderedOnce(t, x, o);
    }
  }

  /** `s` without its first occurrence of `x` (unchanged when there is none). */
  function RemoveFirst(s: seq<nat>, x: nat): (r: seq<nat>)
    ensures x in s ==> |r| == |s| - 1
    ensures x !in s ==> r == s
  {
    if |s| == 0 then s
    else
      assert s == [s[0]] + s[1..];
      if s[0] == x then s[1..]
      else [s[0]] + RemoveFirst(s[1..], x)
  }

  /** The removal takes out exactly one copy of `x` when there is one. */
  lemma {:induction false} RemoveFirstMultiset(s: seq<nat>, x: nat)
    ensures multiset(RemoveFirst(s, x)) == multiset(s) - multiset{x}
  {
    if |s| > 0 {
      assert s == [s[0]] + s[1..];
      if s[0] != x {
        RemoveFirstMultiset(s[1..], x);
      }
    }
  }

  /** Removing the first occurrence at position `i` keeps the relative order
      of everything else. */
  lemma {:induction false} RemoveFirstAt(s: seq<nat>, x: nat, i: nat)
    requires i < |s| && s[i] == x
    requires forall m :: 0 <= m < i ==> s[m] != x
    ensures RemoveFirst(s, x) == s[..i] + s[i + 1..]
  {
    if i > 0 {
      var t := s[1..];
      assert s[0] != x;
      assert RemoveFirst(s, x) == [s[0]] + RemoveFirst(t, x);
      RemoveFirstAt(t, x, i - 1);
      assert t[..i - 1] == s[1..i];
      assert t[i..] == s[i + 1..];
      assert [s[0]] + s[1..i] == s[..i];
    }
  }

  /** In a strictly ordered sequence the removal keeps the order and takes out
      exactly `x`. */
  lemma RemoveFirstOrdered(s: seq<nat>, x: nat, o: Order)
    requires StrictlyOrdered(s, o)
    ensures StrictlyOrdered(RemoveFirst(s, x), o)
    ensures forall y :: y in RemoveFirst(s, x) <==> y in s && y != x
  {
    if x in s {
      var i :| 0 <= i < |s| && s[i] == x;
      forall m | 0 <= m < i ensures s[m] != x {
        assert Precedes(s[m], s[i], o);
      }
      RemoveFirstAt(s, x, i);
      DropAt(s, i, RemoveFirst(s, x));
      DropOrdered(s, i, RemoveFirst(s, x), o);
    }
  }

  /** Position by position, `r` is `s` without position `i`. */
  lemma DropAt(s: seq<nat>, i: nat, r: seq<nat>)
    requires i < |s| && r == s[..i] + s[i + 1..]
    ensures |r| == |s| - 1
    ensures forall m :: 0 <= m < i ==> r[m] == s[m]
    ensures forall m :: i <= m < |r| ==> r[m] == s[m + 1]
  {
  }

  /** Dropping one position of a strictly ordered sequence keeps it ordered
      and takes out exactly the dropped element. */
  lemma DropOrdered(s: seq<nat>, i: nat, r: seq<nat>, o: Order)
    requires StrictlyOrdered(s, o) && i < |s| && |r| == |s| - 1
    requires forall m :: 0 <= m < i ==> r[m] == s[m]
    requires forall m :: i <= m < |r| ==> r[m] == s[m + 1]
    ensures StrictlyOrdered(r, o)
    ensures forall y :: y in r <==> y in s && y != s[i]
  {
    forall a, b | 0 <= a < b < |r| ensures Precedes(r[a], r[b], o) {
      var a' := if a < i then a else a + 1;
      var b' := if b < i then b else b + 1;
      assert r[a] == s[a'] && r[b] == s[b'];
    }
    forall y ensures y in r <==> y in s && y != s[i] {
      if y in r {
        var j :| 0 <= j < |r| && r[j] == y;
        var j' := if j < i then j else j + 1;
        assert s[j'] == y;
        if j' < i {
          assert Precedes(s[j'], s[i], o);
        } else {
          assert Precedes(s[i], s[j'], o);
        }
      }
      if y in s && y != s[i] {
        var j :| 0 <= j < |s| && s[j] == y;
        var j' := if j < i then j else j - 1;
        assert r[j'] == y;
      }
    }
  }

  /** The elements of `s` as a set. */
  function ElementSet(s: seq<nat>): set<nat> {
    set x | x in s
  }

  /** The indices below `n`. */
  function Below(n: nat): set<nat> {
    if n == 0 then {} else Below(n - 1) + {n - 1}
  }

  lemma {:induction false} BelowSpec(n: nat)
    ensures |Below(n)| == n
    ensures forall x: nat :: x in Below(n) <==> x < n
  {
    if n > 0 {
      BelowSpec(n - 1);
      assert n - 1 !in Below(n - 1);
    }
  }

  lemma {:induction false} OrderedCard(s: seq<nat>, o: Order)
    requires StrictlyOrdered(s, o)
    ensures |ElementSet(s)| == |s|
  {
    if |s| > 0 {
      var t := s[1..];
      assert StrictlyOrdered(t, o) by {
        forall i, j | 0 <= i < j < |t| ensures Precedes(t[i], t[j], o) {
          assert t[i] == s[i + 1] && t[j] == s[j + 1];
        }
      }
      OrderedCard(t, o);
      assert s[0] !in t by {
        forall k | 0 <= k < |t| ensures t[k] != s[0] {
          assert Precedes(s[0], s[k + 1], o);
        }
      }
      assert s == [s[0]] + t;
      assert ElementSet(s) == {s[0]} + ElementSet(t);
    }
  }

  lemma {:induction false} SubsetCard(a: set<nat>, b: set<nat>)
    requires a <= b
    ensures |a| <= |b|
  {
    if a != {} {
      var x :| x in a;
      SubsetCard(a - {x}, b - {x});
      assert a == (a - {x}) + {x};
      assert b == (b - {x}) + {x};
    }
  }

  /** A strictly ordered sequence of indices below `n` that misses one index
      below `n` has room for one more element: this is why the free list and
      every view always fit their buffers. */
  lemma OrderedFitsBelow(s: seq<nat>, o: Order, n: nat, f: nat)
    requires StrictlyOrdered(s, o)
    requires forall x :: x in s ==> x < n
    requires f < n && f !in s
    ensures |s| < n
  {
    OrderedCard(s, o);
    BelowSpec(n);
    assert ElementSet(s) <= Below(n) - {f};
    SubsetCard(ElementSet(s), Below(n) - {f});
    assert Below(n) == (Below(n) - {f}) + {f};
  }
}
