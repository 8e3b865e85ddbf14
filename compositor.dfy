/**
 The override compositor (main.py:61-96). Each base shift is handled on its
 own: the overrides that intersect it are selected, ordered by start, and a
 cursor walks the shift from left to right, emitting base-user gaps and the
 overrides' pieces clamped to the shift, then a trailing base-user piece.
 */
module Compositor {
  import opened Intervals
  import opened StableSort

  /** The overrides that intersect `shift`, in input order (main.py:67-73). */
  function Selected(shift: Interval, overrides: seq<Interval>): (r: seq<Interval>)
    ensures forall o :: o in r <==> o in overrides && Overlaps(shift.start, shift.end, o.start, o.end)
    ensures |r| <= |overrides|
    decreases |overrides|
  {
    if overrides == [] then
      []
    else
      var init, last := overrides[..|overrides| - 1], overrides[|overrides| - 1];
      assert overrides == init + [last];
      Selected(shift, init) + (if Overlaps(shift.start, shift.end, last.start, last.end) then [last] else [])
  }

  lemma {:induction false} SelectedNone(shift: Interval, overrides: seq<Interval>)
    requires forall k :: 0 <= k < |overrides| ==> !Overlaps(shift.start, shift.end, overrides[k].start, overrides[k].end)
    ensures Selected(shift, overrides) == []
    decreases |overrides|
  {
    if overrides != [] {
      SelectedNone(shift, overrides[..|overrides| - 1]);
    }
  }

  /**
   The selection is a filter that keeps input order: selecting from two lists
   one after the other is selecting from their concatenation.
   */
  lemma {:induction false} SelectedAppend(shift: Interval, a: seq<Interval>, b: seq<Interval>)
    ensures Selected(shift, a + b) == Selected(shift, a) + Selected(shift, b)
    decreases |b|
  {
    if b == [] {
      assert a + b == a;
    } else {
      var init, last := b[..|b| - 1], b[|b| - 1];
      var tail := if Overlaps(shift.start, shift.end, last.start, last.end) then [last] else [];
      SelectedAppend(shift, a, init);
      assert (a + b)[..|a + b| - 1] == a + init;
      assert (a + b)[|a + b| - 1] == last;
      assert Selected(shift, a + b) == Selected(shift, a + init) + tail;
      assert Selected(shift, b) == Selected(shift, init) + tail;
    }
  }

  // One step of the walk over the sorted overrides (main.py:79-90).

  /** The base-user gap emitted when the cursor is strictly before `o` starts and `o` starts inside the shift. */
  function Gap(shift: Interval, cursor: int, o: Interval): seq<Interval> {
    if cursor < o.start < shift.end then [Interval(cursor, o.start, shift.user)] else []
  }

  /** The part of `o` from the cursor on, clamped to the shift, if it is non-empty. */
  function Claimed(shift: Interval, cursor: int, o: Interval): seq<Interval> {
    var actualStart := Max(cursor, o.start);
    var actualEnd := Min(shift.end, o.end);
    if actualStart < actualEnd then [Interval(actualStart, actualEnd, o.user)] else []
  }

  /** The cursor after `o`: past its clamped end, and never moved back. */
  function Advance(shift: Interval, cursor: int, o: Interval): int {
    Max(cursor, Min(shift.end, o.end))
  }

  /** The trailing base-user piece once every override is processed (main.py:93-94). */
  function Trailing(shift: Interval, cursor: int): seq<Interval> {
    if cursor < shift.end then [Interval(cursor, shift.end, shift.user)] else []
  }

  /**
   The pieces the walk emits from `cursor` on, over the overrides `os` in
   order. Whatever the overrides, every piece is non-empty and lies between
   the cursor and the shift's end.
   */
  function Walk(shift: Interval, cursor: int, os: seq<Interval>): (r: seq<Interval>)
    ensures forall k :: 0 <= k < |r| ==> cursor <= r[k].start < r[k].end <= shift.end
    decreases |os|
  {
    if os == [] then
      Trailing(shift, cursor)
    else
      Gap(shift, cursor, os[0]) + Claimed(shift, cursor, os[0]) + Walk(shift, Advance(shift, cursor, os[0]), os[1..])
  }

  /** One unfolding of the walk: the first override's step, then the rest. */
  lemma WalkStep(shift: Interval, cursor: int, os: seq<Interval>)
    requires os != []
    ensures Walk(shift, cursor, os)
            == Gap(shift, cursor, os[0]) + Claimed(shift, cursor, os[0]) + Walk(shift, Advance(shift, cursor, os[0]), os[1..])
  {
  }

  /** Once the cursor has reached the shift's end, the walk emits nothing more. */
  lemma {:induction false} WalkPastEnd(shift: Interval, cursor: int, os: seq<Interval>)
    requires shift.end <= cursor
    ensures Walk(shift, cursor, os) == []
    decreases |os|
  {
    if os != [] {
      WalkPastEnd(shift, Advance(shift, cursor, os[0]), os[1..]);
    }
  }

  /**
   A non-reversed override whose clamped span is already behind the cursor
   (one contained in an override processed before it, say) emits nothing and
   leaves the cursor where it is. A reversed one may still emit a gap up to
   its start (`ReversedShadowedGap`).
   */
  lemma ShadowedOverride(shift: Interval, cursor: int, o: Interval)
    requires o.start <= o.end && Min(shift.end, o.end) <= cursor
    ensures Gap(shift, cursor, o) == [] && Claimed(shift, cursor, o) == []
    ensures Advance(shift, cursor, o) == cursor
  {
  }

  /** The pieces for one shift: the walk over its selected overrides, ordered by start. */
  function SplitShift(shift: Interval, overrides: seq<Interval>): (r: seq<Interval>)
    ensures forall k :: 0 <= k < |r| ==> shift.start <= r[k].start < r[k].end <= shift.end
  {
    Walk(shift, shift.start, SortByStart(Selected(shift, overrides)))
  }

  /**
   Who holds instant `t` in a shift of base user `base` when the overrides
   `os` are laid over it in this order: the first override of `os` that
   contains `t`, or the base user when none does.
   */
  function Owner(base: User, os: seq<Interval>, t: int): User
    decreases |os|
  {
    if os == [] then base
    else if InSpan(t, os[0].start, os[0].end) then os[0].user
    else Owner(base, os[1..], t)
  }

  /** Where no override contains `t`, the base user holds it. */
  lemma {:induction false} OwnerUncovered(base: User, os: seq<Interval>, t: int)
    requires forall k :: 0 <= k < |os| ==> !InSpan(t, os[k].start, os[k].end)
    ensures Owner(base, os, t) == base
    decreases |os|
  {
    if os != [] {
      assert forall k :: 0 <= k < |os[1..]| ==> os[1..][k] == os[k + 1];
      OwnerUncovered(base, os[1..], t);
    }
  }

  /** The first override of `os` that contains `t` holds it. */
  lemma {:induction false} OwnerFirstCover(base: User, os: seq<Interval>, t: int, k: int)
    requires 0 <= k < |os| && InSpan(t, os[k].start, os[k].end)
    requires forall j :: 0 <= j < k ==> !InSpan(t, os[j].start, os[j].end)
    ensures Owner(base, os, t) == os[k].user
    decreases k
  {
    if k > 0 {
      assert forall j :: 0 <= j < k - 1 ==> os[1..][j] == os[j + 1];
      OwnerFirstCover(base, os[1..], t, k - 1);
    }
  }

  /** The user who should hold instant `t` of `shift`: overrides taken earliest start first. */
  function EffectiveUser(shift: Interval, overrides: seq<Interval>, t: int): User {
    Owner(shift.user, SortByStart(Selected(shift, overrides)), t)
  }

  /** An instant that no override covers stays with the shift's own user. */
  lemma UncoveredKeepsBase(shift: Interval, overrides: seq<Interval>, t: int)
    requires forall o :: o in overrides ==> !InSpan(t, o.start, o.end)
    ensures EffectiveUser(shift, overrides, t) == shift.user
  {
    var selected := Selected(shift, overrides);
    var sorted := SortByStart(selected);
    SortByStartPermutation(selected);
    forall m | 0 <= m < |sorted|
      ensures !InSpan(t, sorted[m].start, sorted[m].end)
    {
      assert sorted[m] in multiset(selected);
    }
    OwnerUncovered(shift.user, sorted, t);
  }

  /**
   One step of the walk over an override that is not reversed and starts
   before the shift ends: its gap and its claim tile the span the cursor advances over.
   */
  lemma StepTiles(shift: Interval, cursor: int, o: Interval)
    requires cursor <= shift.end && o.start <= o.end && o.start < shift.end
    ensures cursor <= Advance(shift, cursor, o) <= shift.end
    ensures Tiles(Gap(shift, cursor, o) + Claimed(shift, cursor, o), cursor, Advance(shift, cursor, o))
  {
  }

  /**
   With overrides that are not reversed and start before the shift ends, the
   walk's pieces tile the span from the cursor to the shift's end.
   */
  lemma {:induction false} WalkTiles(shift: Interval, cursor: int, os: seq<Interval>)
    requires cursor <= shift.end
    requires forall k :: 0 <= k < |os| ==> os[k].start <= os[k].end && os[k].start < shift.end
    ensures Tiles(Walk(shift, cursor, os), cursor, shift.end)
    decreases |os|
  {
    if os != [] {
      var o := os[0];
      var next := Advance(shift, cursor, o);
      StepTiles(shift, cursor, o);
      WalkTiles(shift, next, os[1..]);
      WalkStep(shift, cursor, os);
      TilesAppend(Gap(shift, cursor, o) + Claimed(shift, cursor, o), Walk(shift, next, os[1..]), cursor, next, shift.end);
    }
  }

  /**
   Over overrides sorted by start, every piece the walk emits is held by the
   owner of each of its instants: the first override of `os` containing the
   instant, or the shift's user where none does. This holds for reversed and
   zero-length overrides too.
   */
  lemma {:induction false} WalkOwner(shift: Interval, cursor: int, os: seq<Interval>, t: int)
    requires SortedByStart(os)
    ensures forall k :: 0 <= k < |Walk(shift, cursor, os)| && InSpan(t, Walk(shift, cursor, os)[k].start, Walk(shift, cursor, os)[k].end)
                        ==> Walk(shift, cursor, os)[k].user == Owner(shift.user, os, t)
    decreases |os|
  {
    var r := Walk(shift, cursor, os);
    if os != [] {
      var o := os[0];
      var next := Advance(shift, cursor, o);
      var gap, claimed, rest := Gap(shift, cursor, o), Claimed(shift, cursor, o), Walk(shift, next, os[1..]);
      assert r == gap + claimed + rest;
      WalkOwner(shift, next, os[1..], t);
      forall k | 0 <= k < |r| && InSpan(t, r[k].start, r[k].end)
        ensures r[k].user == Owner(shift.user, os, t)
      {
        if k < |gap| {
          // t is before o starts, hence before every later override starts
          assert r[k] == gap[0] && r[k].user == shift.user && t < o.start;
          forall j | 0 <= j < |os|
            ensures !InSpan(t, os[j].start, os[j].end)
          {
            assert os[0].start <= os[j].start;
          }
          OwnerUncovered(shift.user, os, t);
        } else if k < |gap| + |claimed| {
          assert r[k] == claimed[0] && r[k].user == o.user;
          assert InSpan(t, o.start, o.end);
        } else {
          // t is at or past the cursor after o, so past o's end
          var k' := k - |gap| - |claimed|;
          assert r[k] == rest[k'];
          assert next <= rest[k'].start && rest[k'].end <= shift.end;
          assert !InSpan(t, o.start, o.end);
          assert Owner(shift.user, os, t) == Owner(shift.user, os[1..], t);
          assert InSpan(t, rest[k'].start, rest[k'].end);
          assert rest[k'].user == Owner(shift.user, os[1..], t);
        }
      }
    }
  }

  /**
   The shift's pieces tile the shift when it is non-empty and no override is
   reversed: every instant of the shift is held by exactly one piece.
   */
  lemma SplitShiftTiles(shift: Interval, overrides: seq<Interval>)
    requires shift.start < shift.end && NotReversed(overrides)
    ensures Tiles(SplitShift(shift, overrides), shift.start, shift.end)
  {
    var sorted := SortByStart(Selected(shift, overrides));
    SortByStartPermutation(Selected(shift, overrides));
    forall k | 0 <= k < |sorted|
      ensures sorted[k].start <= sorted[k].end && sorted[k].start < shift.end
    {
      assert sorted[k] in multiset(sorted);
      assert sorted[k] in overrides;
    }
    WalkTiles(shift, shift.start, sorted);
  }

  /** Every piece of the shift is held by the effective user of each of its instants. */
  lemma SplitShiftOwner(shift: Interval, overrides: seq<Interval>, t: int)
    ensures HeldBy(SplitShift(shift, overrides), t, EffectiveUser(shift, overrides, t))
  {
    var sorted := SortByStart(Selected(shift, overrides));
    assert SplitShift(shift, overrides) == Walk(shift, shift.start, sorted);
    assert EffectiveUser(shift, overrides, t) == Owner(shift.user, sorted, t);
    SortByStartSorted(Selected(shift, overrides));
    WalkOwner(shift, shift.start, sorted, t);
  }

  /** A non-empty shift that no override intersects is emitted unchanged, as one piece. */
  lemma SplitShiftUntouched(shift: Interval, overrides: seq<Interval>)
    requires shift.start < shift.end
    requires forall k :: 0 <= k < |overrides| ==> !Overlaps(shift.start, shift.end, overrides[k].start, overrides[k].end)
    ensures SplitShift(shift, overrides) == [shift]
  {
    SelectedNone(shift, overrides);
  }

  /**
   Earliest start wins: an override containing instant `t` of the shift,
   whose start is strictly earlier than that of every other override
   containing `t`, decides who holds `t`. In particular an override that is
   the only one containing `t` does.
   */
  lemma EarliestStartWins(shift: Interval, overrides: seq<Interval>, o: Interval, t: int)
    requires o in overrides && InSpan(t, o.start, o.end) && InSpan(t, shift.start, shift.end)
    requires forall y :: y in overrides && y != o && InSpan(t, y.start, y.end) ==> o.start < y.start
    ensures EffectiveUser(shift, overrides, t) == o.user
  {
    var selected := Selected(shift, overrides);
    var sorted := SortByStart(selected);
    SortByStartPermutation(selected);
    assert Overlaps(shift.start, shift.end, o.start, o.end);
    assert o in selected;
    assert o in multiset(selected);
    assert o in sorted;
    forall y | y in sorted && y != o && InSpan(t, y.start, y.end)
      ensures o.start < y.start
    {
      assert y in multiset(selected);
      assert y in overrides;
    }
    SortByStartSorted(selected);
    OwnerEarliest(shift.user, sorted, o, t);
  }

  lemma {:induction false} OwnerEarliest(base: User, os: seq<Interval>, o: Interval, t: int)
    requires SortedByStart(os) && o in os && InSpan(t, o.start, o.end)
    requires forall y :: y in os && y != o && InSpan(t, y.start, y.end) ==> o.start < y.start
    ensures Owner(base, os, t) == o.user
    decreases |os|
  {
    if os[0] != o {
      var m :| 0 <= m < |os| && os[m] == o;
      assert os[0].start <= os[m].start;
      assert o in os[1..];
      OwnerEarliest(base, os[1..], o, t);
    }
  }

  /**
   Among overrides of a sorted list that contain `t`, if `o` starts no later
   than any of them, only those sharing `o`'s start matter to the owner.
   */
  lemma {:induction false} OwnerAmongEqualStarts(base: User, os: seq<Interval>, o: Interval, t: int)
    requires SortedByStart(os) && o in os && InSpan(t, o.start, o.end)
    requires forall y :: y in os && InSpan(t, y.start, y.end) ==> o.start <= y.start
    ensures Owner(base, os, t) == Owner(base, WithStart(os, o.start), t)
    decreases |os|
  {
    var key := o.start;
    var m :| 0 <= m < |os| && os[m] == o;
    assert os[0].start <= key;
    var head := if os[0].start == key then [os[0]] else [];
    assert WithStart(os, key) == head + WithStart(os[1..], key);
    if InSpan(t, os[0].start, os[0].end) {
      assert os[0] in os;
      assert head == [os[0]];
    } else {
      assert o in os[1..];
      assert SortedByStart(os[1..]) by {
        assert forall i, j :: 0 <= i < j < |os[1..]| ==> os[1..][i] == os[i + 1] && os[1..][j] == os[j + 1];
      }
      OwnerAmongEqualStarts(base, os[1..], o, t);
      if head != [] {
        assert (head + WithStart(os[1..], key))[0] == os[0];
        assert (head + WithStart(os[1..], key))[1..] == WithStart(os[1..], key);
      } else {
        assert head + WithStart(os[1..], key) == WithStart(os[1..], key);
      }
    }
  }

  /** Overrides that do not contain `t` can be skipped when looking for its owner. */
  lemma {:induction false} OwnerSkipsMisses(base: User, a: seq<Interval>, b: seq<Interval>, t: int)
    requires forall m :: 0 <= m < |a| ==> !InSpan(t, a[m].start, a[m].end)
    ensures Owner(base, a + b, t) == Owner(base, b, t)
    decreases |a|
  {
    if a == [] {
      assert a + b == b;
    } else {
      assert (a + b)[0] == a[0] && (a + b)[1..] == a[1..] + b;
      OwnerSkipsMisses(base, a[1..], b, t);
    }
  }

  /**
   After the stable sort, the owner of `t` is decided among the overrides
   that share the earliest start of those containing `t`, in selection order.
   */
  lemma OwnerAfterSort(base: User, selected: seq<Interval>, o: Interval, t: int)
    requires o in selected && InSpan(t, o.start, o.end)
    requires forall y :: y in selected && InSpan(t, y.start, y.end) ==> o.start <= y.start
    ensures Owner(base, SortByStart(selected), t) == Owner(base, WithStart(selected, o.start), t)
  {
    var sorted := SortByStart(selected);
    SortByStartSorted(selected);
    SortByStartPermutation(selected);
    assert o in sorted by {
      assert o in multiset(selected);
    }
    forall y | y in sorted && InSpan(t, y.start, y.end)
      ensures o.start <= y.start
    {
      assert y in multiset(selected);
    }
    OwnerAmongEqualStarts(base, sorted, o, t);
    SortStable(selected, o.start);
  }

  /** Selecting around an overlapping override: what precedes it, the override, what follows. */
  lemma SelectedAround(shift: Interval, overrides: seq<Interval>, i: int)
    requires 0 <= i < |overrides| && Overlaps(shift.start, shift.end, overrides[i].start, overrides[i].end)
    ensures Selected(shift, overrides)
            == Selected(shift, overrides[..i]) + [overrides[i]] + Selected(shift, overrides[i + 1..])
  {
    var o, pre, post := overrides[i], overrides[..i], overrides[i + 1..];
    assert overrides == pre + [o] + post;
    SelectedAppend(shift, pre + [o], post);
    SelectedAppend(shift, pre, [o]);
    assert Selected(shift, [o]) == Selected(shift, []) + [o];
  }

  /**
   Overrides listed before override `i` that share its start do not contain
   `t`, when every override containing `t` that shares its start is listed no
   earlier.
   */
  lemma EarlierTiesMiss(shift: Interval, overrides: seq<Interval>, i: int, t: int)
    requires 0 <= i < |overrides|
    requires forall j :: 0 <= j < |overrides| && InSpan(t, overrides[j].start, overrides[j].end) ==>
               overrides[i].start < overrides[j].start || (overrides[i].start == overrides[j].start && i <= j)
    ensures forall m :: 0 <= m < |WithStart(Selected(shift, overrides[..i]), overrides[i].start)| ==>
              !InSpan(t, WithStart(Selected(shift, overrides[..i]), overrides[i].start)[m].start,
                      WithStart(Selected(shift, overrides[..i]), overrides[i].start)[m].end)
  {
    var pre, key := overrides[..i], overrides[i].start;
    var front := WithStart(Selected(shift, pre), key);
    WithStartMembers(Selected(shift, pre), key);
    forall m | 0 <= m < |front|
      ensures !InSpan(t, front[m].start, front[m].end)
    {
      assert front[m] in front;
      var j :| 0 <= j < |pre| && pre[j] == front[m];
      assert overrides[j] == front[m];
    }
  }

  /**
   Ties between overrides with the same start are settled by input order:
   an override containing `t` of the shift, such that every override
   containing `t` starts later or, starting at the same instant, is listed no
   earlier, decides who holds `t`.
   */
  lemma FirstListedWins(shift: Interval, overrides: seq<Interval>, i: int, t: int)
    requires 0 <= i < |overrides|
    requires InSpan(t, overrides[i].start, overrides[i].end) && InSpan(t, shift.start, shift.end)
    requires forall j :: 0 <= j < |overrides| && InSpan(t, overrides[j].start, overrides[j].end) ==>
               overrides[i].start < overrides[j].start || (overrides[i].start == overrides[j].start && i <= j)
    ensures EffectiveUser(shift, overrides, t) == overrides[i].user
  {
    var o, key := overrides[i], overrides[i].start;
    var selPre, selPost := Selected(shift, overrides[..i]), Selected(shift, overrides[i + 1..]);
    var selected := Selected(shift, overrides);
    SelectedAround(shift, overrides, i);
    assert selected == selPre + [o] + selPost;
    forall y | y in selected && InSpan(t, y.start, y.end)
      ensures key <= y.start
    {
      var j :| 0 <= j < |overrides| && overrides[j] == y;
    }
    OwnerAfterSort(shift.user, selected, o, t);
    WithStartAround(selPre, o, selPost);
    EarlierTiesMiss(shift, overrides, i, t);
    OwnerSkipsMisses(shift.user, WithStart(selPre, key), [o] + WithStart(selPost, key), t);
  }

  /**
   The tie from the other side: over the shift `[0, 10)`, the overrides
   `[0, 10)` for C and `[0, 5)` for D start together; C is listed first and
   takes the whole shift, D claims nothing.
   */
  lemma TieKeepsInputOrder(a: User, c: User, d: User)
    ensures SplitShift(Interval(0, 10, a), [Interval(0, 10, c), Interval(0, 5, d)]) == [Interval(0, 10, c)]
  {
    var shift, oc, od := Interval(0, 10, a), Interval(0, 10, c), Interval(0, 5, d);
    assert [oc, od][..1] == [oc] && [oc][..0] == [];
    assert Selected(shift, [oc]) == [oc];
    assert Selected(shift, [oc, od]) == [oc, od];
    assert SortByStart([oc]) == [oc];
    assert InsertByStart(od, [oc]) == [oc, od];
    assert SortByStart([oc, od]) == [oc, od];
    WalkStep(shift, 0, [oc, od]);
    WalkStep(shift, 10, [od]);
    assert Walk(shift, 10, []) == [];
  }

  /**
   A zero-length override strictly inside the shift claims nothing but still
   splits the base piece in two at its start.
   */
  lemma EmptyOverrideSplits(a: User, c: User)
    ensures SplitShift(Interval(0, 10, a), [Interval(5, 5, c)]) == [Interval(0, 5, a), Interval(5, 10, a)]
  {
    var shift, o := Interval(0, 10, a), Interval(5, 5, c);
    assert Selected(shift, [o]) == [o];
    assert SortByStart([o]) == [o];
    WalkStep(shift, 0, [o]);
    assert Walk(shift, 5, []) == [Interval(5, 10, a)];
  }

  /**
   Why tiling asks for overrides that are not reversed: a reversed override `[5, 2)`
   passes the overlap test against the shift `[0, 10)`: the gap `[0, 5)` is
   emitted, nothing is claimed, and the cursor only reaches 2, so the two
   base pieces overlap on `[2, 5)`.
   */
  lemma ReversedOverrideOverlaps(a: User, c: User)
    ensures SplitShift(Interval(0, 10, a), [Interval(5, 2, c)]) == [Interval(0, 5, a), Interval(2, 10, a)]
  {
    var shift, o := Interval(0, 10, a), Interval(5, 2, c);
    assert Selected(shift, [o]) == [o];
    assert SortByStart([o]) == [o];
    WalkStep(shift, 0, [o]);
    assert Walk(shift, 2, []) == [Interval(2, 10, a)];
  }

  /**
   An override that covers the whole shift, and starts strictly before every
   other override intersecting the shift, replaces the shift's user entirely:
   the shift becomes one piece, held by the override's user. An override
   exactly equal to the shift is the common case.
   */
  lemma FullOverrideReplacesShift(shift: Interval, overrides: seq<Interval>, o: Interval)
    requires shift.start < shift.end
    requires o in overrides && o.start <= shift.start && shift.end <= o.end
    requires forall y :: y in overrides && y != o && Overlaps(shift.start, shift.end, y.start, y.end) ==> o.start < y.start
    ensures SplitShift(shift, overrides) == [Interval(shift.start, shift.end, o.user)]
  {
    var selected := Selected(shift, overrides);
    var sorted := SortByStart(selected);
    SortByStartPermutation(selected);
    assert Overlaps(shift.start, shift.end, o.start, o.end);
    assert o in selected;
    assert o in multiset(selected);
    assert o in sorted;
    var m :| 0 <= m < |sorted| && sorted[m] == o;
    SortByStartSorted(selected);
    assert sorted[0] in multiset(selected);
    assert sorted[0] in overrides;
    assert sorted[0].start <= o.start;
    assert sorted[0] == o;
    WalkPastEnd(shift, shift.end, sorted[1..]);
    WalkStep(shift, shift.start, sorted);
    assert SplitShift(shift, overrides) == Walk(shift, shift.start, sorted);
  }

  /**
   When every override overlapping the shift and sharing the start of override
   `i` is listed no earlier than it, none listed before it is selected with
   that start.
   */
  lemma NoEarlierTie(shift: Interval, overrides: seq<Interval>, i: int)
    requires 0 <= i < |overrides|
    requires forall j :: 0 <= j < |overrides| && Overlaps(shift.start, shift.end, overrides[j].start, overrides[j].end) ==>
               overrides[i].start < overrides[j].start || (overrides[i].start == overrides[j].start && i <= j)
    ensures WithStart(Selected(shift, overrides[..i]), overrides[i].start) == []
  {
    var pre, key := overrides[..i], overrides[i].start;
    forall y | y in Selected(shift, pre)
      ensures y.start != key
    {
      var j :| 0 <= j < |pre| && pre[j] == y;
      assert overrides[j] == y;
    }
    WithStartNone(Selected(shift, pre), key);
  }

  /**
   The ordering behind `FirstListedReplacesShift`: when override `i` overlaps
   the shift and every overlapping override starts later or, starting
   together, is listed no earlier, the stable sort puts it first.
   */
  lemma FirstListedSortsFirst(shift: Interval, overrides: seq<Interval>, i: int)
    requires 0 <= i < |overrides| && Overlaps(shift.start, shift.end, overrides[i].start, overrides[i].end)
    requires forall j :: 0 <= j < |overrides| && Overlaps(shift.start, shift.end, overrides[j].start, overrides[j].end) ==>
               overrides[i].start < overrides[j].start || (overrides[i].start == overrides[j].start && i <= j)
    ensures SortByStart(Selected(shift, overrides)) != []
    ensures SortByStart(Selected(shift, overrides))[0] == overrides[i]
  {
    var o := overrides[i];
    var selPre, selPost := Selected(shift, overrides[..i]), Selected(shift, overrides[i + 1..]);
    var selected := Selected(shift, overrides);
    SelectedAround(shift, overrides, i);
    NoEarlierTie(shift, overrides, i);
    WithStartAround(selPre, o, selPost);
    forall y | y in selected
      ensures o.start <= y.start
    {
      var j :| 0 <= j < |overrides| && overrides[j] == y;
    }
    FirstOfLeastKey(selected, o);
  }

  /**
   The tie-aware form of `FullOverrideReplacesShift`: an override covering the
   whole shift replaces it when every overlapping override starts later or,
   starting together, is listed no earlier.
   */
  lemma FirstListedReplacesShift(shift: Interval, overrides: seq<Interval>, i: int)
    requires shift.start < shift.end
    requires 0 <= i < |overrides| && overrides[i].start <= shift.start && shift.end <= overrides[i].end
    requires forall j :: 0 <= j < |overrides| && Overlaps(shift.start, shift.end, overrides[j].start, overrides[j].end) ==>
               overrides[i].start < overrides[j].start || (overrides[i].start == overrides[j].start && i <= j)
    ensures SplitShift(shift, overrides) == [Interval(shift.start, shift.end, overrides[i].user)]
  {
    var sorted := SortByStart(Selected(shift, overrides));
    FirstListedSortsFirst(shift, overrides, i);
    WalkStep(shift, shift.start, sorted);
    WalkPastEnd(shift, shift.end, sorted[1..]);
  }

  /**
   The shadowing step fails for a reversed override: after `[0, 3)` the
   cursor is at 3, past the clamped end 2 of `[5, 2)`, yet the gap `[3, 5)`
   is still emitted.
   */
  lemma ReversedShadowedGap(a: User)
    ensures Gap(Interval(0, 10, a), 3, Interval(5, 2, a)) == [Interval(3, 5, a)]
    ensures Claimed(Interval(0, 10, a), 3, Interval(5, 2, a)) == []
    ensures Advance(Interval(0, 10, a), 3, Interval(5, 2, a)) == 3
  {
  }

  /**
   The pieces of all shifts, in shift order: the result of the outer loop
   after it has handled `shifts`.
   */
  function Composite(shifts: seq<Interval>, overrides: seq<Interval>): seq<Interval>
    decreases |shifts|
  {
    if shifts == [] then []
    else Composite(shifts[..|shifts| - 1], overrides) + SplitShift(shifts[|shifts| - 1], overrides)
  }

  /** Every composited piece lies in the span the shifts lie in. */
  lemma {:induction false} CompositeBounds(shifts: seq<Interval>, overrides: seq<Interval>, lo: int, hi: int)
    requires forall m :: 0 <= m < |shifts| ==> lo <= shifts[m].start && shifts[m].end <= hi
    ensures forall j :: 0 <= j < |Composite(shifts, overrides)| ==>
              lo <= Composite(shifts, overrides)[j].start && Composite(shifts, overrides)[j].end <= hi
    decreases |shifts|
  {
    if shifts != [] {
      var init, last := shifts[..|shifts| - 1], shifts[|shifts| - 1];
      assert forall m :: 0 <= m < |init| ==> init[m] == shifts[m];
      CompositeBounds(init, overrides, lo, hi);
      var front, back := Composite(init, overrides), SplitShift(last, overrides);
      var r := Composite(shifts, overrides);
      assert r == front + back;
      assert lo <= last.start && last.end <= hi;
      forall j | 0 <= j < |r|
        ensures lo <= r[j].start && r[j].end <= hi
      {
        if j < |front| {
          assert r[j] == front[j];
        } else {
          assert r[j] == back[j - |front|];
        }
      }
    }
  }

  /**
   Coverage and partition: when the base shifts tile `[lo, hi)` and no
   override is reversed, so do the composited pieces.
   */
  lemma {:induction false} CompositeTiles(shifts: seq<Interval>, overrides: seq<Interval>, lo: int, hi: int)
    requires Tiles(shifts, lo, hi) && NotReversed(overrides)
    ensures Tiles(Composite(shifts, overrides), lo, hi)
    decreases |shifts|
  {
    if shifts != [] {
      var init, last := shifts[..|shifts| - 1], shifts[|shifts| - 1];
      TilesInit(shifts, lo, hi);
      CompositeTiles(init, overrides, lo, last.start);
      SplitShiftTiles(last, overrides);
      TilesAppend(Composite(init, overrides), SplitShift(last, overrides), lo, last.start, hi);
    }
  }

  /** Piece `p` lies inside shift `s`. */
  predicate Within(p: Interval, s: Interval) {
    s.start <= p.start && p.end <= s.end
  }

  /**
   Overrides are cut at every shift boundary they cross, never merged across
   one: each composited piece lies inside a single base shift.
   */
  lemma {:induction false} CompositeWithinShifts(shifts: seq<Interval>, overrides: seq<Interval>)
    ensures forall j :: 0 <= j < |Composite(shifts, overrides)| ==>
              exists k :: 0 <= k < |shifts| && Within(Composite(shifts, overrides)[j], shifts[k])
    decreases |shifts|
  {
    if shifts != [] {
      var init, last := shifts[..|shifts| - 1], shifts[|shifts| - 1];
      CompositeWithinShifts(init, overrides);
      var front, back := Composite(init, overrides), SplitShift(last, overrides);
      var r := Composite(shifts, overrides);
      assert r == front + back;
      forall j | 0 <= j < |r|
        ensures exists k :: 0 <= k < |shifts| && Within(r[j], shifts[k])
      {
        if j < |front| {
          assert r[j] == front[j];
          var k :| 0 <= k < |init| && Within(front[j], init[k]);
          assert init[k] == shifts[k];
          assert Within(r[j], shifts[k]);
        } else {
          var p := back[j - |front|];
          assert r[j] == p;
          assert last.start <= p.start && p.end <= last.end;
          assert Within(r[j], shifts[|shifts| - 1]);
        }
      }
    } else {
      assert Composite(shifts, overrides) == [];
    }
  }

  /** Overrides that intersect no shift leave non-empty base shifts exactly as they were. */
  lemma {:induction false} CompositeUntouched(shifts: seq<Interval>, overrides: seq<Interval>)
    requires forall m :: 0 <= m < |shifts| ==> shifts[m].start < shifts[m].end
    requires forall m, k :: 0 <= m < |shifts| && 0 <= k < |overrides| ==>
               !Overlaps(shifts[m].start, shifts[m].end, overrides[k].start, overrides[k].end)
    ensures Composite(shifts, overrides) == shifts
    decreases |shifts|
  {
    if shifts != [] {
      var init, last := shifts[..|shifts| - 1], shifts[|shifts| - 1];
      CompositeUntouched(init, overrides);
      SplitShiftUntouched(last, overrides);
      assert shifts == init + [last];
    }
  }

  /**
   Over base shifts that tile a span, a composited piece containing instant
   `t` of shift `k` is held by the effective user of `t` in that shift.
   */
  lemma {:induction false} CompositeOwner(shifts: seq<Interval>, overrides: seq<Interval>, lo: int, hi: int, k: int, t: int)
    requires Tiles(shifts, lo, hi) && 0 <= k < |shifts| && InSpan(t, shifts[k].start, shifts[k].end)
    ensures HeldBy(Composite(shifts, overrides), t, EffectiveUser(shifts[k], overrides, t))
    decreases |shifts|
  {
    var init, last := shifts[..|shifts| - 1], shifts[|shifts| - 1];
    var front, back := Composite(init, overrides), SplitShift(last, overrides);
    var user := EffectiveUser(shifts[k], overrides, t);
    assert Composite(shifts, overrides) == front + back;
    TilesInit(shifts, lo, hi);
    forall m | 0 <= m < |init|
      ensures lo <= init[m].start && init[m].end <= last.start
    {
      TilesBounds(init, lo, last.start, m);
    }
    CompositeBounds(init, overrides, lo, last.start);
    if k == |shifts| - 1 {
      // t lies in the last shift, after every piece of the earlier ones
      SplitShiftOwner(last, overrides, t);
      assert HeldBy(front, t, user);
    } else {
      // t lies before the last shift, hence before every piece of it
      TilesOrdered(shifts, lo, hi, k, |shifts| - 1);
      assert init[k] == shifts[k];
      CompositeOwner(init, overrides, lo, last.start, k, t);
      assert HeldBy(back, t, user);
    }
    HeldByConcat(front, back, t, user);
  }

  lemma ConcatAssoc(a: seq<Interval>, b: seq<Interval>, c: seq<Interval>, d: seq<Interval>)
    ensures a + b + c + d == a + (b + c + d)
  {
  }

  /** The selection loop: the overrides that intersect the shift, in input order (main.py:67-73). */
  method SelectOverrides(shift: Interval, overrides: seq<Interval>) returns (parsedOverrides: seq<Interval>)
    ensures parsedOverrides == Selected(shift, overrides)
  {
    parsedOverrides := [];
    for j := 0 to |overrides|
      invariant parsedOverrides == Selected(shift, overrides[..j])
    {
      var o := overrides[j];
      if Overlaps(shift.start, shift.end, o.start, o.end) {
        parsedOverrides := parsedOverrides + [o];
      }
      assert overrides[..j + 1] == overrides[..j] + [o];
    }
    assert overrides[..|overrides|] == overrides;
  }

  /** The body of the outer loop for one base shift (main.py:65-94). */
  method ComposeShift(shift: Interval, overrides: seq<Interval>) returns (pieces: seq<Interval>)
    ensures pieces == SplitShift(shift, overrides)
  {
    var currentStart := shift.start;
    var parsedOverrides := SelectOverrides(shift, overrides);
    parsedOverrides := SortByStart(parsedOverrides);

    pieces := [];
    assert parsedOverrides[0..] == parsedOverrides;
    for i := 0 to |parsedOverrides|
      invariant pieces + Walk(shift, currentStart, parsedOverrides[i..]) == Walk(shift, shift.start, parsedOverrides)
    {
      var o := parsedOverrides[i];
      ghost var before, gap, claimed := pieces, Gap(shift, currentStart, o), Claimed(shift, currentStart, o);
      ghost var rest := Walk(shift, Advance(shift, currentStart, o), parsedOverrides[i + 1..]);
      assert parsedOverrides[i..][1..] == parsedOverrides[i + 1..];
      WalkStep(shift, currentStart, parsedOverrides[i..]);
      assert Walk(shift, currentStart, parsedOverrides[i..]) == gap + claimed + rest;
      if currentStart < o.start < shift.end {
        pieces := pieces + [Interval(currentStart, o.start, shift.user)];
      }
      var actualStart := Max(currentStart, o.start);
      var actualEnd := Min(shift.end, o.end);
      if actualStart < actualEnd {
        pieces := pieces + [Interval(actualStart, actualEnd, o.user)];
      }
      assert pieces == before + gap + claimed;
      currentStart := Max(currentStart, actualEnd);
      assert rest == Walk(shift, currentStart, parsedOverrides[i + 1..]);
      ConcatAssoc(before, gap, claimed, rest);
    }
    if currentStart < shift.end {
      pieces := pieces + [Interval(currentStart, shift.end, shift.user)];
    }
  }

  /** The compositor: the shifts' pieces, shift after shift (main.py:61-96). */
  method ApplyOverrides(baseShifts: seq<Interval>, overrides: seq<Interval>) returns (result: seq<Interval>)
    ensures result == Composite(baseShifts, overrides)
  {
    result := [];
    for i := 0 to |baseShifts|
      invariant result == Composite(baseShifts[..i], overrides)
    {
      var pieces := ComposeShift(baseShifts[i], overrides);
      assert baseShifts[..i + 1][..i] == baseShifts[..i];
      result := result + pieces;
    }
    assert baseShifts[..|baseShifts|] == baseShifts;
  }
}
