/**
 The whole pipeline of render_schedule (main.py:114-120): generate the base
 rotation up to the window's end, lay the overrides over it, clip to the
 window and drop what is left empty. Parsing of the configuration, of the
 overrides and of the timestamps happens before this point and is not
 modelled: the inputs are already instants, users and intervals.
 */
module Schedule {
  import opened Intervals
  import opened StableSort
  import opened RotationGenerator
  import opened Compositor
  import opened Clipper

  /**
   The schedule for the window `[fromTime, untilTime)`: entries lie inside the
   window, are non-empty, and a window that ends before it starts has none.
   */
  function ScheduleEntries(users: seq<User>, anchor: int, interval: int, overrides: seq<Interval>,
                           fromTime: int, untilTime: int): (r: seq<Interval>)
    requires anchor < untilTime ==> |users| > 0 && interval > 0
    ensures forall j :: 0 <= j < |r| ==> fromTime <= r[j].start < r[j].end <= untilTime
    ensures untilTime <= fromTime ==> r == []
  {
    ClipAll(Composite(BaseShifts(users, anchor, interval, untilTime), overrides), fromTime, untilTime)
  }

  /** The three stages in sequence, as the source runs them. */
  method RenderSchedule(users: seq<User>, handoverStart: int, interval: int, overrides: seq<Interval>,
                        fromTime: int, untilTime: int) returns (entries: seq<Interval>)
    requires handoverStart < untilTime ==> |users| > 0 && interval > 0
    ensures entries == ScheduleEntries(users, handoverStart, interval, overrides, fromTime, untilTime)
  {
    var baseShifts := GenerateBaseShifts(users, handoverStart, interval, fromTime, untilTime);
    var finalShifts := ApplyOverrides(baseShifts, overrides);
    entries := ClipAll(finalShifts, fromTime, untilTime);
  }

  /**
   Coverage: with no reversed override, the entries tile the part of the
   window from the anchor on — every instant of it has exactly one on-call
   user, and the entries come in chronological order.
   */
  lemma ScheduleCoverage(users: seq<User>, anchor: int, interval: int, overrides: seq<Interval>,
                         fromTime: int, untilTime: int)
    requires anchor < untilTime ==> |users| > 0 && interval > 0
    requires NotReversed(overrides)
    requires Max(anchor, fromTime) < untilTime
    ensures Tiles(ScheduleEntries(users, anchor, interval, overrides, fromTime, untilTime), Max(anchor, fromTime), untilTime)
  {
    var shifts := BaseShifts(users, anchor, interval, untilTime);
    var last := shifts[|shifts| - 1].end;
    BaseShiftsTile(users, anchor, interval, untilTime);
    CompositeTiles(shifts, overrides, anchor, last);
    ClipAllTiles(Composite(shifts, overrides), anchor, last, fromTime, untilTime);
  }

  /**
   Ownership: every instant of every entry lies in the window and in some base
   shift `k`, and the entry's user is the one who holds that instant of shift
   `k` once its overlapping overrides are laid over it in order of start.
   */
  lemma EntryOrigin(users: seq<User>, anchor: int, interval: int, overrides: seq<Interval>,
                    fromTime: int, untilTime: int, j: int, t: int)
    requires anchor < untilTime ==> |users| > 0 && interval > 0
    requires 0 <= j < |ScheduleEntries(users, anchor, interval, overrides, fromTime, untilTime)|
    requires InSpan(t, ScheduleEntries(users, anchor, interval, overrides, fromTime, untilTime)[j].start,
                    ScheduleEntries(users, anchor, interval, overrides, fromTime, untilTime)[j].end)
    ensures InSpan(t, fromTime, untilTime)
    ensures exists k :: 0 <= k < |BaseShifts(users, anchor, interval, untilTime)|
                        && InSpan(t, BaseShifts(users, anchor, interval, untilTime)[k].start, BaseShifts(users, anchor, interval, untilTime)[k].end)
                        && ScheduleEntries(users, anchor, interval, overrides, fromTime, untilTime)[j].user
                           == EffectiveUser(BaseShifts(users, anchor, interval, untilTime)[k], overrides, t)
  {
    var shifts := BaseShifts(users, anchor, interval, untilTime);
    var composite := Composite(shifts, overrides);
    ClipAllOrigin(composite, fromTime, untilTime, j, t);
    var kk :| 0 <= kk < |composite| && InSpan(t, composite[kk].start, composite[kk].end)
              && composite[kk].user == ScheduleEntries(users, anchor, interval, overrides, fromTime, untilTime)[j].user;
    var last := shifts[|shifts| - 1].end;
    BaseShiftsTile(users, anchor, interval, untilTime);
    forall m | 0 <= m < |shifts|
      ensures anchor <= shifts[m].start && shifts[m].end <= last
    {
      TilesBounds(shifts, anchor, last, m);
    }
    CompositeBounds(shifts, overrides, anchor, last);
    TilesPartition(shifts, anchor, last, t);
    var k :| 0 <= k < |shifts| && InSpan(t, shifts[k].start, shifts[k].end);
    CompositeOwner(shifts, overrides, anchor, last, k, t);
  }

  /**
   Override precedence: an override that covers `t` and starts strictly before
   every other override covering `t` decides who is on call at `t`.
   */
  lemma OverridePrecedence(users: seq<User>, anchor: int, interval: int, overrides: seq<Interval>,
                           fromTime: int, untilTime: int, o: Interval, t: int)
    requires anchor < untilTime ==> |users| > 0 && interval > 0
    requires o in overrides && InSpan(t, o.start, o.end)
    requires forall y :: y in overrides && y != o && InSpan(t, y.start, y.end) ==> o.start < y.start
    ensures HeldBy(ScheduleEntries(users, anchor, interval, overrides, fromTime, untilTime), t, o.user)
  {
    var entries := ScheduleEntries(users, anchor, interval, overrides, fromTime, untilTime);
    var shifts := BaseShifts(users, anchor, interval, untilTime);
    forall j | 0 <= j < |entries| && InSpan(t, entries[j].start, entries[j].end)
      ensures entries[j].user == o.user
    {
      EntryOrigin(users, anchor, interval, overrides, fromTime, untilTime, j, t);
      var k :| 0 <= k < |shifts| && InSpan(t, shifts[k].start, shifts[k].end)
               && entries[j].user == EffectiveUser(shifts[k], overrides, t);
      EarliestStartWins(shifts[k], overrides, o, t);
    }
  }

  /**
   Ties in the schedule: an override covering `t` such that every override
   covering `t` starts later, or starts at the same instant and is listed no
   earlier, holds `t` — overrides with equal starts win in input order.
   */
  lemma FirstListedPrecedence(users: seq<User>, anchor: int, interval: int, overrides: seq<Interval>,
                              fromTime: int, untilTime: int, i: int, t: int)
    requires anchor < untilTime ==> |users| > 0 && interval > 0
    requires 0 <= i < |overrides| && InSpan(t, overrides[i].start, overrides[i].end)
    requires forall j :: 0 <= j < |overrides| && InSpan(t, overrides[j].start, overrides[j].end) ==>
               overrides[i].start < overrides[j].start || (overrides[i].start == overrides[j].start && i <= j)
    ensures HeldBy(ScheduleEntries(users, anchor, interval, overrides, fromTime, untilTime), t, overrides[i].user)
  {
    var entries := ScheduleEntries(users, anchor, interval, overrides, fromTime, untilTime);
    var shifts := BaseShifts(users, anchor, interval, untilTime);
    forall j | 0 <= j < |entries| && InSpan(t, entries[j].start, entries[j].end)
      ensures entries[j].user == overrides[i].user
    {
      EntryOrigin(users, anchor, interval, overrides, fromTime, untilTime, j, t);
      var k :| 0 <= k < |shifts| && InSpan(t, shifts[k].start, shifts[k].end)
               && entries[j].user == EffectiveUser(shifts[k], overrides, t);
      FirstListedWins(shifts[k], overrides, i, t);
    }
  }

  /** Whole multiples of `n` are at least `n` apart. */
  lemma {:induction false} MultiplesApart(a: int, b: int, n: int)
    requires n > 0 && a < b
    ensures a * n + n <= b * n
    decreases b - a
  {
    if a + 1 < b {
      MultiplesApart(a + 1, b, n);
    }
    assert (a + 1) * n == a * n + n;
  }

  /** The shift index `k` is recovered from an instant of shift `k`. */
  lemma ShiftIndex(x: int, k: int, n: int)
    requires n > 0 && k * n <= x < k * n + n
    ensures x / n == k
  {
    var q := x / n;
    assert q * n <= x < q * n + n;
    if q < k {
      MultiplesApart(q, k, n);
    } else if q > k {
      MultiplesApart(k, q, n);
    }
  }

  /** Base shift `k` belongs to user `((t - anchor) / interval) mod |users|` for each of its instants `t`. */
  lemma ShiftUser(users: seq<User>, anchor: int, interval: int, untilTime: int, k: int, t: int)
    requires |users| > 0 && interval > 0
    requires 0 <= k < |BaseShifts(users, anchor, interval, untilTime)|
    requires InSpan(t, BaseShifts(users, anchor, interval, untilTime)[k].start, BaseShifts(users, anchor, interval, untilTime)[k].end)
    ensures BaseShifts(users, anchor, interval, untilTime)[k].user == users[((t - anchor) / interval) % |users|]
  {
    ShiftAt(users, anchor, interval, untilTime, 0, k);
    ShiftIndex(t - anchor, k, interval);
  }

  /**
   The rotation: where no override covers `t`, the instant belongs to user
   number `((t - anchor) / interval) mod |users|`, counting whole intervals
   from the anchor.
   */
  lemma RotationHolds(users: seq<User>, anchor: int, interval: int, overrides: seq<Interval>,
                      fromTime: int, untilTime: int, t: int)
    requires |users| > 0 && interval > 0
    requires forall o :: o in overrides ==> !InSpan(t, o.start, o.end)
    ensures HeldBy(ScheduleEntries(users, anchor, interval, overrides, fromTime, untilTime), t,
                   users[((t - anchor) / interval) % |users|])
  {
    var entries := ScheduleEntries(users, anchor, interval, overrides, fromTime, untilTime);
    var shifts := BaseShifts(users, anchor, interval, untilTime);
    forall j | 0 <= j < |entries| && InSpan(t, entries[j].start, entries[j].end)
      ensures entries[j].user == users[((t - anchor) / interval) % |users|]
    {
      EntryOrigin(users, anchor, interval, overrides, fromTime, untilTime, j, t);
      var k :| 0 <= k < |shifts| && InSpan(t, shifts[k].start, shifts[k].end)
               && entries[j].user == EffectiveUser(shifts[k], overrides, t);
      UncoveredKeepsBase(shifts[k], overrides, t);
      ShiftUser(users, anchor, interval, untilTime, k, t);
    }
  }

  /**
   Overrides that touch no base shift change nothing: the schedule is the
   clipped rotation alone.
   */
  lemma IrrelevantOverrides(users: seq<User>, anchor: int, interval: int, overrides: seq<Interval>,
                            fromTime: int, untilTime: int)
    requires anchor < untilTime ==> |users| > 0 && interval > 0
    requires forall m, k :: 0 <= m < |BaseShifts(users, anchor, interval, untilTime)| && 0 <= k < |overrides| ==>
               !Overlaps(BaseShifts(users, anchor, interval, untilTime)[m].start, BaseShifts(users, anchor, interval, untilTime)[m].end,
                         overrides[k].start, overrides[k].end)
    ensures ScheduleEntries(users, anchor, interval, overrides, fromTime, untilTime)
            == ClipAll(BaseShifts(users, anchor, interval, untilTime), fromTime, untilTime)
  {
    BaseShiftsTile(users, anchor, interval, untilTime);
    CompositeUntouched(BaseShifts(users, anchor, interval, untilTime), overrides);
  }

  /** The rotation of the worked example: `[0, 3)` for A, `[3, 6)` for B, `[6, 9)` for A. */
  lemma WorkedRotation(a: User, b: User)
    ensures BaseShifts([a, b], 0, 3, 9) == [Interval(0, 3, a), Interval(3, 6, b), Interval(6, 9, a)]
  {
    assert ShiftsFrom([a, b], 9, 3, 9, 3) == [];
    assert ShiftsFrom([a, b], 6, 3, 9, 2) == [Interval(6, 9, a)];
    assert ShiftsFrom([a, b], 3, 3, 9, 1) == [Interval(3, 6, b), Interval(6, 9, a)];
  }

  /** The override `[1, 3)` for C splits the first shift of the worked example. */
  lemma WorkedSplit(a: User, c: User)
    ensures SplitShift(Interval(0, 3, a), [Interval(1, 3, c)]) == [Interval(0, 1, a), Interval(1, 3, c)]
  {
    var s0, o := Interval(0, 3, a), Interval(1, 3, c);
    assert Selected(s0, [o]) == [o];
    assert SortByStart([o]) == [o];
    WalkStep(s0, 0, [o]);
    assert Walk(s0, 3, []) == [];
  }

  /** The composited pieces of the worked example, before clipping. */
  lemma WorkedComposite(a: User, b: User, c: User)
    ensures Composite([Interval(0, 3, a), Interval(3, 6, b), Interval(6, 9, a)], [Interval(1, 3, c)])
            == [Interval(0, 1, a), Interval(1, 3, c), Interval(3, 6, b), Interval(6, 9, a)]
  {
    var overrides := [Interval(1, 3, c)];
    var s0, s1, s2 := Interval(0, 3, a), Interval(3, 6, b), Interval(6, 9, a);
    WorkedSplit(a, c);
    SplitShiftUntouched(s1, overrides);
    SplitShiftUntouched(s2, overrides);
    assert [s0, s1, s2][..2] == [s0, s1] && [s0, s1][..1] == [s0] && [s0][..0] == [];
    assert Composite([s0], overrides) == [Interval(0, 1, a), Interval(1, 3, c)];
    assert Composite([s0, s1], overrides) == Composite([s0], overrides) + [s1];
  }

  /**
   Users `[A, B]`, anchor 0, interval 3, window `[0, 9)`, one override
   `[1, 3)` for C: A holds `[0, 1)`, C `[1, 3)`, B `[3, 6)` and A `[6, 9)`.
   */
  lemma WorkedExample(a: User, b: User, c: User)
    ensures ScheduleEntries([a, b], 0, 3, [Interval(1, 3, c)], 0, 9)
            == [Interval(0, 1, a), Interval(1, 3, c), Interval(3, 6, b), Interval(6, 9, a)]
  {
    var pieces := [Interval(0, 1, a), Interval(1, 3, c), Interval(3, 6, b), Interval(6, 9, a)];
    WorkedRotation(a, b);
    WorkedComposite(a, b, c);
    ClipAllInsideWindow(pieces, 0, 9);
  }
}
