/**
 The rotation generator (main.py:27-41): consecutive base shifts of one fixed
 length, starting at the anchor instant and cycling through the users, until
 a shift starts at or after the window's end.
 */
module RotationGenerator {
  import opened Intervals

  /**
   The shifts produced from the moment the generator's cursor is at `start`
   and its counter is `i`. If the loop body runs at all, the source fails on
   the modulo when there are no users, loops forever when the interval is
   zero, and with a negative interval walks backwards until its date
   arithmetic overflows: the precondition excludes these cases.
   */
  function ShiftsFrom(users: seq<User>, start: int, interval: int, until: int, i: nat): (r: seq<Interval>)
    requires start < until ==> |users| > 0 && interval > 0
    ensures |r| == 0 <==> until <= start
    ensures |r| > 0 ==> r[0].start == start && r[|r| - 1].end >= until
    decreases if start < until then until - start else 0
  {
    if start < until then
      [Interval(start, start + interval, users[i % |users|])] + ShiftsFrom(users, start + interval, interval, until, i + 1)
    else
      []
  }

  /**
   Shift `k` of the rotation: it starts `k` intervals after `start`, before
   `until`; it lasts one interval; it goes to user `(i + k) mod |users|`; and
   it ends where shift `k + 1` starts.
   */
  lemma {:induction false} ShiftAt(users: seq<User>, start: int, interval: int, until: int, i: nat, k: int)
    requires start < until ==> |users| > 0 && interval > 0
    requires 0 <= k < |ShiftsFrom(users, start, interval, until, i)|
    ensures var r := ShiftsFrom(users, start, interval, until, i);
            && |users| > 0
            && r[k].start == start + k * interval
            && r[k].start < until
            && r[k].end == r[k].start + interval
            && r[k].user == users[(i + k) % |users|]
            && (k + 1 < |r| ==> r[k].end == r[k + 1].start)
    decreases k
  {
    var rest := ShiftsFrom(users, start + interval, interval, until, i + 1);
    if k > 0 {
      ShiftAt(users, start + interval, interval, until, i + 1, k - 1);
      assert start + interval + (k - 1) * interval == start + k * interval;
      assert (i + 1) + (k - 1) == i + k;
    } else if rest != [] {
      assert rest[0].start == start + interval;
    }
  }

  /** The base rotation: shift `k` goes to `users[k % |users|]`, counted from the anchor. */
  function BaseShifts(users: seq<User>, anchor: int, interval: int, until: int): (r: seq<Interval>)
    requires anchor < until ==> |users| > 0 && interval > 0
    ensures |r| == 0 <==> until <= anchor
    ensures |r| > 0 ==> r[0].start == anchor && r[|r| - 1].end >= until
  {
    ShiftsFrom(users, anchor, interval, until, 0)
  }

  /** The base shifts are contiguous, each one interval long: they tile `[anchor, end of the last)`. */
  lemma BaseShiftsTile(users: seq<User>, anchor: int, interval: int, until: int)
    requires anchor < until ==> |users| > 0 && interval > 0
    ensures var r := BaseShifts(users, anchor, interval, until);
            |r| > 0 ==> Tiles(r, anchor, r[|r| - 1].end)
  {
    var r := BaseShifts(users, anchor, interval, until);
    forall k | 0 <= k < |r|
      ensures r[k].start < r[k].end && (k + 1 < |r| ==> r[k].end == r[k + 1].start)
    {
      ShiftAt(users, anchor, interval, until, 0, k);
    }
  }

  /**
   Asking for a later window end only appends shifts: the shifts of an earlier
   window are a prefix, so the rotation does not depend on the query.
   */
  lemma {:induction false} ShiftsFromPrefix(users: seq<User>, start: int, interval: int, until1: int, until2: int, i: nat)
    requires until1 <= until2
    requires start < until2 ==> |users| > 0 && interval > 0
    ensures ShiftsFrom(users, start, interval, until1, i) <= ShiftsFrom(users, start, interval, until2, i)
    decreases if start < until2 then until2 - start else 0
  {
    if start < until1 {
      ShiftsFromPrefix(users, start + interval, interval, until1, until2, i + 1);
    }
  }

  /**
   The generator loop, line for line. `fromTime` is accepted and never used,
   as in the source: the rotation always starts at the anchor.
   */
  method GenerateBaseShifts(users: seq<User>, handoverStart: int, interval: int, fromTime: int, untilTime: int)
    returns (shifts: seq<Interval>)
    requires handoverStart < untilTime ==> |users| > 0 && interval > 0
    ensures shifts == BaseShifts(users, handoverStart, interval, untilTime)
  {
    shifts := [];
    var i: nat := 0;
    var currentStart := handoverStart;
    while currentStart < untilTime
      invariant currentStart < untilTime ==> |users| > 0 && interval > 0
      invariant shifts + ShiftsFrom(users, currentStart, interval, untilTime, i)
                == ShiftsFrom(users, handoverStart, interval, untilTime, 0)
      decreases untilTime - currentStart
    {
      var currentEnd := currentStart + interval;
      var user := users[i % |users|];
      shifts := shifts + [Interval(currentStart, currentEnd, user)];
      currentStart := currentEnd;
      i := i + 1;
    }
  }
}
