/**
 The window clipper: every composited piece is clamped to the query window
 `[fromTime, untilTime)`, and the pieces left empty are dropped (the clamp
 and test of build_entry, main.py:44-56, and the two comprehensions of
 render_schedule, main.py:117-120). Timestamp formatting is not modelled:
 an entry is the clamped interval itself.
 */
module Clipper {
  import opened Intervals

  datatype Option<T> = None | Some(value: T)

  /**
   The clamp-and-test of one piece: the entry is the piece cut down to the
   window, holding exactly the instants the two share, or nothing when they
   share none.
   */
  function BuildEntry(p: Interval, fromTime: int, untilTime: int): (r: Option<Interval>)
    ensures r.Some? ==> r.value.user == p.user && r.value.start < r.value.end
    ensures r.Some? ==> p.start <= r.value.start && r.value.end <= p.end
    ensures r.Some? ==> fromTime <= r.value.start && r.value.end <= untilTime
    ensures r.Some? ==> forall t :: InSpan(t, r.value.start, r.value.end) <==> InSpan(t, p.start, p.end) && InSpan(t, fromTime, untilTime)
    ensures r.None? ==> forall t :: !(InSpan(t, p.start, p.end) && InSpan(t, fromTime, untilTime))
  {
    var start := Max(p.start, fromTime);
    var end := Min(p.end, untilTime);
    if start < end then Some(Interval(start, end, p.user)) else None
  }

  /** The entries of `ps` clamped to the window, empty ones dropped, order kept. */
  function ClipAll(ps: seq<Interval>, fromTime: int, untilTime: int): (r: seq<Interval>)
    ensures |r| <= |ps|
    ensures forall j :: 0 <= j < |r| ==> fromTime <= r[j].start < r[j].end <= untilTime
    ensures untilTime <= fromTime ==> r == []
    decreases |ps|
  {
    if ps == [] then
      []
    else
      var rest := ClipAll(ps[1..], fromTime, untilTime);
      match BuildEntry(ps[0], fromTime, untilTime)
      case Some(e) => [e] + rest
      case None => rest
  }

  /** Pieces that all start at or after the window's end leave nothing. */
  lemma {:induction false} ClipAllAfterWindow(ps: seq<Interval>, fromTime: int, untilTime: int)
    requires forall k :: 0 <= k < |ps| ==> untilTime <= ps[k].start
    ensures ClipAll(ps, fromTime, untilTime) == []
    decreases |ps|
  {
    if ps != [] {
      ClipAllAfterWindow(ps[1..], fromTime, untilTime);
    }
  }

  /**
   Every instant of an entry belongs to a piece of the same user, and to the
   window: clipping never hands an instant to anyone else.
   */
  lemma {:induction false} ClipAllOrigin(ps: seq<Interval>, fromTime: int, untilTime: int, j: int, t: int)
    requires 0 <= j < |ClipAll(ps, fromTime, untilTime)|
    requires InSpan(t, ClipAll(ps, fromTime, untilTime)[j].start, ClipAll(ps, fromTime, untilTime)[j].end)
    ensures InSpan(t, fromTime, untilTime)
    ensures exists k :: 0 <= k < |ps| && InSpan(t, ps[k].start, ps[k].end) && ps[k].user == ClipAll(ps, fromTime, untilTime)[j].user
    decreases |ps|
  {
    var r := ClipAll(ps, fromTime, untilTime);
    var rest := ClipAll(ps[1..], fromTime, untilTime);
    match BuildEntry(ps[0], fromTime, untilTime)
    case Some(e) =>
      assert r == [e] + rest;
      if j == 0 {
        assert InSpan(t, e.start, e.end);
        assert InSpan(t, ps[0].start, ps[0].end);
      } else {
        assert r[j] == rest[j - 1];
        ClipAllOrigin(ps[1..], fromTime, untilTime, j - 1, t);
        var k :| 0 <= k < |ps[1..]| && InSpan(t, ps[1..][k].start, ps[1..][k].end) && ps[1..][k].user == rest[j - 1].user;
        assert ps[k + 1] == ps[1..][k];
      }
    case None =>
      assert r == rest;
      ClipAllOrigin(ps[1..], fromTime, untilTime, j, t);
      var k :| 0 <= k < |ps[1..]| && InSpan(t, ps[1..][k].start, ps[1..][k].end) && ps[1..][k].user == rest[j].user;
      assert ps[k + 1] == ps[1..][k];
  }

  /**
   Clipping a tiling of `[lo, hi)` to a window that meets it yields a tiling
   of their intersection: no gap, no overlap, chronological order kept.
   */
  lemma {:induction false} ClipAllTiles(ps: seq<Interval>, lo: int, hi: int, fromTime: int, untilTime: int)
    requires Tiles(ps, lo, hi)
    requires Max(lo, fromTime) < Min(hi, untilTime)
    ensures Tiles(ClipAll(ps, fromTime, untilTime), Max(lo, fromTime), Min(hi, untilTime))
    decreases |ps|
  {
    var p, rest := ps[0], ps[1..];
    var m := p.end;
    TilesTail(ps, lo, hi);
    var clippedRest := ClipAll(rest, fromTime, untilTime);
    if m <= fromTime {
      // the first piece lies wholly before the window
      assert BuildEntry(p, fromTime, untilTime).None?;
      ClipAllTiles(rest, m, hi, fromTime, untilTime);
    } else if untilTime <= m {
      // the window ends inside the first piece
      forall k | 0 <= k < |rest|
        ensures untilTime <= rest[k].start
      {
        TilesBounds(rest, m, hi, k);
      }
      ClipAllAfterWindow(rest, fromTime, untilTime);
      TilesBounds(ps, lo, hi, 0);
      assert ClipAll(ps, fromTime, untilTime) == [Interval(Max(lo, fromTime), untilTime, p.user)];
    } else {
      // the first piece ends inside the window
      var e := Interval(Max(lo, fromTime), m, p.user);
      assert ClipAll(ps, fromTime, untilTime) == [e] + clippedRest;
      TilesBounds(ps, lo, hi, 0);
      if rest != [] {
        TilesBounds(rest, m, hi, 0);
        ClipAllTiles(rest, m, hi, fromTime, untilTime);
        TilesAppend([e], clippedRest, Max(lo, fromTime), m, Min(hi, untilTime));
      }
    }
  }

  /** Clipping works piece by piece and keeps order: it distributes over concatenation. */
  lemma {:induction false} ClipAllAppend(a: seq<Interval>, b: seq<Interval>, fromTime: int, untilTime: int)
    ensures ClipAll(a + b, fromTime, untilTime) == ClipAll(a, fromTime, untilTime) + ClipAll(b, fromTime, untilTime)
    decreases |a|
  {
    if a == [] {
      assert a + b == b;
    } else {
      assert (a + b)[0] == a[0] && (a + b)[1..] == a[1..] + b;
      ClipAllAppend(a[1..], b, fromTime, untilTime);
    }
  }

  /** Pieces already non-empty and inside the window come through unchanged and in order. */
  lemma {:induction false} ClipAllInsideWindow(ps: seq<Interval>, fromTime: int, untilTime: int)
    requires forall k :: 0 <= k < |ps| ==> fromTime <= ps[k].start < ps[k].end <= untilTime
    ensures ClipAll(ps, fromTime, untilTime) == ps
    decreases |ps|
  {
    if ps != [] {
      ClipAllInsideWindow(ps[1..], fromTime, untilTime);
      assert ps == [ps[0]] + ps[1..];
    }
  }
}
