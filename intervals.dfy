/**
 Half-open intervals of instants, the basis of every stage of the on-call
 schedule: base shifts, overrides, composited pieces and schedule entries are
 all `(start, end, user)` triples. Instants are integers (seconds, say); the
 algebra only needs their order and addition.
 */
module Intervals {

  type User = string

  /** A span `[start, end)` assigned to `user`. */
  datatype Interval = Interval(start: int, end: int, user: User)

  /** `t` lies in the half-open span `[lo, hi)`. */
  predicate InSpan(t: int, lo: int, hi: int) {
    lo <= t < hi
  }

  function Max(a: int, b: int): int {
    if a >= b then a else b
  }

  function Min(a: int, b: int): int {
    if a <= b then a else b
  }

  /** The half-open intersection test between a shift and an override. */
  predicate Overlaps(entryStart: int, entryEnd: int, overrideStart: int, overrideEnd: int) {
    entryStart < overrideEnd && overrideStart < entryEnd
  }

  /**
   The test is symmetric, and two spans that share an instant overlap. For
   non-empty spans the converse holds too; a reversed span (`start > end`)
   can pass the test without sharing any instant.
   */
  lemma OverlapsIffCommonInstant(a: int, b: int, c: int, d: int)
    ensures Overlaps(a, b, c, d) == Overlaps(c, d, a, b)
    ensures (exists t :: InSpan(t, a, b) && InSpan(t, c, d)) ==> Overlaps(a, b, c, d)
    ensures a < b && c < d && Overlaps(a, b, c, d) ==> exists t :: InSpan(t, a, b) && InSpan(t, c, d)
  {
    if a < b && c < d && Overlaps(a, b, c, d) {
      assert InSpan(Max(a, c), a, b) && InSpan(Max(a, c), c, d);
    }
  }

  /**
   No override is reversed: each ends no earlier than it starts. Zero-length
   overrides are allowed; they claim nothing, though they may still split a
   base piece in two.
   */
  predicate NotReversed(overrides: seq<Interval>) {
    forall k :: 0 <= k < |overrides| ==> overrides[k].start <= overrides[k].end
  }

  /** Every interval of `ps` that contains instant `t` belongs to `user`. */
  predicate HeldBy(ps: seq<Interval>, t: int, user: User) {
    forall j :: 0 <= j < |ps| && InSpan(t, ps[j].start, ps[j].end) ==> ps[j].user == user
  }

  lemma HeldByConcat(a: seq<Interval>, b: seq<Interval>, t: int, user: User)
    requires HeldBy(a, t, user) && HeldBy(b, t, user)
    ensures HeldBy(a + b, t, user)
  {
    var ab := a + b;
    forall j | 0 <= j < |ab| && InSpan(t, ab[j].start, ab[j].end)
      ensures ab[j].user == user
    {
      if j >= |a| {
        assert ab[j] == b[j - |a|];
      }
    }
  }

  /**
   `ps` tiles `[lo, hi)`: its intervals are non-empty, the first starts at
   `lo`, each ends where the next starts, and the last ends at `hi`.
   */
  predicate Tiles(ps: seq<Interval>, lo: int, hi: int) {
    && (|ps| == 0 ==> lo == hi)
    && (|ps| > 0 ==> ps[0].start == lo && ps[|ps| - 1].end == hi)
    && (forall k :: 0 <= k < |ps| ==> ps[k].start < ps[k].end)
    && (forall k :: 0 <= k < |ps| - 1 ==> ps[k].end == ps[k + 1].start)
  }

  lemma TilesTail(ps: seq<Interval>, lo: int, hi: int)
    requires Tiles(ps, lo, hi) && |ps| > 0
    ensures Tiles(ps[1..], ps[0].end, hi)
  {
    var rest := ps[1..];
    assert forall k :: 0 <= k < |rest| ==> rest[k] == ps[k + 1];
  }

  lemma TilesInit(ps: seq<Interval>, lo: int, hi: int)
    requires Tiles(ps, lo, hi) && |ps| > 0
    ensures Tiles(ps[..|ps| - 1], lo, ps[|ps| - 1].start)
  {
  }

  /** Tilings of adjacent spans concatenate to a tiling of their union. */
  lemma TilesAppend(a: seq<Interval>, b: seq<Interval>, lo: int, mid: int, hi: int)
    requires Tiles(a, lo, mid) && Tiles(b, mid, hi)
    ensures Tiles(a + b, lo, hi)
  {
    var ab := a + b;
    forall k | 0 <= k < |ab| - 1
      ensures ab[k].end == ab[k + 1].start
    {
      if k < |a| - 1 {
      } else if k == |a| - 1 {
        assert ab[k] == a[|a| - 1] && ab[k + 1] == b[0];
      } else {
        assert ab[k] == b[k - |a|] && ab[k + 1] == b[k - |a| + 1];
      }
    }
  }

  /** In a tiling, an earlier interval ends no later than a later one starts. */
  lemma {:induction false} TilesOrdered(ps: seq<Interval>, lo: int, hi: int, i: int, j: int)
    requires Tiles(ps, lo, hi) && 0 <= i < j < |ps|
    ensures ps[i].end <= ps[j].start
    decreases j - i
  {
    if j > i + 1 {
      TilesOrdered(ps, lo, hi, i, j - 1);
    }
  }

  /** Every interval of a tiling of `[lo, hi)` lies inside `[lo, hi)`. */
  lemma TilesBounds(ps: seq<Interval>, lo: int, hi: int, k: int)
    requires Tiles(ps, lo, hi) && 0 <= k < |ps|
    ensures lo <= ps[k].start && ps[k].end <= hi
  {
    if k > 0 {
      TilesOrdered(ps, lo, hi, 0, k);
    }
    if k < |ps| - 1 {
      TilesOrdered(ps, lo, hi, k, |ps| - 1);
    }
  }

  /**
   A tiling of `[lo, hi)` is a partition: each instant of `[lo, hi)` lies in
   exactly one of its intervals, and no instant outside it lies in any.
   */
  lemma {:induction false} TilesPartition(ps: seq<Interval>, lo: int, hi: int, t: int)
    requires Tiles(ps, lo, hi)
    ensures InSpan(t, lo, hi) ==> exists k :: 0 <= k < |ps| && InSpan(t, ps[k].start, ps[k].end)
    ensures forall k :: 0 <= k < |ps| && InSpan(t, ps[k].start, ps[k].end) ==> InSpan(t, lo, hi)
    ensures forall i, j ::
              0 <= i < |ps| && 0 <= j < |ps| && InSpan(t, ps[i].start, ps[i].end) && InSpan(t, ps[j].start, ps[j].end)
              ==> i == j
    decreases |ps|
  {
    forall k | 0 <= k < |ps| {
      TilesBounds(ps, lo, hi, k);
    }
    forall i, j | 0 <= i < j < |ps| {
      TilesOrdered(ps, lo, hi, i, j);
    }
    if |ps| > 0 && InSpan(t, lo, hi) && !InSpan(t, ps[0].start, ps[0].end) {
      TilesTail(ps, lo, hi);
      TilesPartition(ps[1..], ps[0].end, hi, t);
      var k :| 0 <= k < |ps[1..]| && InSpan(t, ps[1..][k].start, ps[1..][k].end);
      assert ps[k + 1] == ps[1..][k];
    }
  }
}
