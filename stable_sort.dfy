/**
 Ordering the overrides selected for one shift by their start instant. The
 source relies on its language's list sort, which is stable: overrides with
 equal starts keep their input order. The sort is specified here as a stable
 insertion sort and its three properties are proved: the result is ordered
 by start, it is a permutation of the input, and among equal starts the
 input order survives.
 */
module StableSort {
  import opened Intervals

  predicate SortedByStart(s: seq<Interval>) {
    forall i, j :: 0 <= i < j < |s| ==> s[i].start <= s[j].start
  }

  /** Inserts `x` after every element whose start is not greater than its own. */
  function InsertByStart(x: Interval, s: seq<Interval>): (r: seq<Interval>)
    ensures |r| == |s| + 1
    decreases |s|
  {
    if s == [] || x.start < s[0].start then
      [x] + s
    else
      [s[0]] + InsertByStart(x, s[1..])
  }

  lemma {:induction false} InsertPermutation(x: Interval, s: seq<Interval>)
    ensures multiset(InsertByStart(x, s)) == multiset(s) + multiset{x}
    decreases |s|
  {
    if s != [] && s[0].start <= x.start {
      InsertPermutation(x, s[1..]);
      assert s == [s[0]] + s[1..];
    }
  }

  lemma {:induction false} InsertSorted(x: Interval, s: seq<Interval>)
    requires SortedByStart(s)
    ensures SortedByStart(InsertByStart(x, s))
    decreases |s|
  {
    if s != [] && s[0].start <= x.start {
      var rest := InsertByStart(x, s[1..]);
      InsertSorted(x, s[1..]);
      InsertPermutation(x, s[1..]);
      forall k | 0 <= k < |rest|
        ensures s[0].start <= rest[k].start
      {
        assert rest[k] in multiset(rest);
        if rest[k] != x {
          assert rest[k] in s[1..];
          var m :| 0 <= m < |s[1..]| && s[1..][m] == rest[k];
          assert s[m + 1] == rest[k];
        }
      }
      var r := [s[0]] + rest;
      assert forall k :: 0 < k < |r| ==> r[k] == rest[k - 1];
    }
  }

  /** The input ordered by start, ties in input order (the key-only stable sort). */
  function SortByStart(s: seq<Interval>): (r: seq<Interval>)
    ensures |r| == |s|
    decreases |s|
  {
    if s == [] then [] else InsertByStart(s[|s| - 1], SortByStart(s[..|s| - 1]))
  }

  /** The sort only reorders: the result is a permutation of the input. */
  lemma {:induction false} SortByStartPermutation(s: seq<Interval>)
    ensures multiset(SortByStart(s)) == multiset(s)
    decreases |s|
  {
    if s != [] {
      SortByStartPermutation(s[..|s| - 1]);
      InsertPermutation(s[|s| - 1], SortByStart(s[..|s| - 1]));
      assert s == s[..|s| - 1] + [s[|s| - 1]];
    }
  }

  /** The sort's result is ordered by start. */
  lemma {:induction false} SortByStartSorted(s: seq<Interval>)
    ensures SortedByStart(SortByStart(s))
    decreases |s|
  {
    if s != [] {
      SortByStartSorted(s[..|s| - 1]);
      InsertSorted(s[|s| - 1], SortByStart(s[..|s| - 1]));
    }
  }

  /** The elements of `s` whose start is `key`, in their order in `s`. */
  function WithStart(s: seq<Interval>, key: int): seq<Interval>
    decreases |s|
  {
    if s == [] then [] else (if s[0].start == key then [s[0]] else []) + WithStart(s[1..], key)
  }

  /** `WithStart` only keeps elements of its input that have the given start. */
  lemma {:induction false} WithStartMembers(s: seq<Interval>, key: int)
    ensures forall y :: y in WithStart(s, key) ==> y in s && y.start == key
    decreases |s|
  {
    if s != [] {
      WithStartMembers(s[1..], key);
    }
  }

  lemma {:induction false} WithStartAppend(a: seq<Interval>, b: seq<Interval>, key: int)
    ensures WithStart(a + b, key) == WithStart(a, key) + WithStart(b, key)
    decreases |a|
  {
    if a != [] {
      assert (a + b)[1..] == a[1..] + b;
      WithStartAppend(a[1..], b, key);
    } else {
      assert a + b == b;
    }
  }

  /** The elements sharing `x`'s start around `x`: those before it, `x`, those after it. */
  lemma WithStartAround(before: seq<Interval>, x: Interval, after: seq<Interval>)
    ensures WithStart(before + [x] + after, x.start) == WithStart(before, x.start) + ([x] + WithStart(after, x.start))
  {
    WithStartAppend(before + [x], after, x.start);
    WithStartAppend(before, [x], x.start);
    assert WithStart([x], x.start) == [x];
  }

  lemma {:induction false} WithStartAbove(s: seq<Interval>, key: int)
    requires forall k :: 0 <= k < |s| ==> key < s[k].start
    ensures WithStart(s, key) == []
    decreases |s|
  {
    if s != [] {
      WithStartAbove(s[1..], key);
    }
  }

  lemma {:induction false} WithStartNone(s: seq<Interval>, key: int)
    requires forall y :: y in s ==> y.start != key
    ensures WithStart(s, key) == []
    decreases |s|
  {
    if s != [] {
      assert s[0] in s;
      WithStartNone(s[1..], key);
    }
  }

  /** Inserting into a sorted sequence puts `x` after every element that shares its start. */
  lemma {:induction false} InsertStable(x: Interval, s: seq<Interval>, key: int)
    requires SortedByStart(s)
    ensures WithStart(InsertByStart(x, s), key) == WithStart(s, key) + (if x.start == key then [x] else [])
    decreases |s|
  {
    if s == [] {
    } else if x.start < s[0].start {
      if x.start == key {
        WithStartAbove(s, key);
      }
    } else {
      InsertStable(x, s[1..], key);
    }
  }

  /** Stability: for every start instant, the overrides with that start keep their input order. */
  lemma {:induction false} SortStable(s: seq<Interval>, key: int)
    ensures WithStart(SortByStart(s), key) == WithStart(s, key)
    decreases |s|
  {
    if s != [] {
      var init, last := s[..|s| - 1], s[|s| - 1];
      SortStable(init, key);
      SortByStartSorted(init);
      InsertStable(last, SortByStart(init), key);
      assert s == init + [last];
      WithStartAppend(init, [last], key);
    }
  }

  /**
   When no element starts before `x` and `x` is the first element with its
   start, the sort puts `x` first.
   */
  lemma FirstOfLeastKey(s: seq<Interval>, x: Interval)
    requires forall y :: y in s ==> x.start <= y.start
    requires WithStart(s, x.start) != [] && WithStart(s, x.start)[0] == x
    ensures SortByStart(s) != [] && SortByStart(s)[0] == x
  {
    var sorted := SortByStart(s);
    SortStable(s, x.start);
    SortByStartPermutation(s);
    SortByStartSorted(s);
    WithStartMembers(s, x.start);
    assert x in s;
    assert x in multiset(sorted);
    assert sorted[0] in multiset(s);
    assert sorted[0].start == x.start;
    assert WithStart(sorted, x.start)[0] == sorted[0];
  }
}
