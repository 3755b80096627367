/** How much of a measurement window a set of sample intervals covers. */
module Coverage {
  import opened Sets

  datatype Interval = Interval(begin: int, finish: int)

  predicate WellFormed(intervals: seq<Interval>) {
    forall i :: 0 <= i < |intervals| ==> intervals[i].begin <= intervals[i].finish
  }

  predicate Covers(i: Interval, t: int) { i.begin <= t < i.finish }

  /** The instants of [a, b). */
  function Range(a: int, b: int): (r: set<int>)
    ensures forall t :: t in r <==> a <= t < b
    ensures a <= b ==> |r| == b - a
    decreases b - a
  {
    if a >= b then {} else Range(a, b - 1) + {b - 1}
  }

  /** The instants of [start, end) that lie in some interval. */
  function Instants(intervals: seq<Interval>, start: int, end: int): set<int> {
    set t | t in Range(start, end) && exists i :: 0 <= i < |intervals| && Covers(intervals[i], t)
  }

  /** The part of the window one interval covers. */
  function Part(i: Interval, start: int, end: int): set<int> {
    set t | t in Range(start, end) && Covers(i, t)
  }

  /** Lexicographic order, as tuples are compared. */
  predicate Before(a: Interval, b: Interval) {
    a.begin < b.begin || (a.begin == b.begin && a.finish <= b.finish)
  }

  function Insert(i: Interval, sorted: seq<Interval>): seq<Interval> {
    if sorted == [] || Before(i, sorted[0]) then [i] + sorted else [sorted[0]] + Insert(i, sorted[1..])
  }

  function Sort(intervals: seq<Interval>): seq<Interval> {
    if intervals == [] then [] else Insert(intervals[0], Sort(intervals[1..]))
  }

  predicate Ascending(intervals: seq<Interval>) {
    forall i, j :: 0 <= i < j < |intervals| ==> Before(intervals[i], intervals[j])
  }

  lemma {:induction false} InsertMembers(i: Interval, sorted: seq<Interval>)
    ensures forall x :: x in Insert(i, sorted) <==> x == i || x in sorted
  {
    if sorted != [] && !Before(i, sorted[0]) {
      InsertMembers(i, sorted[1..]);
    }
  }

  lemma {:induction false} InsertAscending(i: Interval, sorted: seq<Interval>)
    requires Ascending(sorted)
    ensures Ascending(Insert(i, sorted))
  {
    if sorted != [] && !Before(i, sorted[0]) {
      InsertAscending(i, sorted[1..]);
      InsertMembers(i, sorted[1..]);
      forall x | x in Insert(i, sorted[1..]) ensures Before(sorted[0], x) {
        if x != i {
          var k :| 0 <= k < |sorted| - 1 && sorted[1..][k] == x;
          assert Before(sorted[0], sorted[k + 1]);
        }
      }
    }
  }

  lemma {:induction false} SortCorrect(intervals: seq<Interval>)
    ensures Ascending(Sort(intervals))
    ensures forall x :: x in Sort(intervals) <==> x in intervals
  {
    if intervals != [] {
      SortCorrect(intervals[1..]);
      InsertAscending(intervals[0], Sort(intervals[1..]));
      InsertMembers(intervals[0], Sort(intervals[1..]));
    }
  }

  /** The intervals that meet the window, cut to it. */
  method Clip(intervals: seq<Interval>, start: int, end: int) returns (clipped: seq<Interval>)
    requires WellFormed(intervals) && start < end
    ensures WellFormed(clipped) && Instants(clipped, start, end) == Instants(intervals, start, end)
    ensures forall x :: x in clipped ==> start <= x.begin && x.finish <= end
  {
    clipped := [];
    for n := 0 to |intervals|
      invariant WellFormed(clipped) && Instants(clipped, start, end) == Instants(intervals[..n], start, end)
      invariant forall x :: x in clipped ==> start <= x.begin && x.finish <= end
    {
      var i := intervals[n];
      InstantsSnoc(intervals[..n], i, start, end);
      assert intervals[..n + 1] == intervals[..n] + [i];
      if i.finish > start && i.begin < end {
        var c := Interval(if start > i.begin then start else i.begin, if end < i.finish then end else i.finish);
        InstantsSnoc(clipped, c, start, end);
        clipped := clipped + [c];
      }
    }
    assert intervals[..|intervals|] == intervals;
  }

  lemma InstantsSnoc(intervals: seq<Interval>, i: Interval, start: int, end: int)
    ensures Instants(intervals + [i], start, end) ==
      Instants(intervals, start, end) + Part(i, start, end)
  {
    var all := intervals + [i];
    forall t | t in Instants(intervals, start, end) ensures t in Instants(all, start, end) {
      var k :| 0 <= k < |intervals| && Covers(intervals[k], t);
      assert Covers(all[k], t);
    }
    assert all[|intervals|] == i;
  }

  lemma SameInstants(a: seq<Interval>, b: seq<Interval>, start: int, end: int)
    requires forall x :: x in a <==> x in b
    ensures Instants(a, start, end) == Instants(b, start, end)
  {
    InstantsIncluded(a, b, start, end);
    InstantsIncluded(b, a, start, end);
  }

  lemma SameWellFormed(a: seq<Interval>, b: seq<Interval>)
    requires WellFormed(a) && forall x :: x in b ==> x in a
    ensures WellFormed(b)
  {
    forall i | 0 <= i < |b| ensures b[i].begin <= b[i].finish {
      assert b[i] in a;
    }
  }

  lemma InstantsIncluded(a: seq<Interval>, b: seq<Interval>, start: int, end: int)
    requires forall x :: x in a ==> x in b
    ensures Instants(a, start, end) <= Instants(b, start, end)
  {
    forall t | t in Instants(a, start, end) ensures t in Instants(b, start, end) {
      var i :| 0 <= i < |a| && Covers(a[i], t);
      assert a[i] in b;
      var j :| 0 <= j < |b| && b[j] == a[i];
    }
  }

  /** What the sweep knows after some intervals. */
  ghost predicate Swept(u: set<int>, covered: int, begin: int, end: int) {
    begin <= end && |u| == covered + end - begin && forall t :: t >= begin ==> (t in u <==> t < end)
  }

  lemma SweptNext(u: set<int>, covered: int, begin: int, end: int, next: Interval)
    requires Swept(u, covered, begin, end) && begin <= next.begin <= next.finish
    ensures next.begin <= end ==>
      Swept(u + Range(next.begin, next.finish), covered, begin, if next.finish > end then next.finish else end)
    ensures next.begin > end ==>
      Swept(u + Range(next.begin, next.finish), covered + end - begin, next.begin, next.finish)
  {
    if next.begin <= end {
      var later := if next.finish > end then next.finish else end;
      var fresh' := Range(end, later);
      assert u + Range(next.begin, next.finish) == u + fresh';
      UnionCount(u, fresh');
    } else {
      UnionCount(u, Range(next.begin, next.finish));
    }
  }

  /** `_coverage_ns`: the number of instants covered, whatever the order and
      overlap of the intervals. */
  method CoverageNs(intervals: seq<Interval>, start: int, end: int) returns (covered: int)
    requires WellFormed(intervals)
    ensures covered == |Instants(intervals, start, end)|
    ensures start <= end ==> 0 <= covered <= end - start
  {
    if intervals == [] || end <= start {
      assert Instants(intervals, start, end) == {};
      return 0;
    }
    SubsetCount(Instants(intervals, start, end), Range(start, end));
    var clipped := Clip(intervals, start, end);
    if clipped == [] {
      return 0;
    }
    SortCorrect(clipped);
    SameInstants(clipped, Sort(clipped), start, end);
    SameWellFormed(clipped, Sort(clipped));
    covered := Sweep(Sort(clipped), start, end);
  }

  /** The sweep over the sorted intervals. */
  method Sweep(sorted: seq<Interval>, start: int, end: int) returns (total: int)
    requires sorted != [] && WellFormed(sorted) && Ascending(sorted)
    requires forall x :: x in sorted ==> start <= x.begin && x.finish <= end
    ensures total == |Instants(sorted, start, end)|
  {
    var covered, begin, finish := 0, sorted[0].begin, sorted[0].finish;
    FirstInstants(sorted, start, end);
    for n := 1 to |sorted|
      invariant Swept(Instants(sorted[..n], start, end), covered, begin, finish)
      invariant begin <= sorted[n - 1].begin
    {
      var next := sorted[n];
      assert Before(sorted[n - 1], next);
      InstantsNext(sorted, n, start, end);
      SweptNext(Instants(sorted[..n], start, end), covered, begin, finish, next);
      if next.begin <= finish {
        finish := if next.finish > finish then next.finish else finish;
      } else {
        covered := covered + finish - begin;
        begin, finish := next.begin, next.finish;
      }
    }
    assert sorted[..|sorted|] == sorted;
    total := covered + finish - begin;
  }

  lemma WithinWindow(sorted: seq<Interval>, n: nat, start: int, end: int)
    requires n < |sorted| && forall x :: x in sorted ==> start <= x.begin && x.finish <= end
    ensures Part(sorted[n], start, end) == Range(sorted[n].begin, sorted[n].finish)
  {
    assert sorted[n] in sorted;
  }

  lemma InstantsNext(sorted: seq<Interval>, n: nat, start: int, end: int)
    requires n < |sorted| && forall x :: x in sorted ==> start <= x.begin && x.finish <= end
    ensures Instants(sorted[..n + 1], start, end) ==
      Instants(sorted[..n], start, end) + Range(sorted[n].begin, sorted[n].finish)
  {
    InstantsSnoc(sorted[..n], sorted[n], start, end);
    assert sorted[..n + 1] == sorted[..n] + [sorted[n]];
    WithinWindow(sorted, n, start, end);
  }

  lemma FirstInstants(sorted: seq<Interval>, start: int, end: int)
    requires sorted != [] && forall x :: x in sorted ==> start <= x.begin && x.finish <= end
    ensures Instants(sorted[..1], start, end) == Range(sorted[0].begin, sorted[0].finish)
  {
    WithinWindow(sorted, 0, start, end);
    assert sorted[..1] == [] + [sorted[0]];
    InstantsSnoc([], sorted[0], start, end);
    assert Instants([], start, end) == {};
  }
}
