/** Sorted lists of half-open row ranges and the loops that combine them. */
module Ranges {
  import opened Common

  datatype Range = Range(start: nat, end: nat)

  predicate Covers(r: Range, row: int) { r.start <= row < r.end }

  /** The row lies in one of the ranges. */
  predicate In(ranges: seq<Range>, row: int) {
    exists k :: 0 <= k < |ranges| && Covers(ranges[k], row)
  }

  /** Sorted, pairwise disjoint; a range may be empty and neighbours may touch. */
  predicate Ordered(ranges: seq<Range>) {
    && (forall k :: 0 <= k < |ranges| ==> ranges[k].start <= ranges[k].end)
    && (forall j, k :: 0 <= j < k < |ranges| ==> ranges[j].end <= ranges[k].start)
  }

  /** Sorted, non-empty and maximally merged: a gap separates any two ranges. */
  predicate Normal(ranges: seq<Range>) {
    && (forall k :: 0 <= k < |ranges| ==> ranges[k].start < ranges[k].end)
    && (forall j, k :: 0 <= j < k < |ranges| ==> ranges[j].end < ranges[k].start)
  }

  predicate Below(ranges: seq<Range>, bound: int) {
    forall k :: 0 <= k < |ranges| ==> ranges[k].end <= bound
  }

  /** Appends a range, growing the last one when they touch. */
  method PushRange(ranges: seq<Range>, range: Range) returns (output: seq<Range>)
    requires Normal(ranges) && range.start < range.end && Below(ranges, range.start)
    ensures Normal(output) && Below(output, range.end)
    ensures forall row :: In(output, row) <==> In(ranges, row) || Covers(range, row)
  {
    var n := |ranges|;
    if n > 0 && ranges[n - 1].end == range.start {
      output := ranges[n - 1 := Range(ranges[n - 1].start, range.end)];
      forall row ensures In(output, row) <==> In(ranges, row) || Covers(range, row) {
        GrowLast(ranges, output, range, row);
      }
    } else {
      output := ranges + [range];
      forall row ensures In(output, row) <==> In(ranges, row) || Covers(range, row) {
        InAppend(ranges, range, row);
      }
    }
  }

  lemma InAppend(ranges: seq<Range>, range: Range, row: int)
    ensures In(ranges + [range], row) <==> In(ranges, row) || Covers(range, row)
  {
    var longer := ranges + [range];
    if In(ranges, row) {
      var k :| 0 <= k < |ranges| && Covers(ranges[k], row);
      assert Covers(longer[k], row);
    }
    if Covers(range, row) { assert Covers(longer[|ranges|], row); }
  }

  lemma GrowLast(ranges: seq<Range>, grown: seq<Range>, range: Range, row: int)
    requires |ranges| > 0 && ranges[|ranges| - 1].end == range.start && range.start <= range.end
    requires ranges[|ranges| - 1].start <= ranges[|ranges| - 1].end
    requires grown == ranges[|ranges| - 1 := Range(ranges[|ranges| - 1].start, range.end)]
    ensures In(grown, row) <==> In(ranges, row) || Covers(range, row)
  {
    var last := |ranges| - 1;
    if In(ranges, row) {
      var k :| 0 <= k < |ranges| && Covers(ranges[k], row);
      assert Covers(grown[k], row);
    }
    if Covers(range, row) { assert Covers(grown[last], row); }
    if In(grown, row) {
      var k :| 0 <= k < |grown| && Covers(grown[k], row);
      assert k < last ==> Covers(ranges[k], row);
      assert k == last ==> Covers(ranges[last], row) || Covers(range, row);
    }
  }

  // ---------------------------------------------------------------- intersection

  /** Everything before `index` ends by `cut`; everything after it starts past the current range. */
  predicate Consumed(ranges: seq<Range>, index: nat, cut: int) {
    && index <= |ranges|
    && forall k :: 0 <= k < index ==> ranges[k].end <= cut
  }

  /** Between `cut` and the end of the current range, membership is membership in that range. */
  lemma CurrentRange(ranges: seq<Range>, index: nat, cut: int, row: int)
    requires Ordered(ranges) && Consumed(ranges, index, cut) && index < |ranges|
    requires cut <= row < ranges[index].end
    ensures In(ranges, row) <==> Covers(ranges[index], row)
  {
  }

  /** The exact intersection, in normal form. */
  method IntersectRanges(left: seq<Range>, right: seq<Range>) returns (output: seq<Range>)
    requires Ordered(left) && Ordered(right)
    ensures Normal(output)
    ensures forall row :: In(output, row) <==> In(left, row) && In(right, row)
  {
    output := [];
    var i, j := 0, 0;
    ghost var cut := 0;
    while i < |left| && j < |right|
      invariant Consumed(left, i, cut) && Consumed(right, j, cut)
      invariant Normal(output) && Below(output, cut)
      invariant forall row :: In(output, row) <==> row < cut && In(left, row) && In(right, row)
      invariant i < |left| && j < |right| ==> cut <= Max(left[i].start, right[j].start)
      decreases |left| - i + |right| - j
    {
      var start := Max(left[i].start, right[j].start);
      var end := Min(left[i].end, right[j].end);
      ghost var before := output;
      if start < end {
        output := PushRange(output, Range(start, end));
      }
      ghost var next := Max(cut, end);
      forall row ensures In(output, row) <==> row < next && In(left, row) && In(right, row) {
        if cut <= row < end {
          CurrentRange(left, i, cut, row);
          CurrentRange(right, j, cut, row);
        }
        assert In(output, row) <==> In(before, row) || start <= row < end;
      }
      cut := next;
      if left[i].end <= right[j].end { i := i + 1; } else { j := j + 1; }
    }
    forall row ensures In(output, row) <==> In(left, row) && In(right, row) {
      if i == |left| { AllBelow(left, cut, row); } else { AllBelow(right, cut, row); }
    }
  }

  lemma AllBelow(ranges: seq<Range>, cut: int, row: int)
    requires Consumed(ranges, |ranges|, cut)
    ensures In(ranges, row) ==> row < cut
  {
  }

  // ---------------------------------------------------------------- union

  predicate NonEmpty(ranges: seq<Range>) {
    forall k :: 0 <= k < |ranges| ==> ranges[k].start < ranges[k].end
  }

  predicate SortedByStart(ranges: seq<Range>) {
    forall j, k :: 0 <= j < k < |ranges| ==> ranges[j].start <= ranges[k].start
  }

  /** Sorting by start; only the order of the list changes. */
  method SortByStart(ranges: seq<Range>) returns (sorted: seq<Range>)
    ensures SortedByStart(sorted)
    ensures multiset(sorted) == multiset(ranges)
  {
    sorted := [];
    for n := 0 to |ranges|
      invariant SortedByStart(sorted) && multiset(sorted) == multiset(ranges[..n])
    {
      sorted := InsertByStart(sorted, ranges[n]);
      assert ranges[..n + 1] == ranges[..n] + [ranges[n]];
    }
    assert ranges[..|ranges|] == ranges;
  }

  method InsertByStart(sorted: seq<Range>, range: Range) returns (output: seq<Range>)
    requires SortedByStart(sorted)
    ensures SortedByStart(output)
    ensures multiset(output) == multiset(sorted) + multiset{range}
  {
    var at := 0;
    while at < |sorted| && sorted[at].start <= range.start
      invariant at <= |sorted|
      invariant forall k :: 0 <= k < at ==> sorted[k].start <= range.start
    {
      at := at + 1;
    }
    output := sorted[..at] + [range] + sorted[at..];
    assert sorted == sorted[..at] + sorted[at..];
  }

  lemma InByMembership(a: seq<Range>, b: seq<Range>, row: int)
    requires multiset(a) == multiset(b)
    ensures In(a, row) <==> In(b, row)
  {
    if In(a, row) { var k :| 0 <= k < |a| && Covers(a[k], row); assert a[k] in multiset(b); }
    if In(b, row) { var k :| 0 <= k < |b| && Covers(b[k], row); assert b[k] in multiset(a); }
  }

  /** The exact union, in normal form. */
  method UnionRanges(left: seq<Range>, right: seq<Range>) returns (output: seq<Range>)
    requires NonEmpty(left) && NonEmpty(right)
    ensures Normal(output)
    ensures forall row :: In(output, row) <==> In(left, row) || In(right, row)
  {
    var ranges := SortByStart(left + right);
    assert NonEmpty(ranges) by {
      forall k | 0 <= k < |ranges| ensures ranges[k].start < ranges[k].end { assert ranges[k] in multiset(left + right); }
    }
    output := [];
    for n := 0 to |ranges|
      invariant Normal(output)
      invariant output != [] && n < |ranges| ==> output[|output| - 1].start <= ranges[n].start
      invariant output == [] ==> n == 0
      invariant forall row :: In(output, row) <==> In(ranges[..n], row)
    {
      ghost var before := output;
      output := MergeRange(output, ranges[n]);
      forall row ensures In(output, row) <==> In(ranges[..n + 1], row) {
        InAppend(ranges[..n], ranges[n], row);
        assert ranges[..n + 1] == ranges[..n] + [ranges[n]];
        assert In(output, row) <==> In(before, row) || Covers(ranges[n], row);
      }
    }
    assert ranges[..|ranges|] == ranges;
    forall row ensures In(output, row) <==> In(left, row) || In(right, row) {
      InByMembership(ranges, left + right, row);
      InConcat(left, right, row);
    }
  }

  lemma InConcat(left: seq<Range>, right: seq<Range>, row: int)
    ensures In(left + right, row) <==> In(left, row) || In(right, row)
  {
    var both := left + right;
    if In(left, row) { var k :| 0 <= k < |left| && Covers(left[k], row); assert Covers(both[k], row); }
    if In(right, row) { var k :| 0 <= k < |right| && Covers(right[k], row); assert Covers(both[|left| + k], row); }
    if In(both, row) {
      var k :| 0 <= k < |both| && Covers(both[k], row);
      assert k >= |left| ==> Covers(right[k - |left|], row);
    }
  }

  /** Adds a range that starts no earlier than the last one, extending it if they overlap or touch. */
  method MergeRange(ranges: seq<Range>, range: Range) returns (output: seq<Range>)
    requires Normal(ranges) && range.start < range.end
    requires ranges != [] ==> ranges[|ranges| - 1].start <= range.start
    ensures Normal(output) && output != [] && output[|output| - 1].start <= range.start
    ensures forall row :: In(output, row) <==> In(ranges, row) || Covers(range, row)
  {
    var n := |ranges|;
    if n > 0 && range.start <= ranges[n - 1].end {
      output := ranges[n - 1 := Range(ranges[n - 1].start, Max(ranges[n - 1].end, range.end))];
      forall row ensures In(output, row) <==> In(ranges, row) || Covers(range, row) {
        ExtendLast(ranges, output, range, row);
      }
    } else {
      output := ranges + [range];
      forall row ensures In(output, row) <==> In(ranges, row) || Covers(range, row) {
        InAppend(ranges, range, row);
      }
    }
  }

  lemma ExtendLast(ranges: seq<Range>, grown: seq<Range>, range: Range, row: int)
    requires |ranges| > 0 && ranges[|ranges| - 1].start <= range.start <= ranges[|ranges| - 1].end
    requires grown == ranges[|ranges| - 1 :=
                             Range(ranges[|ranges| - 1].start, Max(ranges[|ranges| - 1].end, range.end))]
    ensures In(grown, row) <==> In(ranges, row) || Covers(range, row)
  {
    var last := |ranges| - 1;
    if In(ranges, row) {
      var k :| 0 <= k < |ranges| && Covers(ranges[k], row);
      assert Covers(grown[k], row);
    }
    if Covers(range, row) { assert Covers(grown[last], row); }
    if In(grown, row) {
      var k :| 0 <= k < |grown| && Covers(grown[k], row);
      assert k < last ==> Covers(ranges[k], row);
      assert k == last ==> Covers(ranges[last], row) || Covers(range, row);
    }
  }

  // ---------------------------------------------------------------- counting

  function TotalRows(ranges: seq<Range>): int {
    if ranges == [] then 0
    else TotalRows(ranges[..|ranges| - 1]) + (ranges[|ranges| - 1].end - ranges[|ranges| - 1].start)
  }

  ghost function RowsOf(ranges: seq<Range>, rows: nat): set<int> {
    set row | 0 <= row < rows && In(ranges, row)
  }

  ghost function RowsIn(r: Range): set<int> {
    set row | r.start <= row < r.end && Covers(r, row)
  }

  lemma {:induction false} IntervalSize(r: Range)
    requires r.start <= r.end
    ensures |RowsIn(r)| == r.end - r.start
    decreases r.end - r.start
  {
    if r.start < r.end {
      var rest := Range(r.start + 1, r.end);
      IntervalSize(rest);
      assert Covers(r, r.start);
      assert forall row :: Covers(rest, row) <==> Covers(r, row) && row != r.start;
      assert RowsIn(r) == {r.start as int} + RowsIn(rest);
    } else {
      assert RowsIn(r) == {};
    }
  }

  lemma LastSplits(ranges: seq<Range>, rows: nat)
    requires Normal(ranges) && Below(ranges, rows) && ranges != []
    ensures var n := |ranges| - 1;
            && RowsOf(ranges, rows) == RowsOf(ranges[..n], rows) + RowsIn(ranges[n])
            && RowsOf(ranges[..n], rows) !! RowsIn(ranges[n])
  {
    var n := |ranges| - 1;
    var init, last := ranges[..n], ranges[n];
    assert ranges == init + [last];
    forall row: int
      ensures In(ranges, row) <==> In(init, row) || Covers(last, row)
      ensures !(In(init, row) && Covers(last, row))
    {
      InAppend(init, last, row);
    }
  }

  /** In normal form the lengths of the ranges add up to the number of selected rows. */
  lemma {:induction false} TotalIsCount(ranges: seq<Range>, rows: nat)
    requires Normal(ranges) && Below(ranges, rows)
    ensures TotalRows(ranges) == |RowsOf(ranges, rows)| <= rows
    decreases |ranges|
  {
    hide In;
    if ranges == [] {
      NothingIn(rows);
    } else {
      var n := |ranges| - 1;
      TotalIsCount(ranges[..n], rows);
      IntervalSize(ranges[n]);
      LastSplits(ranges, rows);
    }
    AtMostAll(ranges, rows);
  }

  lemma NothingIn(rows: nat)
    ensures RowsOf([], rows) == {}
  {
  }

  lemma AtMostAll(ranges: seq<Range>, rows: nat)
    ensures |RowsOf(ranges, rows)| <= rows
    ensures |RowsOf(ranges, rows)| == rows ==> forall row :: 0 <= row < rows ==> In(ranges, row)
  {
    var whole := Range(0, rows);
    IntervalSize(whole);
    assert forall row :: row in RowsOf(ranges, rows) ==> Covers(whole, row);
    SubsetSize(RowsOf(ranges, rows), RowsIn(whole));
    forall row | 0 <= row < rows && |RowsOf(ranges, rows)| == rows ensures In(ranges, row) {
      assert Covers(whole, row);
      assert row in RowsIn(whole);
    }
  }

  lemma SubsetSize(a: set<int>, b: set<int>)
    requires a <= b
    ensures |a| <= |b|
    ensures |a| == |b| ==> a == b
  {
    assert b == a + (b - a);
  }
}
