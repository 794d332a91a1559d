/** `_daterange`: the dates from a start date through an end date, both included. */
module DateRange {
  import opened Calendar

  /** The days `start`, `start + 1`, ..., `end`; empty when `end` precedes `start`. */
  function Range(start: Day, end: Day): (r: seq<Day>)
    ensures |r| == if end >= start then end - start + 1 else 0
    ensures forall i :: 0 <= i < |r| ==> r[i] == start + i
    decreases end - start
  {
    if start > end then []
    else if start == end then [start]
    else [start] + Range(start + 1, end)
  }

  /** Element i is `start + i`, so the range climbs by exactly one day and holds both ends. */
  lemma RangeShape(start: Day, end: Day)
    requires start <= end
    ensures Range(start, end)[0] == start
    ensures Range(start, end)[|Range(start, end)| - 1] == end
    ensures forall i :: 0 < i < |Range(start, end)| ==> Range(start, end)[i] == Range(start, end)[i - 1] + 1
  {
  }

  /** A day lies in the range exactly when it lies between its ends. */
  lemma InRange(start: Day, end: Day, d: Day)
    ensures d in Range(start, end) <==> start <= d <= end
  {
    if start <= d <= end {
      assert Range(start, end)[d - start] == d;
    }
  }

  /** Dropping the first k days leaves the range that starts k days later. */
  lemma {:induction false} RangeSuffix(start: Day, end: Day, k: nat)
    requires k <= |Range(start, end)|
    requires start + k <= MaxOrdinal
    ensures Range(start, end)[k..] == Range(start + k, end)
  {
    var r, s := Range(start, end), Range(start + k, end);
    assert |r[k..]| == |s|;
    forall i | 0 <= i < |s|
      ensures r[k..][i] == s[i]
    {
    }
  }
}
