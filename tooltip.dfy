/** Nearest-point lookup behind the hydrograph tooltip
    (components/hydrograph/tooltip.js). */
module Tooltip {
  import opened Wrappers
  import opened Points

  /** Points in ascending time order, as the series arrive. */
  predicate Sorted(data: seq<Point>) {
    forall i, j :: 0 <= i < j < |data| ==> data[i].dateTime <= data[j].dateTime
  }

  /** d3's `bisector(d => d.dateTime).left(data, x, lo, hi)`: halves
      [lo, hi) until it is empty, moving right past every time below x. */
  function BisectLeft(data: seq<Point>, x: int, lo: int, hi: int): (r: int)
    requires 0 <= lo <= hi <= |data|
    ensures lo <= r <= hi
    ensures r > lo ==> data[r - 1].dateTime < x
    ensures r < hi ==> data[r].dateTime >= x
    decreases hi - lo
  {
    if lo < hi then
      var mid := (lo + hi) / 2;
      if data[mid].dateTime < x then BisectLeft(data, x, mid + 1, hi)
      else BisectLeft(data, x, lo, mid)
    else lo
  }

  /** On time-sorted data the bisection splits [lo, hi) into the times below
      x and the times at or above x. */
  lemma BisectLeftPartitions(data: seq<Point>, x: int, lo: int, hi: int)
    requires 0 <= lo <= hi <= |data| && Sorted(data)
    ensures var r := BisectLeft(data, x, lo, hi);
            (forall j :: lo <= j < r ==> data[j].dateTime < x) &&
            (forall j :: r <= j < hi ==> data[j].dateTime >= x)
  {
  }

  /** The `{datum, index}` object getNearestTime returns. */
  datatype Nearest = Nearest(datum: Point, index: int)

  /** Distance in milliseconds between two times. */
  function Distance(a: int, b: int): nat {
    if a <= b then b - a else a - b
  }

  /** getNearestTime: `null` below two points; otherwise the left insertion
      point i of time among data[1..], then the closer of data[i - 1] and
      data[i], the earlier one on a tie. */
  function GetNearestTime(data: seq<Point>, time: int): (r: Option<Nearest>)
    ensures r.None? <==> |data| < 2
    ensures r.Some? ==> 0 <= r.value.index < |data| && data[r.value.index] == r.value.datum
  {
    if |data| < 2 then None
    else
      var index := BisectLeft(data, time, 1, |data|);
      var d0 := data[index - 1];
      if index < |data| then
        var d1 := data[index];
        if time - d0.dateTime > d1.dateTime - time then Some(Nearest(d1, index))
        else Some(Nearest(d0, index - 1))
      else
        Some(Nearest(d0, index - 1))
  }

  /** For time-sorted data no point is strictly closer to `time` than the
      returned one. */
  lemma NearestTimeIsNearest(data: seq<Point>, time: int, j: int)
    requires Sorted(data) && |data| >= 2 && 0 <= j < |data|
    ensures var r := GetNearestTime(data, time);
            r.Some? && Distance(time, r.value.datum.dateTime) <= Distance(time, data[j].dateTime)
  {
    var n := |data|;
    var i := BisectLeft(data, time, 1, n);
    BisectLeftPartitions(data, time, 1, n);
    if j < i - 1 {
      assert data[j].dateTime <= data[i - 1].dateTime;
    } else if j > i {
      assert data[i].dateTime <= data[j].dateTime;
    }
  }

  /** Equidistant neighbours: the earlier one is chosen. */
  lemma NearestTimeTieGoesToEarlier(data: seq<Point>, time: int, k: int)
    requires Sorted(data) && 1 <= k < |data|
    requires data[k - 1].dateTime < time <= data[k].dateTime
    requires time - data[k - 1].dateTime == data[k].dateTime - time
    ensures GetNearestTime(data, time) == Some(Nearest(data[k - 1], k - 1))
  {
    BisectLeftPartitions(data, time, 1, |data|);
    assert BisectLeft(data, time, 1, |data|) == k;
  }

  /** Points at times 0, 10 and 20: time 6 is nearest to 10, and time 5, equally
      far from 0 and 10, yields the point at 0. */
  lemma NearestTimeThreePointExample(a: Num, b: Num, c: Num)
    ensures var data := [Point(0, a), Point(10, b), Point(20, c)];
            GetNearestTime(data, 6) == Some(Nearest(Point(10, b), 1)) &&
            GetNearestTime(data, 5) == Some(Nearest(Point(0, a), 0))
  {
    var data := [Point(0, a), Point(10, b), Point(20, c)];
    assert BisectLeft(data, 6, 1, 3) == 1;
    assert BisectLeft(data, 5, 1, 3) == 1;
  }

  /** A time after the last point yields the last point. */
  lemma NearestTimeAfterLast(data: seq<Point>, time: int)
    requires Sorted(data) && |data| >= 2
    requires time > data[|data| - 1].dateTime
    ensures GetNearestTime(data, time) == Some(Nearest(data[|data| - 1], |data| - 1))
  {
    BisectLeftPartitions(data, time, 1, |data|);
    assert BisectLeft(data, time, 1, |data|) == |data|;
  }

  /** A time at or before the first point yields the first point. */
  lemma NearestTimeAtOrBeforeFirst(data: seq<Point>, time: int)
    requires Sorted(data) && |data| >= 2
    requires time <= data[0].dateTime
    ensures GetNearestTime(data, time) == Some(Nearest(data[0], 0))
  {
    var i := BisectLeft(data, time, 1, |data|);
    assert data[0].dateTime <= data[1].dateTime;
    assert i == 1;
  }

  /** The TypeError `getNearestTime(points, t).datum` raises on `null`. */
  datatype Error = NullDereference

  /** The combiner of tsDatumSelector: `null` without a focus time or without
      points; otherwise the nearest datum, which fails for a single point
      because getNearestTime then returns `null`. */
  function TsDatum(points: Option<seq<Point>>, tooltipFocusTime: Option<int>): (r: Result<Option<Point>, Error>)
    ensures (tooltipFocusTime.None? || points.None? || |points.value| == 0) ==> r == Ok(None)
    ensures r.Err? <==> tooltipFocusTime.Some? && points.Some? && |points.value| == 1
    ensures tooltipFocusTime.Some? && points.Some? && |points.value| >= 2 ==>
              r == Ok(Some(GetNearestTime(points.value, tooltipFocusTime.value).value.datum)) &&
              r.value.value in points.value
  {
    if tooltipFocusTime.Some? && points.Some? && |points.value| > 0 then
      match GetNearestTime(points.value, tooltipFocusTime.value)
      case None => Err(NullDereference)
      case Some(nearest) => Ok(Some(nearest.datum))
    else
      Ok(None)
  }
}
