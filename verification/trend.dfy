/**
 The performance-trend downsampler of the dashboard (webclient/main.js):
 the per-range tables and `filterPerformanceData`, which keeps at most
 the range's number of points, newest first, one every `step` samples.
 The four arrays are JavaScript arrays, so reading past the end of one
 gives `undefined` (`None` here).
 */
module Trend {
  import opened Common

  /** `pointsNeeded`: one point a minute for 1h, every 5 minutes for 6h, every 15 for 24h, every 2 hours for 7d. */
  function PointsNeeded(range: string): nat
  {
    if range == "1h" then 60
    else if range == "6h" then 72
    else if range == "24h" then 96
    else if range == "7d" then 84
    else 60
  }

  /** `getUpdateInterval`, in milliseconds. */
  function UpdateInterval(range: string): nat
  {
    if range == "1h" then 60000
    else if range == "6h" then 300000
    else if range == "24h" then 900000
    else if range == "7d" then 7200000
    else 60000
  }

  /** How long each named range is, in hours; an unknown range is treated as 1h. */
  function RangeHours(range: string): nat
  {
    if range == "6h" then 6
    else if range == "24h" then 24
    else if range == "7d" then 7 * 24
    else 1
  }

  /**
   The two tables agree: points times refresh interval is exactly the span
   of the range, and an unknown range takes both values of 1h.
   */
  lemma RangeTables(range: string)
    ensures PointsNeeded(range) * UpdateInterval(range) == RangeHours(range) * 3600 * 1000
    ensures range !in ["1h", "6h", "24h", "7d"] ==>
      PointsNeeded(range) == PointsNeeded("1h") && UpdateInterval(range) == UpdateInterval("1h")
    ensures PointsNeeded(range) >= 60
  {
  }

  /** A JavaScript array read: `undefined` outside the array. */
  function At<V>(a: seq<Option<V>>, i: int): (r: Option<V>)
    ensures 0 <= i < |a| ==> r == a[i]
    ensures !(0 <= i < |a|) ==> r.None?
  {
    if 0 <= i < |a| then a[i] else None
  }

  /** The elements at the given indices, in that order. */
  function Pick<V>(a: seq<Option<V>>, idx: seq<nat>): (r: seq<Option<V>>)
    ensures |r| == |idx|
  {
    if |idx| == 0 then [] else [At(a, idx[0])] + Pick(a, idx[1..])
  }

  /** Element `k` of a pick is the array read at the `k`-th index. */
  lemma {:induction false} PickAt<V>(a: seq<Option<V>>, idx: seq<nat>, k: nat)
    requires k < |idx|
    ensures Pick(a, idx)[k] == At(a, idx[k])
  {
    if k > 0 {
      PickAt(a, idx[1..], k - 1);
    }
  }

  lemma PickCons<V>(a: seq<Option<V>>, i: nat, idx: seq<nat>)
    ensures Pick(a, [i] + idx) == [At(a, i)] + Pick(a, idx)
  {
    assert ([i] + idx)[1..] == idx;
  }

  /** The chart data: four arrays meant to be index-aligned. */
  datatype Series<V> = Series(timestamps: seq<Option<V>>, cpu: seq<Option<V>>, memory: seq<Option<V>>, diskIO: seq<Option<V>>)

  /** `Math.ceil(a / b)` for positive integers. */
  function Ceil(a: nat, b: nat): (r: nat)
    requires b > 0
    ensures r * b >= a
    ensures r > 0 ==> (r - 1) * b < a
  {
    var q := (a + b - 1) / b;
    var m := (a + b - 1) % b;
    assert a + b - 1 == b * q + m;
    assert q * b == b * q;
    assert q > 0 ==> (q - 1) * b == q * b - b;
    q
  }

  /** The indices `top, top − step, top − 2·step, …` that are not negative, at most `left` of them, oldest first. */
  function Picked(top: int, step: nat, left: nat): seq<nat>
    requires step >= 1
    decreases left
  {
    if top < 0 || left == 0 then [] else Picked(top - step, step, left - 1) + [top]
  }

  /** Picked indices: `min(left, ⌊top/step⌋ + 1)` of them, `step` apart, ending at `top`. */
  lemma {:induction false} PickedShape(top: int, step: nat, left: nat)
    requires step >= 1
    ensures var r := Picked(top, step, left);
      && |r| == (if top < 0 then 0 else Min(left, top / step + 1))
      && (forall m :: 0 <= m < |r| ==> r[m] <= top)
      && (forall m :: 0 <= m < |r| - 1 ==> r[m + 1] == r[m] + step)
      && (|r| > 0 ==> r[|r| - 1] == top)
    decreases left
  {
    if top >= 0 && left > 0 {
      PickedShape(top - step, step, left - 1);
      var r := Picked(top, step, left);
      var t := Picked(top - step, step, left - 1);
      assert r == t + [top];
      assert forall m :: 0 <= m < |t| ==> r[m] == t[m];
      CountStepsDown(top, step, left);
    }
  }

  /** One step down from `top` leaves one index fewer to count, or none when it goes below zero. */
  lemma CountStepsDown(top: nat, step: nat, left: nat)
    requires step >= 1 && left >= 1
    ensures (if top - step < 0 then 0 else Min(left - 1, (top - step) / step + 1)) + 1 == Min(left, top / step + 1)
  {
    if top >= step {
      DivUnique(top - step, step, top / step - 1, top % step);
    } else {
      DivUnique(top, step, 0, top);
    }
  }

  function Min(a: nat, b: nat): nat { if a <= b then a else b }

  /** For positive numbers, the ceiling is one more than the floor of one less. */
  lemma CeilViaFloor(a: nat, b: nat)
    requires a >= 1 && b >= 1
    ensures Ceil(a, b) == (a - 1) / b + 1
  {
    var q := (a - 1) / b;
    var r := (a - 1) % b;
    assert a - 1 == b * q + r;
    assert a + b - 1 == b * (q + 1) + r;
    DivUnique(a + b - 1, b, q + 1, r);
  }

  /** Walking down by `⌈L/n⌉` from `L − 1` meets at most `n` indices. */
  lemma CeilOfCeil(len: nat, n: nat)
    requires 0 < n < len
    ensures Ceil(len, n) >= 1
    ensures Ceil(len, Ceil(len, n)) <= n
  {
    var step := Ceil(len, n);
    CeilViaFloor(len, step);
    var q := (len - 1) / step;
    assert step * q <= len - 1;
    assert step * n >= len;
    if q >= n {
      if q > n {
        MulStep(step, n, q);
      }
      assert false;
    }
  }

  /**
   With `step = ⌈L/n⌉` and `L > n`, the walk down from `L − 1` meets
   `⌈L/step⌉ ≤ n` indices, so the `pointsNeeded` cut-off only ever stops
   it at its natural end.
   */
  lemma DownsampleCount(len: nat, n: nat)
    requires 0 < n < len
    ensures var step := Ceil(len, n);
      step >= 1 && |Picked(len - 1, step, n)| == Ceil(len, step) <= n
  {
    var step := Ceil(len, n);
    CeilOfCeil(len, n);
    CeilViaFloor(len, step);
    PickedShape(len - 1, step, n);
  }

  /** A trace of 150 samples at 1h gives 50 points, not 60: the step is 3. */
  lemma OneHourOf150Samples()
    ensures Ceil(150, PointsNeeded("1h")) == 3
    ensures |Picked(149, 3, 60)| == 50
  {
    DownsampleCount(150, 60);
    assert Ceil(150, 3) == 50;
  }

  /**
   `filterPerformanceData`: a trace no longer than `pointsNeeded` comes
   back as it is. A longer one is walked from its last sample down in
   steps of `⌈L/pointsNeeded⌉`, each sample put in front (`unshift`) of
   the four result arrays, until the index is negative or enough points
   are kept.
   */
  method FilterPerformanceData<V>(data: Series<V>, range: string) returns (r: Series<V>)
    ensures |data.timestamps| <= PointsNeeded(range) ==> r == data
    ensures |data.timestamps| > PointsNeeded(range) ==>
      var idx := Picked(|data.timestamps| - 1, Ceil(|data.timestamps|, PointsNeeded(range)), PointsNeeded(range));
      && r.timestamps == Pick(data.timestamps, idx)
      && r.cpu == Pick(data.cpu, idx)
      && r.memory == Pick(data.memory, idx)
      && r.diskIO == Pick(data.diskIO, idx)
    ensures |data.timestamps| > PointsNeeded(range) ==>
      && 0 < |r.timestamps| <= PointsNeeded(range)
      && |r.cpu| == |r.memory| == |r.diskIO| == |r.timestamps|
      && r.timestamps[|r.timestamps| - 1] == data.timestamps[|data.timestamps| - 1]
  {
    var len := |data.timestamps|;
    var n := PointsNeeded(range);
    if len <= n {
      return data;
    }
    var step := Ceil(len, n);
    DownsampleCount(len, n);
    PickedShape(len - 1, step, n);
    r := WalkBack(data, step, n);
    var idx := Picked(len - 1, step, n);
    PickAt(data.timestamps, idx, |idx| - 1);
  }

  /** The loop of `filterPerformanceData`: from the last index down by `step`, prepending, at most `n` points. */
  method WalkBack<V>(data: Series<V>, step: nat, n: nat) returns (r: Series<V>)
    requires step >= 1 && n >= 1
    ensures var idx := Picked(|data.timestamps| - 1, step, n);
      && r.timestamps == Pick(data.timestamps, idx)
      && r.cpu == Pick(data.cpu, idx)
      && r.memory == Pick(data.memory, idx)
      && r.diskIO == Pick(data.diskIO, idx)
  {
    var ts: seq<Option<V>> := [];
    var cs: seq<Option<V>> := [];
    var ms: seq<Option<V>> := [];
    var ds: seq<Option<V>> := [];
    ghost var idx: seq<nat> := [];
    var i: int := |data.timestamps| - 1;
    while i >= 0
      invariant |idx| < n
      invariant Picked(|data.timestamps| - 1, step, n) == Picked(i, step, n - |idx|) + idx
      invariant ts == Pick(data.timestamps, idx) && cs == Pick(data.cpu, idx)
      invariant ms == Pick(data.memory, idx) && ds == Pick(data.diskIO, idx)
      decreases i + 1
    {
      assert Picked(i, step, n - |idx|) == Picked(i - step, step, n - |idx| - 1) + [i as nat];
      PickCons(data.timestamps, i, idx);
      PickCons(data.cpu, i, idx);
      PickCons(data.memory, i, idx);
      PickCons(data.diskIO, i, idx);
      ts := [At(data.timestamps, i)] + ts;
      cs := [At(data.cpu, i)] + cs;
      ms := [At(data.memory, i)] + ms;
      ds := [At(data.diskIO, i)] + ds;
      idx := [i as nat] + idx;
      if |ts| >= n {
        assert Picked(i - step, step, n - |idx|) == [];
        assert Picked(|data.timestamps| - 1, step, n) == idx;
        break;
      }
      i := i - step;
    }
    assert Picked(|data.timestamps| - 1, step, n) == idx;
    r := Series(ts, cs, ms, ds);
  }
}
