/**
 * The frame sampler of `process_video_frames`:
 * `range(0, total_frames, int(total_frames * 0.15))`.
 */
module Sampler {
  import opened Outcomes

  /**
   * `int(n * 0.15)`: the product truncated toward zero. The model takes the
   * floating-point product to be the exact `15 * n / 100`; the rounding of
   * `0.15` never carries that product across an integer for any frame count
   * of magnitude below 2^50, so the truncated value is the same there.
   */
  function Step(n: int): int
  {
    if n >= 0 then n * 15 / 100 else -((-n) * 15 / 100)
  }

  /** Whether `range` yields `cur`: below `stop` going up, above it going down. */
  predicate Continues(cur: int, stop: int, step: int)
  {
    (step > 0 && cur < stop) || (step < 0 && cur > stop)
  }

  /**
   * The values of Python's `range(cur, stop, step)` for `step != 0`: from
   * `cur` in steps of `step` while below `stop` (above it for a negative step).
   */
  function RangeFrom(cur: int, stop: int, step: int): seq<int>
    requires step != 0
    decreases if step > 0 then stop - cur else cur - stop
  {
    if Continues(cur, stop, step)
    then [cur] + RangeFrom(cur + step, stop, step)
    else []
  }

  /**
   * The frame indices `process_video_frames` visits for a video reporting
   * `n` frames. A zero step makes `range` raise `ValueError`; the handler
   * then returns its error response with status 500 and no frame is read.
   */
  function Sample(n: int): Result<seq<int>>
  {
    var step := Step(n);
    if step == 0 then Err(ServerError) else Ok(RangeFrom(0, n, step))
  }

  /** The step is zero exactly for the frame counts strictly between -7 and 7. */
  lemma StepZeroIffShort(n: int)
    ensures Step(n) == 0 <==> -7 < n < 7
    ensures n >= 7 ==> Step(n) >= 1 && 100 * Step(n) <= 15 * n < 100 * Step(n) + 100
  {}

  /** Sampling fails, before any frame is read, exactly for -7 < n < 7 (n = 0 included). */
  lemma SampleFailsIffShort(n: int)
    ensures Sample(n).Err? <==> -7 < n < 7
    ensures Sample(n).Err? ==> Sample(n).status == ServerError
  {}

  /** `a * s <= b * s` for `a <= b` and `s >= 0`. */
  lemma MulMono(a: int, b: int, s: int)
    requires a <= b && 0 <= s
    ensures a * s <= b * s
  {}

  /** `k * s + s == (k + 1) * s`. */
  lemma MulSucc(k: int, s: int)
    ensures k * s + s == (k + 1) * s
  {}

  /** An ascending range holds `cur, cur + step, cur + 2 * step, ...`, all below `stop`. */
  lemma {:induction false} RangeUpAt(cur: int, stop: int, step: int, k: nat)
    requires step > 0 && k < |RangeFrom(cur, stop, step)|
    ensures RangeFrom(cur, stop, step)[k] == cur + k * step < stop
    decreases k
  {
    if k > 0 {
      RangeUpAt(cur + step, stop, step, k - 1);
      MulSucc(k - 1, step);
    }
  }

  /** The length `c` of an ascending range is the least with `cur + c * step >= stop`. */
  lemma {:induction false} RangeUpLength(cur: int, stop: int, step: int)
    requires step > 0 && cur < stop
    ensures (|RangeFrom(cur, stop, step)| - 1) * step < stop - cur <= |RangeFrom(cur, stop, step)| * step
    decreases stop - cur
  {
    var c, t := |RangeFrom(cur, stop, step)|, RangeFrom(cur + step, stop, step);
    assert c == |t| + 1;
    if t == [] {
      assert (c - 1) * step == 0 && c * step == step;
    } else {
      RangeUpLength(cur + step, stop, step);
      MulSucc(|t| - 1, step);
      MulSucc(|t|, step);
    }
  }

  /**
   * For a video of `n >= 7` frames the sampler visits `0, step, 2*step, ...`
   * strictly below `n`, in increasing order, starting at 0, and it visits
   * every multiple of the step below `n`.
   */
  lemma SampleVisitsMultiples(n: int)
    requires n >= 7
    ensures Sample(n).Ok? && |Sample(n).value| > 0 && Sample(n).value[0] == 0
    ensures forall k :: 0 <= k < |Sample(n).value| ==>
              Sample(n).value[k] == k * Step(n) && 0 <= Sample(n).value[k] < n
    ensures forall i, j :: 0 <= i < j < |Sample(n).value| ==> Sample(n).value[i] < Sample(n).value[j]
    ensures forall m :: 0 <= m < n && m % Step(n) == 0 ==> m in Sample(n).value
  {
    var s := Step(n);
    StepZeroIffShort(n);
    var r := RangeFrom(0, n, s);
    RangeUpLength(0, n, s);
    forall k | 0 <= k < |r| ensures r[k] == k * s && 0 <= r[k] < n {
      RangeUpAt(0, n, s, k);
      MulMono(0, k, s);
    }
    forall i, j | 0 <= i < j < |r| ensures r[i] < r[j] {
      MulMono(i + 1, j, s);
      MulSucc(i, s);
    }
    forall m | 0 <= m < n && m % s == 0 ensures m in r {
      SampleCoversMultiple(n, s, m);
    }
  }

  /** Every multiple of the step below `n` is among the sampled indices. */
  lemma SampleCoversMultiple(n: int, s: int, m: int)
    requires n >= 7 && s == Step(n) && 0 <= m < n && m % s == 0
    ensures s > 0 && m in RangeFrom(0, n, s)
  {
    StepZeroIffShort(n);
    var r := RangeFrom(0, n, s);
    RangeUpLength(0, n, s);
    var q := m / s;
    assert q * s == m;
    assert 0 <= q by {
      if q < 0 { MulMono(q, -1, s); }
    }
    if q >= |r| {
      MulMono(|r|, q, s);
    } else {
      RangeUpAt(0, n, s, q);
      assert r[q] == m;
    }
  }

  /**
   * A video of `n >= 7` frames is sampled at no fewer than 7 and no more
   * than 13 frames, whatever its length.
   */
  lemma SampleCountBounded(n: int)
    requires n >= 7
    ensures Sample(n).Ok? && 7 <= |Sample(n).value| <= 13
  {
    var s := Step(n);
    StepZeroIffShort(n);
    var c := |RangeFrom(0, n, s)|;
    RangeUpLength(0, n, s);
    if c <= 6 {
      MulMono(c, 6, s);
      assert false;
    }
    if c >= 14 {
      MulMono(13, c - 1, s);
      assert false;
    }
  }

  /** A video of 100 frames is sampled at frames 0, 15, 30, 45, 60, 75 and 90. */
  lemma SampleOfHundred()
    ensures Sample(100) == Ok([0, 15, 30, 45, 60, 75, 90])
  {
    assert Step(100) == 15;
    assert RangeFrom(105, 100, 15) == [];
    assert RangeFrom(90, 100, 15) == [90];
    assert RangeFrom(75, 100, 15) == [75, 90];
    assert RangeFrom(60, 100, 15) == [60, 75, 90];
    assert RangeFrom(45, 100, 15) == [45, 60, 75, 90];
    assert RangeFrom(30, 100, 15) == [30, 45, 60, 75, 90];
    assert RangeFrom(15, 100, 15) == [15, 30, 45, 60, 75, 90];
    assert RangeFrom(0, 100, 15) == [0, 15, 30, 45, 60, 75, 90];
  }

  /**
   * A negative reported count of at most -7 gives a negative step; the
   * indices then run `0, step, 2*step, ...` downwards while above `n`.
   */
  lemma {:induction false} RangeDown(cur: int, stop: int, step: int)
    requires step < 0
    ensures forall k :: 0 <= k < |RangeFrom(cur, stop, step)| ==>
              stop < RangeFrom(cur, stop, step)[k] == cur + k * step
    decreases cur - stop
  {
    if cur > stop {
      var r, t := RangeFrom(cur, stop, step), RangeFrom(cur + step, stop, step);
      RangeDown(cur + step, stop, step);
      forall k | 0 <= k < |r| ensures stop < r[k] == cur + k * step {
        if k > 0 {
          assert r[k] == t[k - 1] == cur + step + (k - 1) * step;
          assert (k - 1) * step + step == k * step;
        }
      }
    }
  }

  /** For `n <= -7` the sampled indices lie in `(n, 0]` and descend from 0. */
  lemma SampleOfNegativeCount(n: int)
    requires n <= -7
    ensures Sample(n).Ok? && Step(n) < 0
    ensures forall k :: 0 <= k < |Sample(n).value| ==>
              Sample(n).value[k] == k * Step(n) && n < Sample(n).value[k] <= 0
  {
    var s := Step(n);
    StepZeroIffShort(n);
    RangeDown(0, n, s);
    var r := RangeFrom(0, n, s);
    forall k | 0 <= k < |r| ensures r[k] <= 0 {
      MulMono(0, k, -s);
    }
  }
}
