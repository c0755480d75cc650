/**
 The Hermite path sampler (povherm's `Hermite3D`) as pure functions.

 For every consecutive pair of control records `cps[i] -> cps[i+1]` the sampler
 sets a divisor from `cps[i].frames` (one less on the final segment), starts the
 curve parameter at t = 0, emits the blended point, adds `1/divisor` to t and
 stops the segment once t reaches the tolerance 0.999999 (interior segments) or
 0.999999 + 1/divisor (the final segment). All segments' points go, in order,
 into one output sequence.

 With exact reals, t after k additions of 1/d is exactly k/d; `LoopParams`
 follows the loop's own termination test and `LoopParamsClosedForm` shows that,
 for every divisor the capacity admits, an interior segment emits t = k/d for
 k = 0..d-1 and the final segment t = k/d for k = 0..d.
 */
module Sampler {
  import opened Records
  import opened Hermite

  /** Capacity of the output point array. */
  const MaxPoints: int := 1000

  /** The tolerance of the segment termination test. */
  const Tolerance: real := 0.999999

  /** Segment `i` (from `cps[i]` to `cps[i+1]`) is the final one. */
  predicate IsFinal(cps: seq<CtrlRec>, i: int)
  {
    i + 1 == |cps| - 1
  }

  /** The divisor of segment `i`: its start record's frame count, one less on the final segment. */
  function Divisor(cps: seq<CtrlRec>, i: int): int
    requires 0 <= i < |cps|
  {
    var divisor := cps[i].frames;
    if IsFinal(cps, i) then divisor - 1 else divisor
  }

  /** What the sampler assumes of its input without checking it: at least two
      control records, at least one frame on every non-final segment and at least
      two on the final one (whose divisor is one less). */
  predicate WellFormed(cps: seq<CtrlRec>)
  {
    && |cps| >= 2
    && (forall i :: 0 <= i < |cps| - 2 ==> cps[i].frames >= 1)
    && cps[|cps| - 2].frames >= 2
  }

  /** Sum of the frame counts of the first `n` control records. */
  function FrameSum(cps: seq<CtrlRec>, n: int): int
    requires 0 <= n <= |cps|
  {
    if n == 0 then 0 else FrameSum(cps, n - 1) + cps[n - 1].frames
  }

  /** A well-formed input whose output fits the point array (the store has no bounds check). */
  predicate Valid(cps: seq<CtrlRec>)
  {
    WellFormed(cps) && FrameSum(cps, |cps| - 1) <= MaxPoints
  }

  /** The number of samples a segment with divisor `d` emits when the
      tolerance does not interfere: d on an interior segment, d + 1 on the final one. */
  function Count(d: int, final: bool): int
  {
    if final then d + 1 else d
  }

  /** The curve parameter after `k` steps of 1/d. */
  function Param(k: int, d: int): real
    requires d >= 1
  {
    (k as real) / (d as real)
  }

  /** The inner loop's termination test, taken after t has been advanced by `delta`. */
  predicate SegmentDone(delta: real, final: bool, t: real)
  {
    if final then t >= Tolerance + delta else t >= Tolerance
  }

  /** The parameter values the inner loop visits, from the `k`-th step on:
      emit t = k/d, advance, and continue unless the termination test holds. */
  function LoopParams(d: int, final: bool, k: nat): (ts: seq<real>)
    requires 1 <= d && k <= d
    ensures |ts| >= 1 && ts[0] == Param(k, d)
    decreases d - k
  {
    if SegmentDone(1.0 / (d as real), final, Param(k + 1, d)) then
      [Param(k, d)]
    else
      NotDoneBound(d, final, k + 1);
      [Param(k, d)] + LoopParams(d, final, k + 1)
  }

  /** The termination test, as an integer comparison. */
  lemma DoneAsInteger(d: int, final: bool, j: int)
    requires d >= 1
    ensures SegmentDone(1.0 / (d as real), final, Param(j, d))
        <==> (if final then 1000000 * (j - 1) >= 999999 * d else 1000000 * j >= 999999 * d)
  {
    var dr := d as real;
    var m := if final then j - 1 else j;
    var t := Param(j, d);
    assert t - (if final then 1.0 / dr else 0.0) == (m as real) / dr;
    var q := (m as real) / dr;
    assert q * dr == m as real;
    assert q >= Tolerance <==> q * dr >= Tolerance * dr;
  }

  /** While the loop goes on, the next step index has not passed the divisor,
      whatever the divisor is. */
  lemma NotDoneBound(d: int, final: bool, j: int)
    requires d >= 1
    requires !SegmentDone(1.0 / (d as real), final, Param(j, d))
    ensures j <= d
    ensures !final ==> j < d
  {
    DoneAsInteger(d, final, j);
  }

  /** For a divisor below 10^6 the loop stops after exactly `Count(d, final)` steps. */
  lemma DoneExactly(d: int, final: bool, j: int)
    requires 1 <= d < 1000000
    ensures SegmentDone(1.0 / (d as real), final, Param(j, d)) <==> j >= Count(d, final)
  {
    DoneAsInteger(d, final, j);
  }

  /** The heart of the sampler: with a divisor below 10^6 the loop visits
      exactly t = j/d for j = k .. Count(d, final) - 1. */
  lemma {:induction false} LoopParamsClosedForm(d: int, final: bool, k: nat)
    requires 1 <= d < 1000000 && k < Count(d, final)
    ensures LoopParams(d, final, k) == seq(Count(d, final) - k, j => Param(k + j, d))
    decreases d - k
  {
    DoneExactly(d, final, k + 1);
    if k + 1 < Count(d, final) {
      LoopParamsClosedForm(d, final, k + 1);
    }
  }

  /** The parameter values of segment `i`. */
  function SegmentParams(cps: seq<CtrlRec>, i: int): seq<real>
    requires WellFormed(cps) && 0 <= i < |cps| - 1
  {
    LoopParams(Divisor(cps, i), IsFinal(cps, i), 0)
  }

  /** The point of segment `i` at parameter `t`: positions and tangents of `cps[i]` and `cps[i+1]`. */
  function SegmentPoint(cps: seq<CtrlRec>, i: int, t: real): Point
    requires 0 <= i < |cps| - 1
  {
    HermitePoint(cps[i].vpt, cps[i + 1].vpt, cps[i].dvpt, cps[i + 1].dvpt, t)
  }

  /** The points segment `i` emits, one per parameter value. */
  function SegmentSamples(cps: seq<CtrlRec>, i: int): (ps: seq<Point>)
    requires WellFormed(cps) && 0 <= i < |cps| - 1
  {
    var ts := SegmentParams(cps, i);
    seq(|ts|, k requires 0 <= k < |ts| => SegmentPoint(cps, i, ts[k]))
  }

  /** The output of the first `n` segments, in segment order. */
  function SamplesUpTo(cps: seq<CtrlRec>, n: int): seq<Point>
    requires WellFormed(cps) && 0 <= n <= |cps| - 1
  {
    if n == 0 then [] else SamplesUpTo(cps, n - 1) + SegmentSamples(cps, n - 1)
  }

  /** The whole output of the sampler. */
  function Samples(cps: seq<CtrlRec>): seq<Point>
    requires WellFormed(cps)
  {
    SamplesUpTo(cps, |cps| - 1)
  }

  /** t = k/d lies in [0, 1) before the last step and is 1 at it. */
  lemma ParamRange(k: int, d: int)
    requires 0 <= k <= d && d >= 1
    ensures 0.0 <= Param(k, d) <= 1.0
    ensures k < d ==> Param(k, d) < 1.0
    ensures k == d ==> Param(k, d) == 1.0
  {
    var q := Param(k, d);
    assert q * (d as real) == k as real;
    if k == d {
      assert (d as real) / (d as real) == 1.0;
    }
  }

  /** Frame sums grow with the number of records summed, and each record's
      frames fit inside any sum that includes it. */
  lemma {:induction false} FrameSumMonotone(cps: seq<CtrlRec>, a: int, b: int)
    requires WellFormed(cps) && 0 <= a < b <= |cps| - 1
    ensures FrameSum(cps, a) + cps[a].frames <= FrameSum(cps, b)
    decreases b - a
  {
    if a + 1 < b {
      FrameSumMonotone(cps, a + 1, b);
    }
  }

  /** Every frame sum of a well-formed input is at least the number of records summed. */
  lemma {:induction false} FrameSumAtLeast(cps: seq<CtrlRec>, n: int)
    requires WellFormed(cps) && 0 <= n <= |cps| - 1
    ensures FrameSum(cps, n) >= n
  {
    if n > 0 {
      FrameSumAtLeast(cps, n - 1);
    }
  }

  /** On a valid input every divisor is at least one and at most the capacity,
      so well below the 10^6 at which the tolerance would cut a segment short. */
  lemma DivisorBounds(cps: seq<CtrlRec>, i: int)
    requires Valid(cps) && 0 <= i < |cps| - 1
    ensures 1 <= Divisor(cps, i) <= MaxPoints
  {
    FrameSumAtLeast(cps, i);
    if i < |cps| - 2 {
      FrameSumMonotone(cps, i, |cps| - 1);
    }
  }

  /** Segment `i` visits t = k/d for k below its start record's frame count. */
  lemma SegmentParamsClosedForm(cps: seq<CtrlRec>, i: int)
    requires Valid(cps) && 0 <= i < |cps| - 1
    ensures SegmentParams(cps, i) == seq(cps[i].frames, k => Param(k, Divisor(cps, i)))
  {
    DivisorBounds(cps, i);
    LoopParamsClosedForm(Divisor(cps, i), IsFinal(cps, i), 0);
  }

  /** An interior segment with divisor d emits exactly d samples, at t = k/d for
      k = 0..d-1: it never reaches t = 1, the next segment's start. */
  lemma InteriorSegmentParams(cps: seq<CtrlRec>, i: int)
    requires Valid(cps) && 0 <= i < |cps| - 2
    ensures var ts := SegmentParams(cps, i);
      && |ts| == Divisor(cps, i) == cps[i].frames
      && forall k :: 0 <= k < |ts| ==> ts[k] == Param(k, cps[i].frames) && 0.0 <= ts[k] < 1.0
  {
    SegmentParamsClosedForm(cps, i);
    DivisorBounds(cps, i);
    forall k | 0 <= k < cps[i].frames
      ensures 0.0 <= Param(k, cps[i].frames) < 1.0
    {
      ParamRange(k, cps[i].frames);
    }
  }

  /** The final segment has divisor d = frames - 1 and emits exactly d + 1
      samples, at t = k/d for k = 0..d; the last of them is t = 1. */
  lemma FinalSegmentParams(cps: seq<CtrlRec>)
    requires Valid(cps)
    ensures var i := |cps| - 2;
      var ts := SegmentParams(cps, i);
      && Divisor(cps, i) == cps[i].frames - 1
      && |ts| == Divisor(cps, i) + 1
      && (forall k :: 0 <= k < |ts| ==> ts[k] == Param(k, Divisor(cps, i)) && 0.0 <= ts[k] <= 1.0)
      && ts[|ts| - 1] == 1.0
  {
    var i := |cps| - 2;
    SegmentParamsClosedForm(cps, i);
    DivisorBounds(cps, i);
    var d := Divisor(cps, i);
    forall k | 0 <= k <= d
      ensures 0.0 <= Param(k, d) <= 1.0
    {
      ParamRange(k, d);
    }
    ParamRange(d, d);
  }

  /** Each segment emits as many samples as its start record's frame count. */
  lemma SegmentSamplesLength(cps: seq<CtrlRec>, i: int)
    requires Valid(cps) && 0 <= i < |cps| - 1
    ensures |SegmentSamples(cps, i)| == cps[i].frames
  {
    SegmentParamsClosedForm(cps, i);
  }

  /** The first `n` segments emit `FrameSum(cps, n)` samples. */
  lemma {:induction false} SamplesUpToLength(cps: seq<CtrlRec>, n: int)
    requires Valid(cps) && 0 <= n <= |cps| - 1
    ensures |SamplesUpTo(cps, n)| == FrameSum(cps, n)
  {
    if n > 0 {
      SamplesUpToLength(cps, n - 1);
      SegmentSamplesLength(cps, n - 1);
    }
  }

  /** Total count: the sampler emits the sum of the frame counts of all records
      but the last. */
  lemma SamplesLength(cps: seq<CtrlRec>)
    requires Valid(cps)
    ensures |Samples(cps)| == FrameSum(cps, |cps| - 1) <= MaxPoints
  {
    SamplesUpToLength(cps, |cps| - 1);
  }

  /** Later segments only append: the output of the first `n` segments is a
      prefix of the output of the first `m`. */
  lemma {:induction false} SamplesUpToPrefix(cps: seq<CtrlRec>, n: int, m: int)
    requires WellFormed(cps) && 0 <= n <= m <= |cps| - 1
    ensures |SamplesUpTo(cps, n)| <= |SamplesUpTo(cps, m)|
    ensures SamplesUpTo(cps, m)[..|SamplesUpTo(cps, n)|] == SamplesUpTo(cps, n)
    decreases m - n
  {
    if n < m {
      SamplesUpToPrefix(cps, n, m - 1);
      var a, b := SamplesUpTo(cps, m - 1), SegmentSamples(cps, m - 1);
      assert (a + b)[..|a|] == a;
    }
  }

  /** Segment coverage and order: segment `i`'s samples are exactly the output
      block between the frame sums of the records before it and through it. */
  lemma SegmentBlock(cps: seq<CtrlRec>, i: int)
    requires Valid(cps) && 0 <= i < |cps| - 1
    ensures 0 <= FrameSum(cps, i) < FrameSum(cps, i + 1) <= |Samples(cps)|
    ensures Samples(cps)[FrameSum(cps, i)..FrameSum(cps, i + 1)] == SegmentSamples(cps, i)
  {
    FrameSumAtLeast(cps, i);
    SamplesUpToPrefix(cps, i + 1, |cps| - 1);
    SamplesUpToLength(cps, i);
    SamplesUpToLength(cps, i + 1);
    var a, b := SamplesUpTo(cps, i), SegmentSamples(cps, i);
    assert (a + b)[|a|..] == b;
  }

  /** Sample formula: sample `k` of segment `i` is the Hermite blend of the
      positions and tangents of records i and i+1 at t = k/d. */
  lemma SampleAt(cps: seq<CtrlRec>, i: int, k: int)
    requires Valid(cps) && 0 <= i < |cps| - 1 && 0 <= k < cps[i].frames
    ensures 0 <= FrameSum(cps, i) + k < |Samples(cps)|
    ensures Samples(cps)[FrameSum(cps, i) + k]
         == HermitePoint(cps[i].vpt, cps[i + 1].vpt, cps[i].dvpt, cps[i + 1].dvpt, Param(k, Divisor(cps, i)))
  {
    SegmentBlock(cps, i);
    SegmentParamsClosedForm(cps, i);
    var t := Param(k, Divisor(cps, i));
    assert SegmentParams(cps, i)[k] == t;
    var block := Samples(cps)[FrameSum(cps, i)..FrameSum(cps, i + 1)];
    assert Samples(cps)[FrameSum(cps, i) + k] == block[k] == SegmentPoint(cps, i, t);
  }

  /** Every segment's first sample is its start record's position. */
  lemma SegmentStartsAtControlPoint(cps: seq<CtrlRec>, i: int)
    requires Valid(cps) && 0 <= i < |cps| - 1
    ensures 0 <= FrameSum(cps, i) < |Samples(cps)|
    ensures Samples(cps)[FrameSum(cps, i)] == cps[i].vpt
  {
    SegmentBlock(cps, i);
    var block := Samples(cps)[FrameSum(cps, i)..FrameSum(cps, i + 1)];
    assert Samples(cps)[FrameSum(cps, i)] == block[0] == SegmentPoint(cps, i, SegmentParams(cps, i)[0]);
  }

  /** The curve starts at the first record's position and its very last sample
      is the last record's position. */
  lemma CurveEndpoints(cps: seq<CtrlRec>)
    requires Valid(cps)
    ensures |Samples(cps)| >= 2
    ensures Samples(cps)[0] == cps[0].vpt
    ensures Samples(cps)[|Samples(cps)| - 1] == cps[|cps| - 1].vpt
  {
    var i := |cps| - 2;
    SegmentStartsAtControlPoint(cps, 0);
    SegmentBlock(cps, i);
    SamplesLength(cps);
    FinalSegmentParams(cps);
    var ss := SegmentSamples(cps, i);
    assert Samples(cps)[|Samples(cps)| - 1] == ss[|ss| - 1];
  }

  /** A segment whose two positions agree and whose tangents are zero emits
      its start position throughout (the weights C1 and C2 sum to one). */
  lemma ConstantSegment(cps: seq<CtrlRec>, i: int)
    requires Valid(cps) && 0 <= i < |cps| - 1
    requires cps[i].vpt == cps[i + 1].vpt && cps[i].dvpt == Origin && cps[i + 1].dvpt == Origin
    ensures 0 <= FrameSum(cps, i) < FrameSum(cps, i + 1) <= |Samples(cps)|
    ensures forall j :: FrameSum(cps, i) <= j < FrameSum(cps, i + 1) ==> Samples(cps)[j] == cps[i].vpt
  {
    SegmentBlock(cps, i);
    var lo, hi := FrameSum(cps, i), FrameSum(cps, i + 1);
    var block := Samples(cps)[lo..hi];
    var ts := SegmentParams(cps, i);
    forall j | lo <= j < hi
      ensures Samples(cps)[j] == cps[i].vpt
    {
      assert Samples(cps)[j] == block[j - lo] == SegmentPoint(cps, i, ts[j - lo]);
    }
  }

  /** The last record's frame count never affects the output, nor whether the
      input is valid: the divisor is only read from records that start a
      segment, and the capacity only counts their frames. */
  lemma LastFramesUnused(cps: seq<CtrlRec>, f: int)
    requires WellFormed(cps)
    ensures var last := |cps| - 1;
      var cps' := cps[last := cps[last].(frames := f)];
      && WellFormed(cps')
      && (Valid(cps) ==> Valid(cps'))
      && Samples(cps') == Samples(cps)
  {
    var last := |cps| - 1;
    var cps' := cps[last := cps[last].(frames := f)];
    SamplesUpToAgree(cps, cps', last);
  }

  /** Two inputs that agree on every record except the last one's frame count
      have the same frame sums and the same output prefixes. */
  lemma {:induction false} SamplesUpToAgree(cps: seq<CtrlRec>, cps': seq<CtrlRec>, n: int)
    requires WellFormed(cps) && |cps'| == |cps|
    requires forall j :: 0 <= j < |cps| - 1 ==> cps'[j] == cps[j]
    requires cps'[|cps| - 1].vpt == cps[|cps| - 1].vpt && cps'[|cps| - 1].dvpt == cps[|cps| - 1].dvpt
    requires 0 <= n <= |cps| - 1
    ensures WellFormed(cps') && FrameSum(cps', n) == FrameSum(cps, n)
    ensures SamplesUpTo(cps', n) == SamplesUpTo(cps, n)
  {
    if n > 0 {
      SamplesUpToAgree(cps, cps', n - 1);
      assert SegmentSamples(cps', n - 1) == SegmentSamples(cps, n - 1);
    }
  }

  /** A worked case: two records, (0,0,0) with tangent (1,0,0) and 4 frames,
      then (5,0,0) with tangent (0,0,0). Its only segment is the final one, with
      divisor 3: four samples at t = 0, 1/3, 2/3, 1, from (0,0,0) to (5,0,0),
      the inner two at x = 5·C2(t) + C3(t), that is 13/9 and 34/9. */
  lemma TwoRecordScenario()
    ensures var cps := [CtrlRec(Point(0.0, 0.0, 0.0), Point(1.0, 0.0, 0.0), 4),
                        CtrlRec(Point(5.0, 0.0, 0.0), Point(0.0, 0.0, 0.0), 4)];
      && Valid(cps)
      && SegmentParams(cps, 0) == [0.0, 1.0 / 3.0, 2.0 / 3.0, 1.0]
      && Samples(cps) == [Point(0.0, 0.0, 0.0), Point(13.0 / 9.0, 0.0, 0.0),
                          Point(34.0 / 9.0, 0.0, 0.0), Point(5.0, 0.0, 0.0)]
  {
    var cps := [CtrlRec(Point(0.0, 0.0, 0.0), Point(1.0, 0.0, 0.0), 4),
                CtrlRec(Point(5.0, 0.0, 0.0), Point(0.0, 0.0, 0.0), 4)];
    assert Valid(cps);
    assert Divisor(cps, 0) == 3;
    SegmentParamsClosedForm(cps, 0);
    var ts := SegmentParams(cps, 0);
    assert ts == [0.0, 1.0 / 3.0, 2.0 / 3.0, 1.0];
    assert SamplesUpTo(cps, 0) == [];
    assert Samples(cps) == SegmentSamples(cps, 0);
    var p0, p5, m := Point(0.0, 0.0, 0.0), Point(5.0, 0.0, 0.0), Point(1.0, 0.0, 0.0);
    assert HermitePoint(p0, p5, m, Origin, 1.0 / 3.0) == Point(13.0 / 9.0, 0.0, 0.0) by {
      assert C2(1.0 / 3.0) == 7.0 / 27.0 && C3(1.0 / 3.0) == 4.0 / 27.0;
    }
    assert HermitePoint(p0, p5, m, Origin, 2.0 / 3.0) == Point(34.0 / 9.0, 0.0, 0.0) by {
      assert C2(2.0 / 3.0) == 20.0 / 27.0 && C3(2.0 / 3.0) == 2.0 / 27.0;
    }
    var ps := SegmentSamples(cps, 0);
    assert ps[1] == SegmentPoint(cps, 0, 1.0 / 3.0);
    assert ps[2] == SegmentPoint(cps, 0, 2.0 / 3.0);
  }
}
