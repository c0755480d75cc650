/**
 The program's two loops as methods: `Hermite3D`, the nested loops that walk
 the control records and fill the point array, and the loop of `main` that
 gives every computed point its frame index before it is written out as one
 case of the frame switch.
 */
module Povherm {
  import opened Records
  import opened Hermite
  import opened Sampler

  /** One case of the frame switch: frame `index` declares the vector `vec`. */
  datatype Frame = Frame(index: int, vec: Point)

  /** One step of 1/d moves the parameter from k/d to (k+1)/d. */
  lemma ParamStep(k: int, d: int)
    requires d >= 1
    ensures Param(k, d) + 1.0 / (d as real) == Param(k + 1, d)
  {
  }

  /** The sampler's nested loops: the outer loop walks the segments
      `current -> next`, the inner loop emits one point per step of the
      parameter and stops by the tolerance test. The points come out exactly as
      `Samples` describes them, and the running counter counts them (so, by
      `SamplesLength`, it ends at the sum of the frame counts of every record
      but the last). */
  method Hermite3D(cps: seq<CtrlRec>) returns (vpoints: seq<Point>, pointCnt: int)
    requires Valid(cps)
    ensures vpoints == Samples(cps)
    ensures pointCnt == |vpoints|
  {
    var ctrlCnt := |cps|;
    var current, next := 0, 1;
    var completed := false;
    vpoints, pointCnt := [], 0;
    while !completed
      invariant 0 <= current && next == current + 1 <= ctrlCnt - 1
      invariant pointCnt == |vpoints|
      invariant !completed ==> vpoints == SamplesUpTo(cps, current)
      invariant completed ==> vpoints == SamplesUpTo(cps, ctrlCnt - 1)
      decreases ctrlCnt - next, !completed
    {
      var divisor := cps[current].frames;
      if next == ctrlCnt - 1 {
        divisor := divisor - 1;
      }
      DivisorBounds(cps, current);
      var delta := 1.0 / (divisor as real);
      var t := 0.0;
      var done := false;
      var p1, p2, m1, m2 := cps[current].vpt, cps[next].vpt, cps[current].dvpt, cps[next].dvpt;

      ghost var k := 0;
      ghost var count := cps[current].frames;
      ghost var before := vpoints;
      SegmentParamsClosedForm(cps, current);
      while !done
        invariant 0 <= k <= count
        invariant t == Param(k, divisor)
        invariant done <==> k == count
        invariant vpoints == before + SegmentSamples(cps, current)[..k]
        invariant pointCnt == |vpoints|
        decreases count - k
      {
        vpoints := vpoints + [HermitePoint(p1, p2, m1, m2, t)];
        pointCnt := pointCnt + 1;
        ParamStep(k, divisor);
        t := t + delta;
        k := k + 1;
        if next == ctrlCnt - 1 {
          done := t >= Tolerance + delta;
        } else {
          done := t >= Tolerance;
        }
        DoneExactly(divisor, next == ctrlCnt - 1, k);
      }
      assert SegmentSamples(cps, current)[..k] == SegmentSamples(cps, current);

      if next < ctrlCnt - 1 {
        current := current + 1;
        next := next + 1;
      } else {
        completed := true;
      }
    }
  }

  /** The frame switch for a list of points: the case at position j has
      frame index j. The indices start at 0, rise strictly and end at the last
      position, so every index 0..n-1 occurs exactly once, in output order. */
  function Cases(points: seq<Point>): (cs: seq<Frame>)
    ensures |cs| == |points|
    ensures forall j :: 0 <= j < |cs| ==> 0 <= cs[j].index < |cs| && cs[j].vec == points[j]
    ensures forall a, b :: 0 <= a < b < |cs| ==> cs[a].index < cs[b].index
    ensures |cs| > 0 ==> cs[0].index == 0 && cs[|cs| - 1].index == |cs| - 1
  {
    seq(|points|, j requires 0 <= j < |points| => Frame(j, points[j]))
  }

  /** The loop of `main` that hands each computed point with its frame index to
      the writer: the first `pointCnt` points, numbered from 0 in array order. */
  method WriteFrames(vpoints: seq<Point>, pointCnt: int) returns (cases: seq<Frame>)
    requires 0 <= pointCnt <= |vpoints|
    ensures |cases| == pointCnt
    ensures forall j :: 0 <= j < pointCnt ==> cases[j].index == j && cases[j].vec == vpoints[j]
  {
    cases := [];
    var i := 0;
    while i < pointCnt
      invariant 0 <= i <= pointCnt
      invariant |cases| == i
      invariant forall j :: 0 <= j < i ==> cases[j].index == j && cases[j].vec == vpoints[j]
    {
      cases := cases + [Frame(i, vpoints[i])];
      i := i + 1;
    }
  }

  /** The program end to end on valid input: the sampler's points become the
      frame switch, one case per point. */
  method HermiteFrames(cps: seq<CtrlRec>) returns (cases: seq<Frame>)
    requires Valid(cps)
    ensures forall j :: 0 <= j < |cases| ==> cases[j].index == j
    ensures cases == Cases(Samples(cps))
  {
    var vpoints, pointCnt := Hermite3D(cps);
    cases := WriteFrames(vpoints, pointCnt);
  }

  /** Frame index of a sample: frame FrameSum(cps, i) + k declares sample `k`
      of segment `i`, the Hermite point of records i and i+1 at t = k/d. */
  lemma FrameOfSample(cps: seq<CtrlRec>, i: int, k: int)
    requires Valid(cps) && 0 <= i < |cps| - 1 && 0 <= k < cps[i].frames
    ensures var f := FrameSum(cps, i) + k;
      && 0 <= f < |Cases(Samples(cps))|
      && Cases(Samples(cps))[f]
         == Frame(f, HermitePoint(cps[i].vpt, cps[i + 1].vpt, cps[i].dvpt, cps[i + 1].dvpt, Param(k, Divisor(cps, i))))
  {
    SampleAt(cps, i, k);
  }
}
