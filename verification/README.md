# POVHerm Hermite path sampler in Dafny

POVHerm turns a list of keyframe control records (a position, a tangent
vector and a frame count each) into a dense list of 3D points on a piecewise
cubic Hermite curve, and writes them out as a POV-Ray `#switch` on
`HERMITE_FRAME`, one `#case` per frame. This project models the sampler
`Hermite3D` with its two records, and the loop of `main` that numbers the
computed points as frames.

The model, file by file:

- `records.dfy` (module `Records`): `Point` is `EndPointRecTyp`, `CtrlRec` is
  `CtrlRecTyp`. Coordinates are exact `real`s in place of `double`.
- `hermite.dfy` (module `Hermite`): the basis weights C1..C4 (2t³−3t²+1,
  −2t³+3t², t³−2t²+t, t³−t²) and `HermitePoint`, which blends two positions
  and two tangents with them on every axis. As an independent definition of
  the same curve, `HermiteIsBezier` proves it equal to the cubic Bézier curve
  with control points p1, p1 + m1/3, p2 − m2/3, p2, built by de Casteljau's
  construction.
- `sampler.dfy` (module `Sampler`): the sampler as pure functions.
  `LoopParams` follows the inner loop's own termination test
  (`t >= 0.999999` on interior segments, `t >= 0.999999 + Delta` on the final
  one). `Samples` concatenates every segment's points. Lemmas give the exact
  sample counts, the parameter values, the place of each segment in the
  output, the curve's end points, the constant-segment case and the
  irrelevance of the last record's frame count.
- `povherm.dfy` (module `Povherm`): `Hermite3D` mirrors the two nested
  `while` loops (accumulating `t += Delta` and counting `PointCnt`) and is
  proved to produce exactly `Samples`. `WriteFrames` mirrors the loop in
  `main` that gives point i the frame index i.

With exact reals, t after k steps of 1/d is exactly k/d. The termination test
then stops an interior segment after exactly d samples (t = 0 .. (d−1)/d) and
the final segment after exactly d + 1 (t = 0 .. 1) whenever 1 ≤ d < 10^6. The
capacity of 1000 points keeps every divisor far below that bound.

The sampler checks none of its preconditions; the model states them as
`requires` (`Sampler.WellFormed`, `Sampler.Valid`):

- at least two control records;
- a frame count of at least 1 on every record that starts an interior
  segment;
- a frame count of at least 2 on the record that starts the final segment,
  whose divisor is one less;
- at most `MaxPoints` = 1000 points in total, because the store into the
  point array has no bounds check.

The code does not report a zero or negative divisor; the model requires a
positive one. Two records whose first has frame count 5 give 5 samples:
the divisor is 4 and the samples lie at t = 0, 1/4, 2/4, 3/4 and 1
(`Sampler.FinalSegmentParams`).

## Model

| member | source | states |
|---|---|---|
| Hermite.C1 | povherm.cpp:231 | the start-position weight is 1 at t = 0 and 0 at t = 1 |
| Hermite.C2 | povherm.cpp:232 | the end-position weight is 0 at t = 0 and 1 at t = 1, and C1(t) + C2(t) = 1 for every t (partition of unity) |
| Hermite.C3 | povherm.cpp:233 | the start-tangent weight vanishes at both ends |
| Hermite.C4 | povherm.cpp:234 | the end-tangent weight vanishes at both ends |
| Hermite.HermitePoint | povherm.cpp:228-249 | the blended point is the start position at t = 0 and the end position at t = 1; with equal positions and zero tangents it is that position for every t |
| Hermite.HermiteIsBezier | povherm.cpp:150 | the Hermite blend equals the cubic Bézier curve with control points p1, p1 + m1/3, p2 − m2/3, p2 (de Casteljau), for every t |
| Sampler.LoopParams | povherm.cpp:184-264 | the inner loop emits at least one parameter value per segment, and the first one is t = 0 at k = 0 |
| Sampler.NotDoneBound | povherm.cpp:259-264 | for every positive divisor d, the loop goes on only while the next step index is at most d (below d on an interior segment), so the inner loop always ends |
| Sampler.DoneExactly | povherm.cpp:261-264 | for 1 ≤ d < 10^6, the tolerance test after k steps holds exactly when k ≥ d (interior) or k ≥ d + 1 (final) |
| Sampler.LoopParamsClosedForm | povherm.cpp:182-264 | for 1 ≤ d < 10^6, the loop visits exactly t = j/d for j = k up to d − 1 (interior) or d (final) |
| Sampler.DivisorBounds | povherm.cpp:178-180 | on valid input every divisor lies between 1 and the capacity of 1000 |
| Sampler.SegmentParamsClosedForm | povherm.cpp:178-264 | segment i visits t = k/d for k below its start record's frame count |
| Sampler.InteriorSegmentParams | povherm.cpp:263-264 | an interior segment with divisor d emits exactly d samples at t = k/d, all in [0, 1), so it never emits t = 1 |
| Sampler.FinalSegmentParams | povherm.cpp:179-180 | the final segment has divisor frames − 1 = d and emits exactly d + 1 samples at t = k/d in [0, 1], the last at t = 1 |
| Sampler.SegmentSamplesLength | povherm.cpp:257 | every segment emits as many points as its start record's frame count |
| Sampler.SamplesUpToLength | povherm.cpp:257 | after n segments the point counter equals the sum of the first n frame counts |
| Sampler.SamplesLength | povherm.cpp:161-264 | the total point count is the sum of the frame counts of all records but the last, and it fits the 1000-point array |
| Sampler.SamplesUpToPrefix | povherm.cpp:257-274 | later segments only append: the output of the first n segments is a prefix of the output of the first m ≥ n |
| Sampler.SegmentBlock | povherm.cpp:268-274 | segment i's points are exactly the nonempty output block between the frame sums before and through record i, so segments come once each and in order |
| Sampler.SampleAt | povherm.cpp:188-257 | output point FrameSum(i) + k is the Hermite blend of records i and i+1 (positions and tangents) at t = k/d |
| Sampler.SegmentStartsAtControlPoint | povherm.cpp:184-249 | the first point of every segment is its start record's position |
| Sampler.CurveEndpoints | povherm.cpp:261-262 | the output starts at the first record's position and its last point is the last record's position |
| Sampler.ConstantSegment | povherm.cpp:231-249 | a segment with equal end positions and zero tangents emits only that position |
| Sampler.LastFramesUnused | povherm.cpp:178 | changing the last record's frame count keeps the input well-formed, keeps valid input valid, and leaves the output unchanged |
| Sampler.SamplesUpToAgree | povherm.cpp:268-274 | inputs that differ only in the last record's frame count have the same frame sums and produce the same output for every prefix of segments |
| Sampler.TwoRecordScenario | povherm.cpp:146-276 | records (0,0,0)/(1,0,0)/4 and (5,0,0)/(0,0,0)/4 give one final segment with divisor 3 and four points at t = 0, 1/3, 2/3, 1: (0,0,0), (13/9,0,0), (34/9,0,0), (5,0,0) |
| Povherm.Hermite3D | povherm.cpp:146-276 | the nested loops with `t += Delta` and the tolerance test produce exactly `Samples`, and `PointCnt` counts the points stored (their total is given by `Sampler.SamplesLength`) |
| Povherm.Cases | povherm.cpp:334-335 | the frame switch has one case per point; its indices start at 0, rise strictly and end at n − 1, so each index 0..n−1 occurs once, in output order, with that point's vector |
| Povherm.WriteFrames | povherm.cpp:334-335 | the loop in `main` pairs the first `PointCnt` points with frame indices 0..PointCnt−1 in array order |
| Povherm.HermiteFrames | povherm.cpp:330-335 | sampling and then numbering valid input yields the frame switch of `Samples`, case j carrying frame index j |
| Povherm.FrameOfSample | povherm.cpp:334-335 | frame FrameSum(i) + k declares sample k of segment i, the Hermite blend of records i and i+1 at t = k/d |

## Left out

- `Read_Input` (povherm.cpp:96-111): reading records with `fscanf_s` until
  end of file is I/O; the model takes the records as a given sequence. Its
  store into the 100-entry `CPoints` array (`MaxCtrl`) has no bounds check
  either; that limit belongs to the reader and is not modelled.
- `Start_Output`, `Write_Output` and `End_Output` (povherm.cpp:114-143): text
  formatting of the switch block. The model stops at the (frame index, vector)
  pairs that `Write_Output` prints. The header echo prints the tangent's x
  component three times (povherm.cpp:123); this only affects the comment text.
- Argument handling, prompts, `fopen`, `perror` and `exit` in `main`
  (povherm.cpp:282-328): command-line and file I/O.
- The `#ifdef DEBUG` blocks: diagnostic output only.
- `FirstTime` (povherm.cpp:216-217) is read only in the test that clears it
  and never affects the output; `Look_Ats` (povherm.cpp:92) is never used.
- IEEE-754 rounding: the model computes exactly, so the repeated
  `t += Delta` never drifts. A divisor of 0 (infinite `Delta`) or below
  (negative `Delta`, where the inner loop never ends) is excluded by the
  preconditions rather than modelled. Under IEEE arithmetic a zero divisor
  is defined behaviour: `Delta` is +inf, the test at povherm.cpp:262/264 holds
  after the first step, and the segment emits one point at t = 0; with a
  final frame count of 1 the curve therefore ends at the position of the
  second-to-last record instead of the last. The precondition is a choice
  made on top of that behaviour.
- Inputs of fewer than two records: the code then blends with array entries
  no record was stored in. The model requires at least two.
- Determinism of the sampler needs no lemma: `Samples` is a function of its
  input.
- Sampler.SampleAt: states each output point as `Hermite.HermitePoint` of the
  two records at t = k/d rather than writing out the three per-axis
  polynomials; the per-axis blend with C1..C4 is the body of `HermitePoint`.
