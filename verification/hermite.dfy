/**
 The cubic Hermite blend of povherm's inner loop: the four basis weights
 C1..C4 of Foley and van Dam's parametric ("t") form, and the point they blend
 from two end positions and two end tangents.
 */
module Hermite {
  import opened Records

  /** Weight of the start position: 2t³ − 3t² + 1. */
  function C1(t: real): (c: real)
    ensures t == 0.0 ==> c == 1.0
    ensures t == 1.0 ==> c == 0.0
  {
    2.0 * (t * t * t) - 3.0 * (t * t) + 1.0
  }

  /** Weight of the end position: −2t³ + 3t². Together with C1 it sums to one
      for every t, so the blend is an affine combination of the two positions. */
  function C2(t: real): (c: real)
    ensures t == 0.0 ==> c == 0.0
    ensures t == 1.0 ==> c == 1.0
    ensures C1(t) + c == 1.0
  {
    -2.0 * (t * t * t) + 3.0 * (t * t)
  }

  /** Weight of the start tangent: t³ − 2t² + t. */
  function C3(t: real): (c: real)
    ensures t == 0.0 ==> c == 0.0
    ensures t == 1.0 ==> c == 0.0
  {
    (t * t * t) - 2.0 * (t * t) + t
  }

  /** Weight of the end tangent: t³ − t². */
  function C4(t: real): (c: real)
    ensures t == 0.0 ==> c == 0.0
    ensures t == 1.0 ==> c == 0.0
  {
    (t * t * t) - (t * t)
  }

  /** One coordinate of the blend: start position `a`, end position `b`, start
      tangent `ta` and end tangent `tb`, weighted by c1..c4. */
  function Blend(a: real, b: real, ta: real, tb: real, c1: real, c2: real, c3: real, c4: real): real
  {
    a * c1 + b * c2 + ta * c3 + tb * c4
  }

  /** The Hermite curve through `p1` (t = 0) and `p2` (t = 1) with end tangents
      `m1` and `m2`, evaluated at `t`: the weights are computed once and every
      axis is blended with them. It starts at `p1`, ends at `p2`, and a segment
      whose two positions agree and whose tangents vanish is constant. */
  function HermitePoint(p1: Point, p2: Point, m1: Point, m2: Point, t: real): (r: Point)
    ensures t == 0.0 ==> r == p1
    ensures t == 1.0 ==> r == p2
    ensures p1 == p2 && m1 == Origin && m2 == Origin ==> r == p1
  {
    var c1, c2, c3, c4 := C1(t), C2(t), C3(t), C4(t);
    assert p1.x * c1 + p1.x * c2 == p1.x * (c1 + c2);
    assert p1.y * c1 + p1.y * c2 == p1.y * (c1 + c2);
    assert p1.z * c1 + p1.z * c2 == p1.z * (c1 + c2);
    Point(Blend(p1.x, p2.x, m1.x, m2.x, c1, c2, c3, c4),
          Blend(p1.y, p2.y, m1.y, m2.y, c1, c2, c3, c4),
          Blend(p1.z, p2.z, m1.z, m2.z, c1, c2, c3, c4))
  }

  /** Componentwise sum of two points. */
  function Add(a: Point, b: Point): Point
  {
    Point(a.x + b.x, a.y + b.y, a.z + b.z)
  }

  /** A point scaled by a real factor. */
  function Scale(s: real, a: Point): Point
  {
    Point(s * a.x, s * a.y, s * a.z)
  }

  /** The value at parameter `t` on the straight line from `a` (t = 0) to `b` (t = 1). */
  function Mix(a: real, b: real, t: real): real
  {
    a + t * (b - a)
  }

  /** One coordinate of the cubic Bézier curve with control values b0..b3, by
      de Casteljau's construction (three rounds of straight-line interpolation). */
  function BezierCoord(b0: real, b1: real, b2: real, b3: real, t: real): real
  {
    var q0, q1, q2 := Mix(b0, b1, t), Mix(b1, b2, t), Mix(b2, b3, t);
    Mix(Mix(q0, q1, t), Mix(q1, q2, t), t)
  }

  /** The cubic Bézier curve with control points b0..b3, every axis by de Casteljau's construction. */
  function Bezier(b0: Point, b1: Point, b2: Point, b3: Point, t: real): Point
  {
    Point(BezierCoord(b0.x, b1.x, b2.x, b3.x, t),
          BezierCoord(b0.y, b1.y, b2.y, b3.y, t),
          BezierCoord(b0.z, b1.z, b2.z, b3.z, t))
  }

  /** A cubic in the Bernstein basis with coefficients b0..b3. */
  function Bernstein(b0: real, b1: real, b2: real, b3: real, t: real): (r: real)
  {
    var s := 1.0 - t;
    s * s * s * b0 + 3.0 * t * s * s * b1 + 3.0 * t * t * s * b2 + t * t * t * b3
  }

  /** De Casteljau's construction computes the Bernstein form. */
  lemma BezierCoordIsBernstein(b0: real, b1: real, b2: real, b3: real, t: real)
    ensures BezierCoord(b0, b1, b2, b3, t) == Bernstein(b0, b1, b2, b3, t)
  {
  }

  /** The Hermite weights, rewritten in the Bernstein basis. */
  lemma BlendIsBernstein(a: real, b: real, ta: real, tb: real, t: real)
    ensures Blend(a, b, ta, tb, C1(t), C2(t), C3(t), C4(t)) == Bernstein(a, a + ta / 3.0, b - tb / 3.0, b, t)
  {
  }

  /** One coordinate of the Hermite blend is the Bézier coordinate whose inner
      control values are the end values moved by a third of their tangents. */
  lemma BlendIsBezierCoord(a: real, b: real, ta: real, tb: real, t: real)
    ensures Blend(a, b, ta, tb, C1(t), C2(t), C3(t), C4(t)) == BezierCoord(a, a + ta / 3.0, b - tb / 3.0, b, t)
  {
    BlendIsBernstein(a, b, ta, tb, t);
    BezierCoordIsBernstein(a, a + ta / 3.0, b - tb / 3.0, b, t);
  }

  /** The Hermite segment is the cubic Bézier curve with control points
      p1, p1 + m1/3, p2 − m2/3, p2: the standard conversion between the two
      forms, and an independent definition of the curve the sampler walks. */
  lemma HermiteIsBezier(p1: Point, p2: Point, m1: Point, m2: Point, t: real)
    ensures HermitePoint(p1, p2, m1, m2, t)
         == Bezier(p1, Add(p1, Scale(1.0 / 3.0, m1)), Add(p2, Scale(-1.0 / 3.0, m2)), p2, t)
  {
    BlendIsBezierCoord(p1.x, p2.x, m1.x, m2.x, t);
    BlendIsBezierCoord(p1.y, p2.y, m1.y, m2.y, t);
    BlendIsBezierCoord(p1.z, p2.z, m1.z, m2.z, t);
  }
}
