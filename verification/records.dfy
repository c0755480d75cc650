/**
 The two records the Hermite path sampler works on: a 3D point (used both for
 positions and for tangent vectors) and a control record (a keyframe).
 Coordinates are exact reals standing in for the program's doubles.
 */
module Records {

  /** A resultant or control 3D point (`EndPointRecTyp`); the default constructor gives the origin. */
  datatype Point = Point(x: real, y: real, z: real)

  const Origin: Point := Point(0.0, 0.0, 0.0)

  /** A control record (`CtrlRecTyp`): position `vpt`, tangent `dvpt`, and the
      number of frames of the segment that starts here. `frames` is a C `int`. */
  datatype CtrlRec = CtrlRec(vpt: Point, dvpt: Point, frames: int)
}
