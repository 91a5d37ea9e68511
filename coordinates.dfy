/** The change of frame from Unity's left-handed axes (x right, y up,
    z forward) to the robot's (x forward, y left, z up): the matrix `RM_U2R`
    of XRHandReceiver.py and hand_tracking_udp_receiver.py, applied to
    positions as `RM @ p` and to rotation matrices as `RM @ R @ RM.T`.
    Vectors and matrices are over exact reals. */
module Coordinates {

  datatype V3 = V3(x: real, y: real, z: real)

  /** A 3x3 matrix by rows. */
  datatype M3 = M3(r0: V3, r1: V3, r2: V3)

  function Dot(a: V3, b: V3): real {
    a.x * b.x + a.y * b.y + a.z * b.z
  }

  function Transpose(m: M3): M3 {
    M3(V3(m.r0.x, m.r1.x, m.r2.x), V3(m.r0.y, m.r1.y, m.r2.y), V3(m.r0.z, m.r1.z, m.r2.z))
  }

  /** `m @ v`. */
  function Apply(m: M3, v: V3): V3 {
    V3(Dot(m.r0, v), Dot(m.r1, v), Dot(m.r2, v))
  }

  /** `a @ b`. */
  function Mul(a: M3, b: M3): M3 {
    var t := Transpose(b);
    M3(Apply(t, a.r0), Apply(t, a.r1), Apply(t, a.r2))
  }

  const Identity: M3 := M3(V3(1.0, 0.0, 0.0), V3(0.0, 1.0, 0.0), V3(0.0, 0.0, 1.0))

  /** A rotation matrix in the sense the conversion needs: `m @ m.T == I`. */
  predicate Orthogonal(m: M3) {
    Mul(m, Transpose(m)) == Identity
  }

  /** `RM_U2R`: robot x is Unity z, robot y is Unity -x, robot z is Unity y. */
  const RM_U2R: M3 := M3(V3(0.0, 0.0, 1.0), V3(-1.0, 0.0, 0.0), V3(0.0, 1.0, 0.0))

  /** The number of non-zero entries of a row. */
  function NonZeros(v: V3): nat {
    (if v.x != 0.0 then 1 else 0) + (if v.y != 0.0 then 1 else 0) + (if v.z != 0.0 then 1 else 0)
  }

  /** A row of -1, 0 and 1 with exactly one non-zero entry. */
  predicate SignedUnitRow(v: V3) {
    && (v.x == 0.0 || v.x == 1.0 || v.x == -1.0)
    && (v.y == 0.0 || v.y == 1.0 || v.y == -1.0)
    && (v.z == 0.0 || v.z == 1.0 || v.z == -1.0)
    && NonZeros(v) == 1
  }

  /** A signed permutation matrix: every row and every column is a signed
      unit row. */
  predicate SignedPermutation(m: M3) {
    var t := Transpose(m);
    && SignedUnitRow(m.r0) && SignedUnitRow(m.r1) && SignedUnitRow(m.r2)
    && SignedUnitRow(t.r0) && SignedUnitRow(t.r1) && SignedUnitRow(t.r2)
  }

  /** `RM_U2R` is a signed permutation and a rotation: its transpose undoes
      it on both sides. */
  lemma FrameChangeIsRotation()
    ensures SignedPermutation(RM_U2R)
    ensures Orthogonal(RM_U2R)
    ensures Mul(Transpose(RM_U2R), RM_U2R) == Identity
  {
  }

  function Neg(v: V3): V3 {
    V3(-v.x, -v.y, -v.z)
  }

  /** `pos_robot = RM_U2R @ position`: robot (x, y, z) is Unity (z, -x, y),
      and `RM_U2R.T` converts back. */
  function PositionToRobot(p: V3): (r: V3)
    ensures r == V3(p.z, -p.x, p.y)
    ensures Apply(Transpose(RM_U2R), r) == p
  {
    Apply(RM_U2R, p)
  }

  /** `rot_robot = RM_U2R @ R @ RM_U2R.T`: the rows of the robot matrix are
      Unity rows 2, 0 and 1, each converted like a position, the middle one
      negated. */
  function RotationToRobot(m: M3): (r: M3)
    ensures r == M3(PositionToRobot(m.r2), Neg(PositionToRobot(m.r0)), PositionToRobot(m.r1))
  {
    Mul(Mul(RM_U2R, m), Transpose(RM_U2R))
  }

  /** Converting a position leaves dot products alone. */
  lemma DotToRobot(u: V3, v: V3)
    ensures Dot(PositionToRobot(u), PositionToRobot(v)) == Dot(u, v)
    ensures Dot(Neg(u), v) == -Dot(u, v)
  {
  }

  /** A point rotated in Unity's frame converts to the converted point
      rotated by the converted matrix. */
  lemma ApplyToRobot(m: M3, v: V3)
    ensures PositionToRobot(Apply(m, v)) == Apply(RotationToRobot(m), PositionToRobot(v))
    ensures Neg(PositionToRobot(Apply(m, v))) == Apply(RotationToRobot(m), Neg(PositionToRobot(v)))
  {
    DotToRobot(m.r2, v);
    DotToRobot(m.r0, v);
    DotToRobot(m.r1, v);
  }

  /** The rotation conversion commutes with transposition, respects
      composition and keeps the identity. */
  lemma RotationToRobotHomomorphism(a: M3, b: M3)
    ensures RotationToRobot(Transpose(a)) == Transpose(RotationToRobot(a))
    ensures RotationToRobot(Mul(a, b)) == Mul(RotationToRobot(a), RotationToRobot(b))
    ensures RotationToRobot(Identity) == Identity
  {
    var t := Transpose(b);
    assert Transpose(RotationToRobot(b)) == RotationToRobot(t);
    ApplyToRobot(t, a.r2);
    ApplyToRobot(t, a.r0);
    ApplyToRobot(t, a.r1);
  }

  /** Hence the conversion maps rotations to rotations. */
  lemma RotationToRobotOrthogonal(m: M3)
    requires Orthogonal(m)
    ensures Orthogonal(RotationToRobot(m))
  {
    RotationToRobotHomomorphism(m, Transpose(m));
  }

  /** The conversion is invertible: `RM.T @ r @ RM` gives the Unity matrix back. */
  lemma RotationToRobotInverse(m: M3)
    ensures Mul(Mul(Transpose(RM_U2R), RotationToRobot(m)), RM_U2R) == m
  {
  }
}
