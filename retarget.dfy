/** `convert_parsed_to_robot_hand_RH56F1` of XRHandReceiver.py: the six
    joint angles of the Inspire RH56F1 hand (thumb base, thumb bend, and
    the bend of the index, middle, ring and little fingers) taken from six
    tracked joints, wrapped, clamped and normalised. Angles are in degrees
    over exact reals; the source works in radians, which only scales every
    constant by pi / 180. */
module Retarget {
  import opened Wire
  import opened PosePacket
  import opened XRHandReceiver

  // ---------------------------------------------------------------------------
  // Wrapping and clamping

  /** `wrapTo2Pi`: Python's float `%` takes the sign of the divisor, so the
      result lies in [0, 360) and differs from `a` by whole turns. */
  function Wrap360(a: real): (r: real)
    ensures 0.0 <= r < 360.0
    ensures 0.0 <= a < 360.0 ==> r == a
    ensures -360.0 <= a < 0.0 ==> r == a + 360.0
  {
    a - 360.0 * ((a / 360.0).Floor as real)
  }

  /** Whole turns do not change the wrapped angle. */
  lemma WrapPeriodic(a: real, k: int)
    ensures Wrap360(a + 360.0 * (k as real)) == Wrap360(a)
  {
    var b := a + 360.0 * (k as real);
    assert (b / 360.0).Floor == (a / 360.0).Floor + k by {
      assert b / 360.0 == a / 360.0 + k as real;
    }
  }

  /** `custom0_clamp_angle`: into [-10, 60]. */
  function Clamp0(a: real): (r: real)
    ensures -10.0 <= r <= 60.0
    ensures -10.0 <= a <= 60.0 ==> r == a
    ensures a > 60.0 ==> r == 60.0
    ensures a < -10.0 ==> r == -10.0
  {
    if a < -10.0 then -10.0 else if a > 60.0 then 60.0 else a
  }

  /** `custom1_clamp_angle`: above 270 counts as a small negative angle and
      goes to 0; otherwise into [0, 50]. */
  function Clamp1(a: real): (r: real)
    ensures 0.0 <= r <= 50.0
    ensures 0.0 <= a <= 50.0 ==> r == a
    ensures a > 270.0 || a < 0.0 ==> r == 0.0
    ensures 50.0 < a <= 270.0 ==> r == 50.0
  {
    var b := if a > 270.0 then 0.0 else a;
    if b < 0.0 then 0.0 else if b > 50.0 then 50.0 else b
  }

  /** `custom2_clamp_angle`: above 270 counts as a small negative angle and
      goes to 0; otherwise into [0, 180]. */
  function Clamp2(a: real): (r: real)
    ensures 0.0 <= r <= 180.0
    ensures 0.0 <= a <= 180.0 ==> r == a
    ensures a > 270.0 || a < 0.0 ==> r == 0.0
    ensures 180.0 < a <= 270.0 ==> r == 180.0
  {
    if a > 270.0 then 0.0 else if a < 0.0 then 0.0 else if a > 180.0 then 180.0 else a
  }

  /** Clamping twice is clamping once. */
  lemma ClampsIdempotent(a: real)
    ensures Clamp0(Clamp0(a)) == Clamp0(a)
    ensures Clamp1(Clamp1(a)) == Clamp1(a)
    ensures Clamp2(Clamp2(a)) == Clamp2(a)
  {
  }

  // ---------------------------------------------------------------------------
  // The joint angles

  /** The arctangents the conversion measures, in degrees in (-180, 180]:
      the thumb-base angle from Thumb1's position (`atan2(z, y)`), the thumb
      bend from the x axis of Thumb3 in Thumb1's frame, and each finger's
      bend from the x axis of its fourth joint (`atan2(n_z, n_x)`). */
  datatype RawAngles = RawAngles(thumbPos: real, thumbBend: real,
                                 index: real, middle: real, ring: real, little: real)

  /** The thumb-base angle: the left hand turns by 180 degrees, the right
      hand negates; both are wrapped and then clamped. */
  function ThumbBase(isLeft: bool, x: real): (r: real)
    ensures 0.0 <= r <= 60.0
  {
    Clamp0(if isLeft then Wrap360(x - 180.0) else Wrap360(-x))
  }

  /** A finger's bend: negated, wrapped and clamped. */
  function FingerBend(y: real): (r: real)
    ensures 0.0 <= r <= 180.0
  {
    Clamp2(Wrap360(-y))
  }

  /** `finger_angle_vec`. */
  function JointAngles(isLeft: bool, raw: RawAngles): (v: seq<real>)
    ensures |v| == 6
    ensures 0.0 <= v[0] <= 60.0 && 0.0 <= v[1] <= 50.0
    ensures forall i :: 2 <= i < 6 ==> 0.0 <= v[i] <= 180.0
  {
    [ThumbBase(isLeft, raw.thumbPos), Clamp1(-raw.thumbBend),
     FingerBend(raw.index), FingerBend(raw.middle), FingerBend(raw.ring), FingerBend(raw.little)]
  }

  /** The wrap runs before the clamp, so the thumb-base angle is never
      negative and the -10 degree floor never applies: a thumb between 0
      and -60 degrees passes through, and one just past 0 the other way
      saturates at 60 degrees. */
  lemma ThumbBaseBands(isLeft: bool, x: real)
    ensures isLeft && 180.0 <= x <= 240.0 ==> ThumbBase(isLeft, x) == x - 180.0
    ensures isLeft && 0.0 <= x < 180.0 ==> ThumbBase(isLeft, x) == 60.0
    ensures !isLeft && -60.0 <= x <= 0.0 ==> ThumbBase(isLeft, x) == -x
    ensures !isLeft && 0.0 < x <= 300.0 ==> ThumbBase(isLeft, x) == 60.0
  {
  }

  /** Over the arctangent's range a finger's bend is `-y` for `y` in
      [-180, 0], 0 for `y` in (0, 90) and 180 for `y` in [90, 180]. */
  lemma FingerBendBands(y: real)
    requires -180.0 < y <= 180.0
    ensures y <= 0.0 ==> FingerBend(y) == -y
    ensures 0.0 < y < 90.0 ==> FingerBend(y) == 0.0
    ensures 90.0 <= y ==> FingerBend(y) == 180.0
  {
  }

  /** The thumb bend is not wrapped: `-y` for `y` in [-50, 0], 0 for a
      positive `y`, 50 below -50. */
  lemma ThumbBendBands(y: real)
    requires -180.0 < y <= 180.0
    ensures -50.0 <= y <= 0.0 ==> Clamp1(-y) == -y
    ensures 0.0 < y ==> Clamp1(-y) == 0.0
    ensures y < -50.0 ==> Clamp1(-y) == 50.0
  {
  }

  /** The divisors of `norm_finger_angle_vec`. */
  const Scale: seq<real> := [70.0, 50.0, 180.0, 180.0, 180.0, 180.0]

  function Normalise(v: seq<real>): (n: seq<real>)
    requires |v| == 6
    ensures |n| == 6
    ensures forall i :: 0 <= i < 6 ==> n[i] * Scale[i] == v[i]
  {
    seq(6, i requires 0 <= i < 6 => v[i] / Scale[i])
  }

  /** The normalised vector lies in [0, 1]; the thumb base never reaches 1,
      its clamp stopping at 60 of the 70 degrees it is divided by. */
  lemma NormalisedBounds(isLeft: bool, raw: RawAngles)
    ensures var n := Normalise(JointAngles(isLeft, raw));
      && 0.0 <= n[0] <= 6.0 / 7.0
      && forall i :: 1 <= i < 6 ==> 0.0 <= n[i] <= 1.0
  {
    var v := JointAngles(isLeft, raw);
    var n := Normalise(v);
    assert n[0] * 70.0 == v[0];
    forall i | 1 <= i < 6 ensures 0.0 <= n[i] <= 1.0 {
      assert n[i] * Scale[i] == v[i];
      assert v[i] <= Scale[i];
    }
  }

  // ---------------------------------------------------------------------------
  // Joint selection and the whole conversion

  /** `Thumb1_idx = 1`, `Thumb3_idx = 3` and index 4 of each finger. */
  const Selection: seq<(string, int)> :=
    [("thumb", 1), ("thumb", 3), ("index", 4), ("middle", 4), ("ring", 4), ("little", 4)]

  function Lookups(p: Pose, handType: string): (ls: seq<Lookup>)
    ensures |ls| == 6
  {
    seq(6, i requires 0 <= i < 6 => FingerLookup(p, handType, Selection[i].0, Selection[i].1))
  }

  /** For a left or right hand the six lookups find joints 3, 5, 10, 15, 20
      and 25, each within its hand's 182 words; for anything else all six
      find nothing. */
  lemma SelectedJoints(p: Pose, handType: string)
    ensures handType == "left" || handType == "right" ==>
      forall i :: 0 <= i < 6 ==>
        Lookups(p, handType)[i].Joint? && Lookups(p, handType)[i].joint == [3, 5, 10, 15, 20, 25][i]
    ensures !(handType == "left" || handType == "right") ==>
      forall i :: 0 <= i < 6 ==> Lookups(p, handType)[i].NoJoint?
  {
    var ls := Lookups(p, handType);
    if handType == "left" || handType == "right" {
      forall i | 0 <= i < 6
        ensures ls[i].Joint? && ls[i].joint == [3, 5, 10, 15, 20, 25][i]
      {
        assert Selection[i].0 in BoneIndexs;
      }
    }
  }

  /** What `convert_unity_pose_to_robot` accepts: a 3-word position and a
      4-word quaternion that is not all zeros (`Rotation.from_quat` raises on
      a zero norm or a wrong shape). */
  predicate Convertible(l: Lookup) {
    && l.Joint? && |l.position| == 3 && |l.rotation| == 4
    && !(IsZeroWord(l.rotation[0]) && IsZeroWord(l.rotation[1])
         && IsZeroWord(l.rotation[2]) && IsZeroWord(l.rotation[3]))
  }

  datatype Conversion = Raises | Converted(angles: seq<real>, normalised: seq<real>)

  /** `convert_parsed_to_robot_hand_RH56F1(parsed, hand_type)`. The geometry
      from the six joints to the six arctangents (quaternion to matrix, a
      4x4 inverse, `arctan2`) is the parameter `measure`. A hand type other
      than "left" and "right" makes the lookup return None, on which the
      matrix inverse raises. */
  function Convert(p: Pose, handType: string, measure: seq<Lookup> -> RawAngles): (c: Conversion)
    ensures c.Raises? <==>
      !(handType == "left" || handType == "right") || exists i :: 0 <= i < 6 && !Convertible(Lookups(p, handType)[i])
    ensures c.Converted? ==>
      && c.angles == JointAngles(handType == "left", measure(Lookups(p, handType)))
      && |c.normalised| == 6
      && forall i :: 0 <= i < 6 ==> c.normalised[i] * Scale[i] == c.angles[i]
  {
    if !(handType == "left" || handType == "right") then Raises
    else
      var ls := Lookups(p, handType);
      if exists i :: 0 <= i < 6 && !Convertible(ls[i]) then Raises
      else
        var v := JointAngles(handType == "left", measure(ls));
        Converted(v, Normalise(v))
  }

  /** On a packet of the headset's sizes a left or right conversion raises
      exactly when one of the six joints has an all-zero quaternion, as an
      untracked hand does. */
  lemma ConvertRaisesOnZeroQuaternion(p: Pose, handType: string, measure: seq<Lookup> -> RawAngles)
    requires WellSized(p) && (handType == "left" || handType == "right")
    ensures Convert(p, handType, measure).Raises? <==>
      exists i :: 0 <= i < 6 &&
        var q := Lookups(p, handType)[i].rotation;
        IsZeroWord(q[0]) && IsZeroWord(q[1]) && IsZeroWord(q[2]) && IsZeroWord(q[3])
  {
    SelectedJoints(p, handType);
    var ls := Lookups(p, handType);
    forall i | 0 <= i < 6 ensures |ls[i].position| == 3 && |ls[i].rotation| == 4 {
      assert ls[i].Joint?;
    }
  }
}
