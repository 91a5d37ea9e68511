/** The pose viewer of hand_tracking_udp_receiver.py: the latest-packet slot
    its receive loop fills, the packet check and split in `update()`, the
    joint walk of `update_hand` and the `bone_connection` table it draws.
    The drawing itself is not modelled. */
module ViewerReceiver {
  import opened Wire
  import opened PosePacket
  import XRHandReceiver
  import Deque

  /** `BYTES_TOTAL`. */
  const BytesTotal: nat := 1500

  /** The test in `update()` a packet must pass to be drawn. */
  predicate Accepts(data: bytes) {
    |data| == BytesTotal && PySlice(data, 0, 4) == HND0 && PySlice(data, -4, |data|) == HND1
  }

  /** The split in `update()`: `ts = data[4:12]`, `arr = data[12:-4]` as
      float words, then `arr[:182]`, `arr[182:-7]` and `arr[-7:]`. An accepted
      packet always splits into words [0, 182), [182, 364) and [364, 371). */
  function Split(data: bytes): (r: Option<Pose>)
    ensures r.Some? <==> Accepts(data)
    ensures r.Some? ==>
      var arr := ToWords(data[12..1496]);
      && |arr| == 371 && WellSized(r.value) && r.value.timestamp == data[4..12]
      && r.value.left == arr[..182] && r.value.right == arr[182..364] && r.value.head == arr[364..]
  {
    if !Accepts(data) then None
    else
      var arr := ToWords(PySlice(data, 12, -4));
      Some(Pose(PySlice(data, 4, 12), PySlice(arr, 0, 182), PySlice(arr, 182, -7), PySlice(arr, -7, |arr|)))
  }

  /** The viewer and `XRHandReceiver` with `buffer_size=1500` accept the
      same packets and split them the same way. */
  lemma SplitAgreesWithReceiver(data: bytes)
    ensures Split(data).None? <==> XRHandReceiver.Parse(Some(data), 1500).Rejected?
    ensures Split(data).Some? ==> XRHandReceiver.Parse(Some(data), 1500) == XRHandReceiver.Parsed(Split(data).value)
  {
    if Split(data).Some? {
      XRHandReceiver.ParseAccepted(data);
      var p := XRHandReceiver.Parse(Some(data), 1500).pose;
      var arr := ToWords(data[12..1496]);
      assert PySlice(data, 12, -4) == data[12..1496];
      assert p.left == arr[..182] && p.right == arr[182..364] && p.head == arr[364..];
    }
  }

  /** A packet the viewer draws is exactly the encoding of what it drew. */
  lemma SplitEncode(data: bytes)
    requires Split(data).Some?
    ensures Encode(Split(data).value) == data
  {
    SplitAgreesWithReceiver(data);
    XRHandReceiver.ParseAccepted(data);
  }

  /** Four words that are all zeros of either sign: `Rotation.from_quat`
      finds a zero norm and raises `ValueError`. */
  predicate IsZeroQuat(q: seq<F32>) {
    |q| == 4 && IsZeroWord(q[0]) && IsZeroWord(q[1]) && IsZeroWord(q[2]) && IsZeroWord(q[3])
  }

  /** `update_hand` converts the wrist quaternion (words [3, 7)) and then,
      in its walk, the quaternion of each joint 1..25; none may be zero. */
  predicate HandDrawable(raw: seq<F32>) {
    forall j :: 0 <= j < Joints ==> !IsZeroQuat(JointWordsAt(raw, j).1)
  }

  /** What one call of `update()` does. */
  datatype Frame =
    | Idle                    // the slot was empty
    | Skipped                 // the packet failed the length or magic test
    | Drawn(pose: Pose)       // both hands and the head were redrawn
    | Raised(completed: nat)  // `from_quat` raised after `completed` of the three updates

  /** `update_hand(left)`, `update_hand(right)`, then `update_head(head)`:
      the first zero quaternion raises out of `update()`, after the updates
      before it have drawn. */
  function Draw(p: Pose): (f: Frame)
    ensures f.Drawn? <==> HandDrawable(p.left) && HandDrawable(p.right) && !IsZeroQuat(JointWordsAt(p.head, 0).1)
    ensures f.Drawn? ==> f.pose == p
    ensures f.Raised? ==> f.completed < 3 && (f.completed > 0 ==> HandDrawable(p.left))
    ensures f.Raised? || f.Drawn?
  {
    if !HandDrawable(p.left) then Raised(0)
    else if !HandDrawable(p.right) then Raised(1)
    else if IsZeroQuat(JointWordsAt(p.head, 0).1) then Raised(2)
    else Drawn(p)
  }

  /** The global `packet_queue = deque(maxlen=1)`. */
  class Viewer {
    var packetQueue: seq<bytes>

    ghost predicate Valid()
      reads this
    {
      |packetQueue| <= 1
    }

    constructor ()
      ensures Valid() && packetQueue == []
    {
      packetQueue := [];
    }

    /** One pass of `udp_receiver_loop`: `datagram` is what `recvfrom(8192)`
        returned, None when it raised. After a datagram the slot holds
        exactly it. */
    method ReceiveStep(datagram: Option<bytes>)
      requires Valid()
      modifies this
      ensures Valid()
      ensures datagram.Some? ==> packetQueue == [XRHandReceiver.Received(datagram.value)]
      ensures datagram.None? ==> packetQueue == old(packetQueue)
    {
      if datagram.Some? {
        packetQueue := [];
        packetQueue := Deque.Append(packetQueue, XRHandReceiver.Received(datagram.value), 1);
      }
    }

    /** `update()`: nothing on an empty slot; otherwise the packet is popped,
        so it is never drawn twice, skipped when it fails the check, and
        otherwise split and drawn, unless a zero quaternion makes
        `from_quat` raise. */
    method Update() returns (frame: Frame)
      requires Valid()
      modifies this
      ensures Valid() && packetQueue == []
      ensures old(packetQueue) == [] ==> frame == Idle
      ensures old(packetQueue) != [] && Split(old(packetQueue)[0]).None? ==> frame == Skipped
      ensures old(packetQueue) != [] && Split(old(packetQueue)[0]).Some? ==>
        frame == Draw(Split(old(packetQueue)[0]).value)
    {
      if packetQueue == [] {
        return Idle;
      }
      var data := packetQueue[0];
      packetQueue := packetQueue[1..];
      match Split(data)
      case None =>
        frame := Skipped;
      case Some(p) =>
        frame := Draw(p);
    }
  }

  // ---------------------------------------------------------------------------
  // The joint walk of update_hand

  /** The position and quaternion words of joint `j` in a hand array, with
      Python slicing. */
  function JointWordsAt(raw: seq<F32>, j: nat): (r: (seq<F32>, seq<F32>))
    ensures |raw| == HandWords && 0 < j < Joints ==>
      |r.0| == 3 && |r.1| == 4 && r.0 + r.1 == raw[JointWords * j .. JointWords * (j + 1)]
  {
    (PySlice(raw, JointWords * j, JointWords * j + 3), PySlice(raw, JointWords * j + 3, JointWords * j + 7))
  }

  /** The `ptr` loop of `update_hand`: starting after the wrist's seven
      words, 25 times take three position words and four quaternion words.
      Bone `k` of the walk is joint `k + 1`. */
  method WalkBones(raw: seq<F32>) returns (positions: seq<seq<F32>>, rotations: seq<seq<F32>>)
    ensures |positions| == 25 && |rotations| == 25
    ensures forall k :: 0 <= k < 25 ==>
      (positions[k], rotations[k]) == JointWordsAt(raw, k + 1)
  {
    positions, rotations := [], [];
    var ptr := 7;
    for k := 0 to 25
      invariant ptr == JointWords * (k + 1)
      invariant |positions| == k && |rotations| == k
      invariant forall i :: 0 <= i < k ==> (positions[i], rotations[i]) == JointWordsAt(raw, i + 1)
    {
      var relPos := PySlice(raw, ptr, ptr + 3);
      ptr := ptr + 3;
      var relRot := PySlice(raw, ptr, ptr + 4);
      ptr := ptr + 4;
      positions := positions + [relPos];
      rotations := rotations + [relRot];
    }
  }

  /** The viewer reads each joint where `get_finger_robotTM_by_parsed` reads
      it, so both agree on the layout of a hand array. */
  lemma WalkMatchesLookup(p: Pose, partsName: string, boneName: string, index: int)
    requires WellSized(p)
    requires XRHandReceiver.FingerLookup(p, partsName, boneName, index).Joint?
    ensures var l := XRHandReceiver.FingerLookup(p, partsName, boneName, index);
      var raw := if partsName == "left" then p.left else p.right;
      JointWordsAt(raw, l.joint) == (l.position, l.rotation)
  {
  }

  // ---------------------------------------------------------------------------
  // bone_connection

  /** The 29 segments drawn between joints. */
  const BoneConnection: seq<(nat, nat)> := [
    (0, 1), (1, 2), (2, 3), (3, 4), (4, 5),
    (1, 6), (6, 7), (7, 8), (8, 9), (9, 10),
    (1, 11), (11, 12), (12, 13), (13, 14), (14, 15),
    (1, 16), (16, 17), (17, 18), (18, 19), (19, 20),
    (1, 21), (21, 22), (22, 23), (23, 24), (24, 25),
    (2, 6), (6, 11), (11, 16), (16, 21)]

  /** 29 segments with endpoints among the 26 joints; the first 25 give each
      joint 1..25 its parent, an earlier joint, so they form a tree rooted at
      the wrist and every joint drawn is connected to it. */
  lemma BoneConnectionShape()
    ensures |BoneConnection| == 29
    ensures forall i :: 0 <= i < |BoneConnection| ==> BoneConnection[i].0 < Joints && BoneConnection[i].1 < Joints
    ensures forall i :: 0 <= i < 25 ==> BoneConnection[i].1 == i + 1 && BoneConnection[i].0 < i + 1
  {
  }
}
