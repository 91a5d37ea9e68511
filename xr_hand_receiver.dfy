/** The host-side receiver `XRHandReceiver` of XRHandReceiver.py: the
    validation and slicing of a pose packet, the single-slot packet buffer
    fed by the receive loop, the joint-index table and the per-joint slice
    lookup the retargeter uses. */
module XRHandReceiver {
  import opened Wire
  import opened PosePacket
  import Deque

  // ---------------------------------------------------------------------------
  // parse

  /** Exceptions `parse` can raise on a packet it has accepted. */
  datatype ParseError =
    | TimestampUnpack      // struct.error: fewer than 8 timestamp bytes
    | WordBuffer           // ValueError from np.frombuffer: not a whole number of floats
    | PoseShape            // ValueError: a segment too short for pos(3) + quat(4)
    | ZeroNormQuaternion   // ValueError from Rotation.from_quat

  datatype ParseResult = Rejected | Failed(error: ParseError) | Parsed(pose: Pose)

  /** The test at the head of `parse` that makes it return None. */
  predicate Rejects(data: Option<bytes>, bufferSize: int) {
    || data.None?
    || |data.value| != bufferSize
    || PySlice(data.value, 0, 4) != HND0
    || PySlice(data.value, -4, |data.value|) != HND1
  }

  /** The slicing of an accepted packet: timestamp `data[4:12]`, words
      `data[12:-4]`, left `arr[:182]`, right `arr[182:-7]`, head `arr[-7:]`;
      each segment then needs a position and a quaternion. */
  function Slice(d: bytes): (r: ParseResult)
    ensures !r.Rejected?
  {
    var ts := PySlice(d, 4, 12);
    var body := PySlice(d, 12, -4);
    if |ts| != 8 then Failed(TimestampUnpack)
    else if |body| % 4 != 0 then Failed(WordBuffer)
    else
      var arr := ToWords(body);
      var p := Pose(ts, PySlice(arr, 0, HandWords), PySlice(arr, HandWords, -7), PySlice(arr, -7, |arr|));
      if |p.left| < JointWords || |p.right| < JointWords || |p.head| < JointWords then Failed(PoseShape)
      else Parsed(p)
  }

  /** `parse(data)` with the conversion of a zero quaternion not raising: a
      packet is rejected exactly on a missing buffer, a wrong length or a
      wrong magic, and is otherwise sliced. */
  function Parse(data: Option<bytes>, bufferSize: int): (r: ParseResult)
    ensures r.Rejected? <==> Rejects(data, bufferSize)
    ensures !r.Rejected? ==> |data.value| >= 8
    ensures r.Parsed? ==> |data.value| >= 12 && r.pose.timestamp == data.value[4..12]
  {
    if Rejects(data, bufferSize) then Rejected
    else
      MagicsDisjoint(data.value);
      Slice(data.value)
  }

  /** The quaternion words [3, 7) of a segment are all zeros of either sign,
      so `Rotation.from_quat` finds a zero norm. */
  predicate ZeroQuaternion(seg: seq<F32>)
    requires |seg| >= JointWords
  {
    IsZeroWord(seg[3]) && IsZeroWord(seg[4]) && IsZeroWord(seg[5]) && IsZeroWord(seg[6])
  }

  /** `parse(data)` exactly as written: the wrist and head conversions run
      `Rotation.from_quat`, which raises on a zero quaternion. */
  function ParseAsWritten(data: Option<bytes>, bufferSize: int): (r: ParseResult)
    ensures r.Rejected? <==> Rejects(data, bufferSize)
    ensures r.Parsed? ==>
      && r == Parse(data, bufferSize)
      && !ZeroQuaternion(r.pose.left) && !ZeroQuaternion(r.pose.right) && !ZeroQuaternion(r.pose.head)
  {
    match Parse(data, bufferSize)
    case Parsed(p) =>
      if ZeroQuaternion(p.left) || ZeroQuaternion(p.right) || ZeroQuaternion(p.head)
      then Failed(ZeroNormQuaternion) else Parsed(p)
    case other => other
  }

  /** The two differ only where a wrist or head quaternion is zero. */
  lemma AsWrittenAgrees(data: Option<bytes>, bufferSize: int)
    ensures ParseAsWritten(data, bufferSize) != Parse(data, bufferSize) <==>
      Parse(data, bufferSize).Parsed? &&
      var p := Parse(data, bufferSize).pose;
      ZeroQuaternion(p.left) || ZeroQuaternion(p.right) || ZeroQuaternion(p.head)
  {
  }

  /** With `buffer_size = 1500` every packet passing the length and magic
      test is sliced into 182 + 182 + 7 words, and encoding the result gives
      the packet back: nothing in it is lost or reordered. */
  lemma ParseAccepted(d: bytes)
    requires !Rejects(Some(d), 1500)
    ensures Parse(Some(d), 1500).Parsed?
    ensures var p := Parse(Some(d), 1500).pose;
      WellSized(p) && Encode(p) == d
  {
    var body := d[12..1496];
    var arr := ToWords(body);
    assert PySlice(d, 12, -4) == body;
    var p := Pose(d[4..12], arr[..182], arr[182..364], arr[364..]);
    assert Parse(Some(d), 1500) == Parsed(p);
    assert p.left + p.right + p.head == arr;
    ToWordsInverse(body);
    assert d == d[..4] + d[4..12] + body + d[1496..];
  }

  /** Reading the words of a byte string and writing them back gives it back. */
  lemma ToWordsInverse(b: bytes)
    requires |b| % 4 == 0
    ensures Words(ToWords(b)) == b
  {
    var ws := ToWords(b);
    WordsLength(ws);
    forall i | 0 <= i < |b| ensures Words(ws)[i] == b[i] {
      var k := i / 4;
      WordsAt(ws, k);
      assert Words(ws)[i] == Words(ws)[4 * k .. 4 * k + 4][i - 4 * k];
    }
  }

  /** The cross-file round trip: a packet encoded from arrays of the
      headset's sizes is accepted and sliced back into the same timestamp,
      left hand, right hand and head. */
  lemma ParseEncode(p: Pose)
    requires WellSized(p)
    ensures Parse(Some(Encode(p)), 1500) == Parsed(p)
  {
    var d := Encode(p);
    EncodeLayout(p);
    var ws := p.left + p.right + p.head;
    assert d[12..1496] == Words(ws);
    assert PySlice(d, 12, -4) == Words(ws);
    WordsRoundTrip(ws);
    assert ws[..182] == p.left && ws[182..364] == p.right && ws[364..] == p.head;
  }

  // ---------------------------------------------------------------------------
  // The receive slot

  /** `recvfrom(8192)`: a longer datagram is cut to its first 8192 bytes. */
  const RecvSize: nat := 8192

  function Received(datagram: bytes): (r: bytes)
    ensures |r| <= RecvSize && |r| <= |datagram| && r == datagram[..|r|]
    ensures |datagram| <= RecvSize ==> r == datagram
  {
    if |datagram| <= RecvSize then datagram else datagram[..RecvSize]
  }

  /** The connection state and the `deque(maxlen=1)` packet slot. */
  class Receiver {
    const serverIp: string
    const serverPort: int
    const bufferSize: int
    /** `self.connected`: set by `connect()`, which binds the socket. */
    var connected: bool
    /** `self.packet_queue`. */
    var packetQueue: seq<bytes>

    ghost predicate Valid()
      reads this
    {
      |packetQueue| <= 1
    }

    constructor (serverIp: string, serverPort: int, bufferSize: int)
      ensures Valid()
      ensures this.serverIp == serverIp && this.serverPort == serverPort && this.bufferSize == bufferSize
      ensures !connected && packetQueue == []
    {
      this.serverIp, this.serverPort, this.bufferSize := serverIp, serverPort, bufferSize;
      connected, packetQueue := false, [];
    }

    /** `connect()`. */
    method Connect()
      requires Valid()
      modifies this
      ensures Valid() && connected && packetQueue == old(packetQueue)
    {
      connected := true;
    }

    /** `get()`: the newest packet, or None before the first one arrives. */
    function Get(): (r: Option<bytes>)
      reads this
      requires Valid()
      ensures r.None? <==> packetQueue == []
      ensures r.Some? ==> packetQueue == [r.value]
    {
      if packetQueue != [] then Some(packetQueue[|packetQueue| - 1]) else None
    }

    /** One pass of `_receiver_loop`. `datagram` is what `recvfrom` returned,
        None when it raised (the one-second timeout); the pass does nothing
        before `connect()`. A received datagram replaces whatever the slot held. */
    method ReceiveStep(datagram: Option<bytes>)
      requires Valid()
      modifies this
      ensures Valid() && connected == old(connected)
      ensures old(connected) && datagram.Some? ==> Get() == Some(Received(datagram.value))
      ensures !old(connected) || datagram.None? ==> packetQueue == old(packetQueue)
    {
      if !connected {
        return;
      }
      if datagram.None? {
        return;
      }
      var data := Received(datagram.value);
      packetQueue := [];
      packetQueue := Deque.Append(packetQueue, data, 1);
    }
  }

  // ---------------------------------------------------------------------------
  // Joint indices and the per-joint slice

  /** `self.bone_indexs`: the joints of each part of the hand. */
  const BoneIndexs: map<string, seq<nat>> := map[
    "wrist" := [0],
    "hand" := [1],
    "thumb" := [2, 3, 4, 5],
    "index" := [6, 7, 8, 9, 10],
    "middle" := [11, 12, 13, 14, 15],
    "ring" := [16, 17, 18, 19, 20],
    "little" := [21, 22, 23, 24, 25]]

  /** The parts in order list every joint 0..25 once, in increasing order. */
  lemma BoneIndexsPartition()
    ensures BoneIndexs["wrist"] + BoneIndexs["hand"] + BoneIndexs["thumb"] + BoneIndexs["index"]
      + BoneIndexs["middle"] + BoneIndexs["ring"] + BoneIndexs["little"] == seq(Joints, i => i)
  {
  }

  /** Every joint index in the table is below 26. */
  lemma BoneIndexsInRange(name: string, k: nat)
    requires name in BoneIndexs && k < |BoneIndexs[name]|
    ensures BoneIndexs[name][k] < Joints
  {
  }

  /** What `get_finger_robotTM_by_parsed` reads: nothing (it prints an error
      and returns None), an `IndexError` from a negative index too far from
      the end, or the words of one joint. */
  datatype Lookup =
    | NoJoint
    | IndexError
    | Joint(joint: nat, start: nat, position: seq<F32>, rotation: seq<F32>)

  /** `bone_indexs[bone_name][index]` with Python's list indexing. */
  function PyIndex(xs: seq<nat>, i: int): (r: Option<nat>)
    ensures r.Some? <==> -|xs| <= i < |xs|
    ensures r.Some? ==> r.value in xs
  {
    if 0 <= i < |xs| then Some(xs[i]) else if -|xs| <= i < 0 then Some(xs[|xs| + i]) else None
  }

  /** The validation and slicing of `get_finger_robotTM_by_parsed`: the part
      must be "left" or "right", the bone a key of `bone_indexs` and `index`
      below the length of its list; the joint's position is
      `raw[7b : 7b+3]` and its quaternion `raw[7b+3 : 7b+7]`. */
  function FingerLookup(p: Pose, partsName: string, boneName: string, index: int): (r: Lookup)
    ensures r.NoJoint? <==>
      !(partsName == "left" || partsName == "right") || boneName !in BoneIndexs || index >= |BoneIndexs[boneName]|
    ensures r.Joint? ==>
      && r.joint in BoneIndexs[boneName] && r.joint < Joints
      && r.start == JointWords * r.joint && r.start + JointWords <= HandWords
    ensures r.Joint? && WellSized(p) ==>
      var raw := if partsName == "left" then p.left else p.right;
      r.position == raw[r.start .. r.start + 3] && r.rotation == raw[r.start + 3 .. r.start + 7]
  {
    if !(partsName == "left" || partsName == "right") then NoJoint
    else if boneName !in BoneIndexs then NoJoint
    else if index >= |BoneIndexs[boneName]| then NoJoint
    else
      match PyIndex(BoneIndexs[boneName], index)
      case None => IndexError
      case Some(b) =>
        var raw := if partsName == "left" then p.left else p.right;
        var start := JointWords * b;
        Joint(b, start, PySlice(raw, start, start + 3), PySlice(raw, start + 3, start + 7))
  }
}
