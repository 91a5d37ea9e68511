/** The headset side, `XRHandMultiClientServer` of Unity3D_Code/socket_udp.cs:
    the float arrays for the two hands and the head, the pose packet built
    from them, and the table of clients registered by "ping" datagrams. */
module UnityServer {
  import opened Wire
  import opened PosePacket

  /** Seven floats: position x, y, z, then rotation x, y, z, w. */
  type PoseWords = s: seq<F32> | |s| == 7
    witness [ZeroF32, ZeroF32, ZeroF32, ZeroF32, ZeroF32, ZeroF32, ZeroF32]

  /** An `OVRBone` transform: its world position and rotation. */
  datatype Bone = Bone(pose: PoseWords)

  /** An `OVRCustomSkeleton`; `None` stands for a null `CustomBones` list and a
      `None` entry for a null (or destroyed) bone. */
  datatype Skeleton = Skeleton(customBones: Option<seq<Option<Bone>>>)

  /** `centerEyeAnchor` of an `OVRCameraRig`, `None` when it is null. */
  datatype CameraRig = CameraRig(centerEyeAnchor: Option<PoseWords>)

  /** The pose of a bone relative to the wrist,
      `Inverse(rootRot) * (bone.position - rootPos)` and
      `Inverse(rootRot) * bone.rotation`: float arithmetic, left opaque. */
  type Relative = (Bone, Bone) -> PoseWords

  /** A fresh C# `float[n]`: every element is +0.0f. */
  function Zeros(n: nat): (z: seq<F32>)
    ensures |z| == n && forall i :: 0 <= i < n ==> z[i] == ZeroF32
  {
    seq(n, _ => ZeroF32)
  }

  /** The number of present bones. */
  function Count(bs: seq<Option<Bone>>): (n: nat)
    ensures n <= |bs|
  {
    if bs == [] then 0 else Count(bs[..|bs| - 1]) + (if bs[|bs| - 1].Some? then 1 else 0)
  }

  /** The relative poses of the present bones of `bs`, in order; absent bones
      leave no gap. */
  function Present(root: Bone, bs: seq<Option<Bone>>, rel: Relative): (ws: seq<F32>)
    ensures |ws| == 7 * Count(bs)
  {
    if bs == [] then []
    else
      Present(root, bs[..|bs| - 1], rel)
        + (match bs[|bs| - 1] case Some(b) => rel(root, b) case None => [])
  }

  /** The array `GetHandArray` returns, or `None` where it throws: a null
      wrist bone is dereferenced. Too few bones, or none, give all zeros. */
  function HandArray(skel: Option<Skeleton>, rel: Relative): (r: Option<seq<F32>>)
    ensures r.Some? ==> |r.value| == HandWords
  {
    if skel.None? || skel.value.customBones.None? || |skel.value.customBones.value| < Joints then
      Some(Zeros(HandWords))
    else
      var bones := skel.value.customBones.value;
      match bones[0]
      case None => None
      case Some(root) =>
        var body := root.pose + Present(root, bones[1..Joints], rel);
        Some(body + Zeros(HandWords - |body|))
  }

  /** Without a skeleton, with a null bone list or with fewer than 26 bones
      the hand array is all zeros; otherwise it throws exactly when the wrist
      bone is null, and else starts with the wrist pose, holds 7 words per
      present bone in bone order and is zero after them. */
  lemma HandArrayShape(skel: Option<Skeleton>, rel: Relative)
    ensures skel.None? || skel.value.customBones.None? || |skel.value.customBones.value| < Joints ==>
      HandArray(skel, rel) == Some(Zeros(HandWords))
    ensures skel.Some? && skel.value.customBones.Some? && |skel.value.customBones.value| >= Joints ==>
      var bones := skel.value.customBones.value;
      && (HandArray(skel, rel).None? <==> bones[0].None?)
      && (bones[0].Some? ==>
            var arr := HandArray(skel, rel).value;
            var used := JointWords + 7 * Count(bones[1..Joints]);
            && used <= HandWords
            && arr[..JointWords] == bones[0].value.pose
            && arr[JointWords..used] == Present(bones[0].value, bones[1..Joints], rel)
            && forall k :: used <= k < HandWords ==> arr[k] == ZeroF32)
  {
  }

  /** When every bone of `bs` is present, bone `j` fills words [7j, 7j + 7). */
  lemma {:induction false} PresentAllAt(root: Bone, bs: seq<Option<Bone>>, rel: Relative, j: nat)
    requires forall i :: 0 <= i < |bs| ==> bs[i].Some?
    requires j < |bs|
    ensures Count(bs) == |bs|
    ensures Present(root, bs, rel)[7 * j .. 7 * j + 7] == rel(root, bs[j].value)
  {
    var init := bs[..|bs| - 1];
    PresentAllCount(init);
    if j < |bs| - 1 {
      PresentAllAt(root, init, rel, j);
      assert Present(root, bs, rel)[7 * j .. 7 * j + 7] == Present(root, init, rel)[7 * j .. 7 * j + 7];
    }
  }

  lemma {:induction false} PresentAllCount(bs: seq<Option<Bone>>)
    requires forall i :: 0 <= i < |bs| ==> bs[i].Some?
    ensures Count(bs) == |bs|
  {
    if bs != [] {
      PresentAllCount(bs[..|bs| - 1]);
    }
  }

  /** A fully tracked hand: joint 0 is the wrist pose and joint `j` (1..25)
      the pose of bone `j` relative to the wrist, with no zero padding. */
  lemma HandArrayTracked(skel: Option<Skeleton>, rel: Relative, j: nat)
    requires skel.Some? && skel.value.customBones.Some?
    requires |skel.value.customBones.value| >= Joints
    requires forall i :: 0 <= i < Joints ==> skel.value.customBones.value[i].Some?
    requires 1 <= j < Joints
    ensures var bones := skel.value.customBones.value;
      && HandArray(skel, rel).Some?
      && HandArray(skel, rel).value[..JointWords] == bones[0].value.pose
      && HandArray(skel, rel).value[7 * j .. 7 * j + 7] == rel(bones[0].value, bones[j].value)
  {
    var bones := skel.value.customBones.value;
    var root := bones[0].value;
    var bs := bones[1..Joints];
    PresentAllAt(root, bs, rel, j - 1);
    var body := root.pose + Present(root, bs, rel);
    assert |body| == HandWords;
    assert HandArray(skel, rel).value[7 * j .. 7 * j + 7] == Present(root, bs, rel)[7 * (j - 1) .. 7 * (j - 1) + 7];
  }

  /** The loop of `GetHandArray` over bones 1..25 (`bones`): each present
      bone writes its relative pose into the next seven slots after the
      wrist; the slots after the last one written keep their zeros. */
  method WriteBones(arr: array<F32>, root: Bone, bones: seq<Option<Bone>>, rel: Relative)
    requires arr.Length == HandWords && |bones| == Joints - 1
    requires arr[..JointWords] == root.pose && arr[JointWords..] == Zeros(HandWords - JointWords)
    modifies arr
    ensures arr[..] == root.pose + Present(root, bones, rel) + Zeros(HandWords - JointWords - 7 * Count(bones))
  {
    hide Present, Count;
    var ptr := 7;
    for i := 0 to 25
      invariant ptr == 7 + 7 * Count(bones[..i]) && Count(bones[..i]) <= i
      invariant arr[..ptr] == root.pose + Present(root, bones[..i], rel)
      invariant arr[ptr..] == Zeros(HandWords - ptr)
    {
      PresentStep(root, bones, i, rel);
      var bone := bones[i];
      if bone.Some? {
        var pose := rel(root, bone.value);
        ghost var tail := arr[ptr + 7..];
        assert tail == Zeros(HandWords - ptr - 7);
        CopyInto(arr, ptr, pose);
        ptr := ptr + 7;
      }
    }
    assert bones[..25] == bones;
    assert arr[..] == arr[..ptr] + arr[ptr..];
  }

  /** Bone `i` extends the count and the present poses of the bones before it. */
  lemma PresentStep(root: Bone, bones: seq<Option<Bone>>, i: nat, rel: Relative)
    requires i < |bones|
    ensures Count(bones[..i + 1]) == Count(bones[..i]) + (if bones[i].Some? then 1 else 0)
    ensures Present(root, bones[..i + 1], rel)
      == Present(root, bones[..i], rel) + (match bones[i] case Some(b) => rel(root, b) case None => [])
  {
    assert bones[..i + 1][..i] == bones[..i];
  }

  /** `GetHandArray(skel)`: a zeroed `float[182]`, the wrist pose in [0, 7),
      then for each bone 1..25 that is present its relative pose in the next
      seven slots (a null bone is skipped and does not advance `ptr`).
      `None` stands for the exception thrown on a null wrist bone. */
  method GetHandArray(skel: Option<Skeleton>, rel: Relative) returns (r: Option<array<F32>>)
    ensures r.None? <==> HandArray(skel, rel).None?
    ensures r.Some? ==> r.value[..] == HandArray(skel, rel).value
  {
    var arr := new F32[1 * 3 + 1 * 4 + 25 * (3 + 4)](_ => ZeroF32);
    assert arr[..] == Zeros(HandWords);
    if skel.None? || skel.value.customBones.None? || |skel.value.customBones.value| < 26 {
      return Some(arr);
    }
    var bones := skel.value.customBones.value;
    if bones[0].None? {
      return None;
    }
    var root := bones[0].value;
    CopyInto(arr, 0, root.pose);
    WriteBones(arr, root, bones[1..26], rel);
    r := Some(arr);
  }

  /** The array `GetHeadsetPoseArray` returns: the center eye pose, or zeros
      without a rig or anchor. */
  function HeadArray(rig: Option<CameraRig>): (h: seq<F32>)
    ensures |h| == HeadWords
  {
    if rig.None? || rig.value.centerEyeAnchor.None? then Zeros(HeadWords)
    else rig.value.centerEyeAnchor.value
  }

  /** `GetHeadsetPoseArray()`. */
  method GetHeadsetPoseArray(rig: Option<CameraRig>) returns (arr: array<F32>)
    ensures arr.Length == 7
    ensures rig.None? || rig.value.centerEyeAnchor.None? ==> forall i :: 0 <= i < 7 ==> arr[i] == ZeroF32
    ensures arr[..] == HeadArray(rig)
  {
    arr := new F32[7](_ => ZeroF32);
    if rig.None? || rig.value.centerEyeAnchor.None? {
      return;
    }
    CopyInto(arr, 0, rig.value.centerEyeAnchor.value);
  }

  /** One of the three copy loops of `PrepareHandDataPacket`: each float of
      `src` goes into the next four bytes at `ptr`. */
  method CopyFloats(payload: array<byte>, at: nat, src: array<F32>) returns (ptr: nat)
    requires at + 4 * src.Length <= payload.Length
    modifies payload
    ensures ptr == at + 4 * src.Length
    ensures payload[..at] == old(payload[..at])
    ensures payload[at..ptr] == Words(src[..])
    ensures payload[ptr..] == old(payload[ptr..])
    ensures payload[..ptr] == old(payload[..at]) + Words(src[..])
  {
    ptr := at;
    for i := 0 to src.Length
      invariant ptr == at + 4 * i
      invariant payload[..at] == old(payload[..at])
      invariant payload[at..ptr] == Words(src[..i])
      invariant payload[at + 4 * src.Length..] == old(payload[at + 4 * src.Length..])
    {
      CopyInto(payload, ptr, src[i]);
      assert src[..i + 1] == src[..i] + [src[i]];
      WordsAppend(src[..i], [src[i]]);
      assert payload[at..ptr + 4] == payload[at..ptr] + payload[ptr..ptr + 4];
      ptr := ptr + 4;
    }
    assert src[..src.Length] == src[..];
    assert payload[..ptr] == payload[..at] + payload[at..ptr];
  }

  /** The copies of `PrepareHandDataPacket` into a payload of the right
      size, `ptr` advancing over magic, timestamp, the three arrays and magic. */
  method WritePacket(payload: array<byte>, ts: F64, la: array<F32>, ra: array<F32>, head: array<F32>)
    requires payload.Length == 4 + 8 + (la.Length + ra.Length + head.Length) * 4 + 4
    modifies payload
    ensures payload[..] == HND0 + ts + Words(la[..]) + Words(ra[..]) + Words(head[..]) + HND1
  {
    var ptr := 0;
    CopyInto(payload, ptr, HND0);
    ptr := ptr + 4;
    CopyInto(payload, ptr, ts);
    ptr := ptr + 8;
    ptr := CopyFloats(payload, ptr, la);
    ptr := CopyFloats(payload, ptr, ra);
    ptr := CopyFloats(payload, ptr, head);
    CopyInto(payload, ptr, HND1);
    ptr := ptr + 4;
    assert payload[..] == payload[..ptr];
  }

  /** The packet of a pose is its parts written one after the other. */
  lemma EncodeWords(ts: F64, left: seq<F32>, right: seq<F32>, head: seq<F32>)
    ensures Encode(Pose(ts, left, right, head)) == HND0 + ts + Words(left) + Words(right) + Words(head) + HND1
  {
    WordsAppend(left, right);
    WordsAppend(left + right, head);
  }

  /** `PrepareHandDataPacket()`: the left hand, the right hand and the head,
      framed as a pose packet with timestamp bytes `ts`. `None` stands for an
      exception from `GetHandArray`. */
  method PrepareHandDataPacket(left: Option<Skeleton>, right: Option<Skeleton>, rig: Option<CameraRig>,
                               ts: F64, rel: Relative)
    returns (r: Option<array<byte>>)
    ensures r.None? <==> HandArray(left, rel).None? || HandArray(right, rel).None?
    ensures r.Some? ==>
      r.value[..] == Encode(Pose(ts, HandArray(left, rel).value, HandArray(right, rel).value, HeadArray(rig)))
  {
    var l := GetHandArray(left, rel);
    if l.None? {
      return None;
    }
    var rt := GetHandArray(right, rel);
    if rt.None? {
      return None;
    }
    var head := GetHeadsetPoseArray(rig);
    var la, ra := l.value, rt.value;
    var floatCount := la.Length + ra.Length + head.Length;
    var payload := new byte[4 + 8 + floatCount * 4 + 4];
    WritePacket(payload, ts, la, ra, head);
    EncodeWords(ts, la[..], ra[..], head[..]);
    r := Some(payload);
  }

  // ---------------------------------------------------------------------------
  // Client registry

  /** A sender's `IPEndPoint`. */
  datatype Endpoint = Endpoint(address: bytes, port: int)

  /** `Encoding.ASCII.GetString(req).StartsWith("ping")`: the ASCII decoding
      turns every byte above 127 into '?', so this is a test on the bytes. */
  predicate IsPing(req: bytes) {
    |req| >= 4 && req[..4] == PING
  }

  /** The table after a datagram from `from` at time `now`. */
  function Registered(table: map<Endpoint, real>, from: Endpoint, req: bytes, now: real): (t: map<Endpoint, real>)
    ensures IsPing(req) ==> from in t && t[from] == now
    ensures forall e :: e != from ==> (e in t <==> e in table) && (e in t ==> t[e] == table[e])
    ensures !IsPing(req) ==> t == table
  {
    if IsPing(req) then table[from := now] else table
  }

  /** The clients whose last ping is more than `timeout` seconds old. */
  function Expired(table: map<Endpoint, real>, now: real, timeout: real): (r: set<Endpoint>)
    ensures r <= table.Keys
    ensures forall e :: e in table && now - table[e] > timeout ==> e in r
  {
    set e | e in table && now - table[e] > timeout
  }

  /** The table after the sweep of `Update`. */
  function Swept(table: map<Endpoint, real>, now: real, timeout: real): (r: map<Endpoint, real>)
    ensures r.Keys <= table.Keys
  {
    table - Expired(table, now, timeout)
  }

  /** The sweep removes exactly the expired clients; every client left keeps
      its timestamp and has pinged within `timeout`. A second sweep at the same
      time removes nothing more. */
  lemma SweptSpec(table: map<Endpoint, real>, now: real, timeout: real)
    ensures forall e :: e in Swept(table, now, timeout) <==> e in table && now - table[e] <= timeout
    ensures forall e :: e in Swept(table, now, timeout) ==> Swept(table, now, timeout)[e] == table[e]
    ensures Swept(Swept(table, now, timeout), now, timeout) == Swept(table, now, timeout)
  {
    var s := Swept(table, now, timeout);
    assert Expired(s, now, timeout) == {};
  }

  /** A client that has just pinged survives a sweep at the same time. */
  lemma PingSurvivesSweep(table: map<Endpoint, real>, from: Endpoint, req: bytes, now: real, timeout: real)
    requires IsPing(req) && timeout >= 0.0
    ensures from in Swept(Registered(table, from, req, now), now, timeout)
  {
  }

  /** The part of `XRHandMultiClientServer` that tracks clients. */
  class XRHandMultiClientServer {
    /** `timeoutSeconds`. */
    const timeoutSeconds: real
    /** `clientTimestamps`: endpoint to the `Time.time` of its last ping. */
    var clientTimestamps: map<Endpoint, real>

    constructor (timeoutSeconds: real)
      ensures this.timeoutSeconds == timeoutSeconds && clientTimestamps == map[]
    {
      this.timeoutSeconds := timeoutSeconds;
      clientTimestamps := map[];
    }

    /** The body of the `ListenForClients` loop for one received datagram
        `req` from `from` at time `now`; `isNew` is the `ContainsKey` test
        that decides whether a registration is logged. */
    method OnDatagram(req: bytes, from: Endpoint, now: real) returns (isNew: bool)
      modifies this
      ensures clientTimestamps == Registered(old(clientTimestamps), from, req, now)
      ensures isNew <==> IsPing(req) && from !in old(clientTimestamps)
    {
      isNew := false;
      if IsPing(req) {
        isNew := from !in clientTimestamps;
        clientTimestamps := clientTimestamps[from := now];
      }
    }

    /** `Update()` at time `now`: collect the expired clients, then remove them. */
    method Update(now: real)
      modifies this
      ensures clientTimestamps == Swept(old(clientTimestamps), now, timeoutSeconds)
    {
      var expired: seq<Endpoint> := [];
      var pending := clientTimestamps.Keys;
      while pending != {}
        invariant pending <= clientTimestamps.Keys && clientTimestamps == old(clientTimestamps)
        invariant forall e :: e in expired <==>
          e in clientTimestamps && e !in pending && now - clientTimestamps[e] > timeoutSeconds
        decreases |pending|
      {
        var e :| e in pending;
        if now - clientTimestamps[e] > timeoutSeconds {
          expired := expired + [e];
        }
        pending := pending - {e};
      }
      assert forall e :: e in expired <==> e in Expired(old(clientTimestamps), now, timeoutSeconds);
      for i := 0 to |expired|
        invariant clientTimestamps == old(clientTimestamps) - (set j | 0 <= j < i :: expired[j])
      {
        var ep := expired[i];
        if ep in clientTimestamps {
          clientTimestamps := clientTimestamps - {ep};
        }
        assert (set j | 0 <= j < i + 1 :: expired[j]) == (set j | 0 <= j < i :: expired[j]) + {ep};
      }
      assert (set j | 0 <= j < |expired| :: expired[j]) == Expired(old(clientTimestamps), now, timeoutSeconds);
    }
  }
}
