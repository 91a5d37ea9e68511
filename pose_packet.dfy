/** The pose datagram the headset sends (Unity3D_Code/socket_udp.cs) and both
    Python consumers read (XRHandReceiver.py, hand_tracking_udp_receiver.py):
    "HND0", an 8-byte timestamp, the float words of the left hand, the right
    hand and the head, then "HND1". */
module PosePacket {
  import opened Wire

  /** Words per hand: wrist pos(3) + rot(4), then 25 bones of pos(3) + rot(4). */
  const HandWords: nat := 1 * 3 + 1 * 4 + 25 * (3 + 4)
  /** Words of the headset pose: pos(3) + rot(4). */
  const HeadWords: nat := 7
  /** Words of one joint: pos(3) + rot(4). */
  const JointWords: nat := 7
  /** Joints per hand. */
  const Joints: nat := 26

  /** Bytes of a packet built from arrays of these lengths. */
  function PacketSize(left: nat, right: nat, head: nat): nat {
    4 + 8 + 4 * (left + right + head) + 4
  }

  /** The decoded content of a packet: the timestamp bytes and the three arrays. */
  datatype Pose = Pose(timestamp: F64, left: seq<F32>, right: seq<F32>, head: seq<F32>)

  /** A pose whose arrays have the lengths the headset sends. */
  predicate WellSized(p: Pose) {
    |p.left| == HandWords && |p.right| == HandWords && |p.head| == HeadWords
  }

  /** The packet for a pose: magic, timestamp, the three arrays word after
      word, magic. */
  function Encode(p: Pose): (b: bytes)
    ensures |b| == PacketSize(|p.left|, |p.right|, |p.head|)
  {
    WordsLength(p.left + p.right + p.head);
    HND0 + p.timestamp + Words(p.left + p.right + p.head) + HND1
  }

  /** The headset's arrays give a 1500-byte packet. */
  lemma EncodeSize(p: Pose)
    requires WellSized(p)
    ensures |Encode(p)| == 1500
  {
  }

  /** Where everything sits in an encoded packet: the magics at both ends, the
      timestamp in bytes [4, 12), and word `i` of the left hand, the right
      hand and the head at consecutive 4-byte offsets after it. */
  lemma EncodeLayout(p: Pose)
    ensures var b := Encode(p);
      && b[..4] == HND0 && b[4..12] == p.timestamp && b[|b| - 4..] == HND1
      && (forall i :: 0 <= i < |p.left| ==> b[12 + 4 * i .. 16 + 4 * i] == p.left[i])
      && (forall i :: 0 <= i < |p.right| ==>
            b[12 + 4 * (|p.left| + i) .. 16 + 4 * (|p.left| + i)] == p.right[i])
      && (forall i :: 0 <= i < |p.head| ==>
            b[12 + 4 * (|p.left| + |p.right| + i) .. 16 + 4 * (|p.left| + |p.right| + i)] == p.head[i])
  {
    var b := Encode(p);
    var ws := p.left + p.right + p.head;
    WordsLength(ws);
    assert b[12..|b| - 4] == Words(ws);
    assert b[..4] == HND0 && b[4..12] == p.timestamp && b[|b| - 4..] == HND1;
    hide Encode;
    forall k | 0 <= k < |ws| ensures b[12 + 4 * k .. 16 + 4 * k] == ws[k] {
      WordsAt(ws, k);
      assert b[12 + 4 * k .. 16 + 4 * k] == b[12..|b| - 4][4 * k .. 4 * k + 4];
    }
    forall i | 0 <= i < |p.left| ensures b[12 + 4 * i .. 16 + 4 * i] == p.left[i] {
      assert ws[i] == p.left[i];
    }
    forall i | 0 <= i < |p.right|
      ensures b[12 + 4 * (|p.left| + i) .. 16 + 4 * (|p.left| + i)] == p.right[i]
    {
      assert ws[|p.left| + i] == p.right[i];
    }
    forall i | 0 <= i < |p.head|
      ensures b[12 + 4 * (|p.left| + |p.right| + i) .. 16 + 4 * (|p.left| + |p.right| + i)] == p.head[i]
    {
      assert ws[|p.left| + |p.right| + i] == p.head[i];
    }
  }

  /** "HND1" starts with a byte found in "HND0" only at its start, and the
      two differ in their last byte. */
  lemma MagicBytes()
    ensures forall k :: 0 < k < 4 ==> HND0[k] != HND1[0]
    ensures HND0[3] != HND1[3]
  {
  }

  /** The magics differ and are four bytes each, so a byte string that starts
      with "HND0" and ends with "HND1" has at least 8 bytes. */
  lemma MagicsDisjoint(d: bytes)
    requires PySlice(d, 0, 4) == HND0 && PySlice(d, -4, |d|) == HND1
    ensures |d| >= 8
  {
    if |d| < 8 {
      assert d[|d| - 4] == HND1[0];
      MagicBytes();
      assert false;
    }
  }
}
