/** The pose packet end to end: what the headset's `PrepareHandDataPacket`
    sends is what `XRHandReceiver.parse` and the viewer's `update()` read
    back, and the one kind of packet on which `parse` as written raises. */
module PoseRoundTrip {
  import opened Wire
  import opened PosePacket
  import UnityServer
  import XRHandReceiver
  import ViewerReceiver

  /** The pose a `PrepareHandDataPacket` call frames, when it does not throw. */
  function SentPose(left: Option<UnityServer.Skeleton>, right: Option<UnityServer.Skeleton>,
                    rig: Option<UnityServer.CameraRig>, ts: F64, rel: UnityServer.Relative): (p: Pose)
    requires UnityServer.HandArray(left, rel).Some? && UnityServer.HandArray(right, rel).Some?
    ensures WellSized(p) && p.timestamp == ts
  {
    Pose(ts, UnityServer.HandArray(left, rel).value, UnityServer.HandArray(right, rel).value,
         UnityServer.HeadArray(rig))
  }

  /** Every packet the headset sends is 1500 bytes, is accepted by both
      Python consumers and is sliced back into the timestamp, the two hand
      arrays and the head array it was built from. */
  lemma SentPacketRoundTrip(left: Option<UnityServer.Skeleton>, right: Option<UnityServer.Skeleton>,
                            rig: Option<UnityServer.CameraRig>, ts: F64, rel: UnityServer.Relative)
    requires UnityServer.HandArray(left, rel).Some? && UnityServer.HandArray(right, rel).Some?
    ensures var p := SentPose(left, right, rig, ts, rel);
      && |Encode(p)| == 1500
      && XRHandReceiver.Parse(Some(Encode(p)), 1500) == XRHandReceiver.Parsed(p)
      && ViewerReceiver.Split(Encode(p)) == Some(p)
  {
    var p := SentPose(left, right, rig, ts, rel);
    EncodeSize(p);
    XRHandReceiver.ParseEncode(p);
    ViewerReceiver.SplitAgreesWithReceiver(Encode(p));
  }

  /** `parse` as written raises on every packet the headset sends for a hand
      whose skeleton is absent or not yet initialised: `GetHandArray` gives
      all zeros, so the wrist quaternion has zero norm and
      `Rotation.from_quat` raises. */
  lemma UntrackedHandAsWritten(right: Option<UnityServer.Skeleton>, rig: Option<UnityServer.CameraRig>,
                               ts: F64, rel: UnityServer.Relative)
    requires UnityServer.HandArray(right, rel).Some?
    ensures UnityServer.HandArray(None, rel).Some?
    ensures XRHandReceiver.ParseAsWritten(Some(Encode(SentPose(None, right, rig, ts, rel))), 1500)
      == XRHandReceiver.Failed(XRHandReceiver.ZeroNormQuaternion)
  {
    var p := SentPose(None, right, rig, ts, rel);
    XRHandReceiver.ParseEncode(p);
    assert p.left == UnityServer.Zeros(HandWords);
    assert XRHandReceiver.ZeroQuaternion(p.left);
  }

  /** The viewer accepts that packet and then raises in `update_hand` for the
      untracked hand, before anything is drawn. */
  lemma UntrackedHandViewer(right: Option<UnityServer.Skeleton>, rig: Option<UnityServer.CameraRig>,
                            ts: F64, rel: UnityServer.Relative)
    requires UnityServer.HandArray(right, rel).Some?
    ensures UnityServer.HandArray(None, rel).Some?
    ensures var d := Encode(SentPose(None, right, rig, ts, rel));
      ViewerReceiver.Split(d).Some? && ViewerReceiver.Draw(ViewerReceiver.Split(d).value) == ViewerReceiver.Raised(0)
  {
    var p := SentPose(None, right, rig, ts, rel);
    SentPacketRoundTrip(None, right, rig, ts, rel);
    assert p.left == UnityServer.Zeros(HandWords);
    assert ViewerReceiver.IsZeroQuat(ViewerReceiver.JointWordsAt(p.left, 0).1);
  }

  /** The corrected reading accepts that packet and returns the zero hand
      array, which the caller can recognise as "not tracked". */
  lemma UntrackedHandCorrected(right: Option<UnityServer.Skeleton>, rig: Option<UnityServer.CameraRig>,
                               ts: F64, rel: UnityServer.Relative)
    requires UnityServer.HandArray(right, rel).Some?
    ensures UnityServer.HandArray(None, rel).Some?
    ensures var r := XRHandReceiver.Parse(Some(Encode(SentPose(None, right, rig, ts, rel))), 1500);
      r.Parsed? && r.pose.left == UnityServer.Zeros(HandWords)
  {
    XRHandReceiver.ParseEncode(SentPose(None, right, rig, ts, rel));
  }
}
