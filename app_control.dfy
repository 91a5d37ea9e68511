/** The application state of the C++ streaming app
    (StereoStream/ZED_StreoStream/cpp/src/main_visionpro.cpp): `AppState`,
    `stateToString`, `VisionProApp::updateState`, and the file naming of
    `VideoRecorder`. */
module AppControl {
  import opened Decimal
  import ZedSender

  datatype AppState = Idle | Streaming | Recording | StreamingRecording | Stopped

  /** `stateToString`; the `default: "unknown"` arm cannot be reached from a
      value of the enum. */
  function StateToString(st: AppState): (r: string)
    ensures r != "unknown"
  {
    match st
    case Idle => "idle"
    case Streaming => "streaming"
    case Recording => "recording"
    case StreamingRecording => "streaming_recording"
    case Stopped => "stopped"
  }

  /** The five states have five different names. */
  lemma StateNamesDistinct(a: AppState, b: AppState)
    requires a != b
    ensures StateToString(a) != StateToString(b)
  {
  }

  predicate IsStreaming(st: AppState) {
    st == Streaming || st == StreamingRecording
  }

  predicate IsRecording(st: AppState) {
    st == Recording || st == StreamingRecording
  }

  /** The state `updateState` assigns for the two flags. */
  function DeriveState(streaming: bool, recording: bool): (st: AppState)
    ensures st != Stopped
  {
    if streaming && recording then StreamingRecording
    else if streaming then Streaming
    else if recording then Recording
    else Idle
  }

  /** The derived state records both flags faithfully: each can be read back
      from it, so different flag pairs give different states. */
  lemma DeriveStateInverse(streaming: bool, recording: bool)
    ensures IsStreaming(DeriveState(streaming, recording)) == streaming
    ensures IsRecording(DeriveState(streaming, recording)) == recording
  {
  }

  /** Every state but `Stopped` arises from exactly its own flags. */
  lemma DeriveStateOnto(st: AppState)
    requires st != Stopped
    ensures DeriveState(IsStreaming(st), IsRecording(st)) == st
  {
  }

  /** `path + "/" + basename + ext`. */
  function PlainName(path: string, basename: string, ext: string): string {
    path + "/" + basename + ext
  }

  /** `path + "/" + basename + "_" + to_string(counter) + ext`. */
  function NumberedName(path: string, basename: string, ext: string, counter: nat): string {
    path + "/" + basename + "_" + NatToString(counter) + ext
  }

  /** Equal texts with the same prefix and suffix have the same middle. */
  lemma MiddleCancel(p: string, x: string, y: string, e: string)
    requires p + x + e == p + y + e
    ensures x == y
  {
    var a, b := p + x + e, p + y + e;
    assert |x| == |y|;
    assert x == a[|p| .. |p| + |x|];
    assert y == b[|p| .. |p| + |y|];
  }

  /** Different counters name different files. */
  lemma NumberedNameInjective(path: string, basename: string, ext: string, a: nat, b: nat)
    requires NumberedName(path, basename, ext, a) == NumberedName(path, basename, ext, b)
    ensures a == b
  {
    MiddleCancel(path + "/" + basename + "_", NatToString(a), NatToString(b), ext);
    NatToStringInjective(a, b);
  }

  /** The counters below `counter`, as names. */
  ghost predicate TriedNames(tried: set<string>, path: string, basename: string, ext: string, counter: nat) {
    && (forall j :: 1 <= j < counter ==> NumberedName(path, basename, ext, j) in tried)
    && (forall x :: x in tried ==> exists j :: 1 <= j < counter && x == NumberedName(path, basename, ext, j))
  }

  /** The name for the next counter is not among those tried. */
  lemma NextNameFresh(tried: set<string>, path: string, basename: string, ext: string, counter: nat)
    requires TriedNames(tried, path, basename, ext, counter)
    ensures NumberedName(path, basename, ext, counter) !in tried
  {
    if NumberedName(path, basename, ext, counter) in tried {
      var j :| 1 <= j < counter && NumberedName(path, basename, ext, counter) == NumberedName(path, basename, ext, j);
      NumberedNameInjective(path, basename, ext, counter, j);
    }
  }

  lemma TriedNamesStep(tried: set<string>, path: string, basename: string, ext: string, counter: nat)
    requires counter >= 1 && TriedNames(tried, path, basename, ext, counter)
    ensures TriedNames(tried + {NumberedName(path, basename, ext, counter)}, path, basename, ext, counter + 1)
  {
    var next := tried + {NumberedName(path, basename, ext, counter)};
    forall x | x in next
      ensures exists j :: 1 <= j < counter + 1 && x == NumberedName(path, basename, ext, j)
    {
      if x in tried {
        var j :| 1 <= j < counter && x == NumberedName(path, basename, ext, j);
        assert 1 <= j < counter + 1 && x == NumberedName(path, basename, ext, j);
      } else {
        var j := counter;
        assert 1 <= j < counter + 1 && x == NumberedName(path, basename, ext, j);
      }
    }
  }

  /** `VideoRecorder::getUniqueFilename`. `existing` stands for the files
      `fs::exists` reports. The plain name when it is free, otherwise the
      name with the least counter `N >= 1` that is free. */
  method GetUniqueFilename(existing: set<string>, path: string, basename: string, ext: string)
    returns (name: string)
    ensures name !in existing
    ensures PlainName(path, basename, ext) !in existing ==> name == PlainName(path, basename, ext)
    ensures PlainName(path, basename, ext) in existing ==>
      exists n :: 1 <= n && name == NumberedName(path, basename, ext, n)
        && forall j :: 1 <= j < n ==> NumberedName(path, basename, ext, j) in existing
  {
    name := PlainName(path, basename, ext);
    if name !in existing {
      return;
    }
    var counter: nat := 1;
    ghost var tried: set<string> := {};
    while true
      invariant counter >= 1
      invariant tried <= existing && |tried| == counter - 1
      invariant TriedNames(tried, path, basename, ext, counter)
      decreases |existing| - |tried|
    {
      name := NumberedName(path, basename, ext, counter);
      if name !in existing {
        return;
      }
      NextNameFresh(tried, path, basename, ext, counter);
      TriedNamesStep(tried, path, basename, ext, counter);
      tried := tried + {name};
      assert |tried| <= |existing| by {
        SubsetCard(tried, existing);
      }
      counter := counter + 1;
    }
  }

  lemma SubsetCard(a: set<string>, b: set<string>)
    requires a <= b
    ensures |a| <= |b|
  {
    assert b == a + (b - a);
  }

  /** The part of `VideoRecorder` that `updateState` looks at. */
  class VideoRecorder {
    /** `is_recording_`. */
    var recording: bool
    /** `filepath_`. */
    var filepath: string

    constructor ()
      ensures !recording && filepath == ""
    {
      recording, filepath := false, "";
    }

    /** `isRecording()`. */
    predicate IsRecording()
      reads this
    {
      recording
    }
  }

  /** The part of `VisionProApp` that `updateState` touches. Both collaborators
      are `unique_ptr`s that may be empty. */
  class VisionProApp {
    var sender: ZedSender.UdpImageSender?
    var recorder: VideoRecorder?
    var state: AppState

    constructor (sender: ZedSender.UdpImageSender?, recorder: VideoRecorder?)
      ensures this.sender == sender && this.recorder == recorder && state == Idle
    {
      this.sender, this.recorder, state := sender, recorder, Idle;
    }

    /** `updateState()`: the state reports whether frames are being streamed
        and whether video is being recorded, and nothing else changes. */
    method UpdateState()
      modifies `state
      ensures state == DeriveState(sender != null && sender.IsRunning(), recorder != null && recorder.IsRecording())
      ensures IsStreaming(state) <==> sender != null && sender.IsRunning()
      ensures IsRecording(state) <==> recorder != null && recorder.IsRecording()
    {
      var streaming := sender != null && sender.IsRunning();
      var recording := recorder != null && recorder.IsRecording();
      if streaming && recording {
        state := StreamingRecording;
      } else if streaming {
        state := Streaming;
      } else if recording {
        state := Recording;
      } else {
        state := Idle;
      }
      DeriveStateInverse(streaming, recording);
    }
  }
}
