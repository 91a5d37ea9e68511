# MetaQuest hand tracking and stereo streaming — a Dafny model

This project models the sequential core of a teleoperation toolkit. A Meta
Quest (or Vision Pro) headset streams hand poses to a host, and the host
streams stereo camera frames back.

- **Frame streaming.** `UdpImageSender` exists twice: in Python
  (StereoStream/StereoStreamer.py) and in C++ (`main_visionpro.cpp`). It
  JPEG-encodes a frame, numbers it with a 32-bit frame id and cuts it into
  datagrams. Each datagram is an 8-byte big-endian header
  `{frame_id:u32, idx:u16, total:u16}` followed by one contiguous chunk of
  at most `max_payload` bytes. The C++ sender keeps a one-frame queue
  between `sendImage` and its worker, plus open/close flags.
- **Control plane of the C++ app.** This covers the hand-written
  `SimpleJson` parser, getters and serialiser, the application state derived
  from the streaming and recording flags, and the recorder's search for an
  unused file name.
- **The pose packet.** The Unity server (Unity3D_Code/socket_udp.cs) builds
  a 1500-byte datagram: `"HND0"`, an 8-byte timestamp, 182 float words for
  the left hand, 182 for the right, 7 for the head, then `"HND1"`. Clients
  register by sending `"ping"` and expire after a timeout.
- **The host-side consumers.** `XRHandReceiver.py` validates and slices the
  packet, keeps the newest one in a one-slot deque, converts Unity axes to
  robot axes with the signed permutation `RM_U2R`, and retargets six joint
  angles of an Inspire RH56F1 robot hand. `hand_tracking_udp_receiver.py`
  checks and splits the same packet for its viewer.

Bytes are `byte` (0..255). A float is an opaque 4-byte word (`Wire.F32`) and
the timestamp an opaque 8-byte word (`Wire.F64`). Angles are exact reals in
degrees; the source computes in radians, which only scales every constant by
pi/180. Python slicing is modelled exactly (`Wire.PySlice`), negative bounds
included. Where the source mutates an object, the model is a class with
`modifies` clauses: the two senders, the receivers' slots, the Unity client
table, the app state. Array-building code is written as methods over
`array`s proved equal to specification functions: `GetHandArray`,
`PrepareHandDataPacket` and the C++ packet buffer. The `stringify` loop,
the `parse` loop and the file-name search are loops over strings, maps and
sets, each proved equal to its specification function.

The main theorems:

- `PoseRoundTrip.SentPacketRoundTrip`: every packet the headset sends is
  accepted by both Python consumers and sliced back into exactly the arrays
  it was built from.
- `Fragment.DatagramsReassemble`: the datagrams of a frame carry its id,
  their index and their count, and their payloads concatenate back to the
  JPEG bytes.
- `Json.ParseStringify`: `parse(stringify(m)) == m` for clean maps, and
  `Json.ParseStringifyAsWritten`: the loop exactly as written stops on that
  text and computes the same map.

Some points where the code behaves otherwise than one would expect from
its comments and names:

- The retargeter's thumb angles come from joints 3 and 5, not joints 1 and 3.
  `Thumb1_idx = 1` and `Thumb3_idx = 3` are list positions in
  `bone_indexs["thumb"] = [2, 3, 4, 5]` (`Retarget.SelectedJoints`).
- The thumb-base angle is wrapped into [0, 360) before `custom0_clamp_angle`.
  Its -10 degree floor is therefore never used, the angle is never negative,
  and its normalised value stays in [0, 6/7] (`Retarget.ThumbBaseBands`,
  `Retarget.NormalisedBounds`).
- Joints 1..25 of a hand array are posed relative to the wrist (joint 0),
  not relative to their parent bone (`UnityServer.HandArrayTracked`).

## Model

| member | source | states |
|---|---|---|
| `Wire.U32BE` | StereoStream/StereoStreamer.py:85 | the `!I` field of the header is 4 bytes |
| `Wire.U16BE` | StereoStream/StereoStreamer.py:85 | an `!H` field of the header is 2 bytes |
| `Wire.ReadU32BE` | StereoStream/StereoStreamer.py:85 | reading 4 big-endian bytes gives a value below 2^32 |
| `Wire.ReadU16BE` | StereoStream/StereoStreamer.py:85 | reading 2 big-endian bytes gives a value below 2^16 |
| `Wire.U16RoundTrip` | StereoStream/StereoStreamer.py:85 | reading back a packed u16 gives the number |
| `Wire.U32RoundTrip` | StereoStream/StereoStreamer.py:85 | reading back a packed u32 gives the number |
| `Wire.ReadU32BEInverse` | StereoStream/ZED_StreoStream/cpp/src/main_visionpro.cpp:313-317 | every 4-byte string is the packing of the number it reads as, so packing is a bijection |
| `Wire.WordsLength` | Unity3D_Code/socket_udp.cs:132-149 | writing n floats takes 4n bytes |
| `Wire.WordsAppend` | Unity3D_Code/socket_udp.cs:132-149 | writing two arrays one after the other writes their concatenation |
| `Wire.WordsAt` | Unity3D_Code/socket_udp.cs:134 | float i sits at bytes [4i, 4i+4) |
| `Wire.ToWords` | XRHandReceiver.py:161 | `np.frombuffer` gives len/4 words, word i being bytes [4i, 4i+4) |
| `Wire.WordsRoundTrip` | XRHandReceiver.py:161 | reading the words of written floats gives the floats back |
| `Wire.SliceBound` | XRHandReceiver.py:162-164 | a Python slice bound: negative counts from the end, the result is clamped to the length |
| `Wire.PySlice` | XRHandReceiver.py:160-164 | a Python slice is never longer than its sequence and is the plain subsequence for in-range bounds |
| `Wire.CopyInto` | Unity3D_Code/socket_udp.cs:128 | `Array.Copy`/`memcpy` writes `src` at `at` and leaves every other element unchanged |
| `Fragment.CeilDivBounds` | StereoStream/StereoStreamer.py:78-80 | the chunk count is the least k with k·max ≥ len |
| `Fragment.Chunks` | StereoStream/StereoStreamer.py:78-79 | the comprehension yields ceil(len/max) chunks |
| `Fragment.ChunkSize` | StereoStream/StereoStreamer.py:78-79 | every chunk holds 1..max bytes and all but the last exactly max |
| `Fragment.ChunkSizes` | StereoStream/StereoStreamer.py:78-80 | the same for the whole chunk list |
| `Fragment.ChunksFlatten` | StereoStream/StereoStreamer.py:78-79 | the chunks concatenate back to the data; empty data gives no chunk |
| `Fragment.Header` | StereoStream/StereoStreamer.py:85 | `pack('!IHH', fid, idx, total)` is 8 bytes |
| `Fragment.ReadHeader` | StereoStream/StereoStreamer.py:83-85 | the three header fields read from 8 bytes lie in their ranges |
| `Fragment.HeaderRoundTrip` | StereoStream/StereoStreamer.py:83-86 | reading the header of header+chunk gives (fid, idx, total) back and the rest is the chunk |
| `Fragment.Datagrams` | StereoStream/StereoStreamer.py:84-86 | one datagram per chunk |
| `Fragment.Payloads` | StereoStream/StereoStreamer.py:86 | stripping the 8-byte headers keeps one payload per datagram |
| `Fragment.DatagramAt` | StereoStream/StereoStreamer.py:84-86 | datagram idx is the header (fid, idx, total) followed by chunk idx |
| `Fragment.DatagramsReassemble` | StereoStream/StereoStreamer.py:78-90 | every datagram has 9..8+max bytes, shares fid and total, carries its own index, and the payloads concatenate to the data |
| `StereoStreamer.Sends` | StereoStream/StereoStreamer.py:87-90 | each datagram goes by `send` when connected, else by `sendto((ip, port))`, in order |
| `StereoStreamer.UdpImageSender.constructor` | StereoStream/StereoStreamer.py:12-36 | no socket, not connected, `frame_id` 0 |
| `StereoStreamer.UdpImageSender.Open` | StereoStream/StereoStreamer.py:38-40 | a fresh unconnected socket; `connected` and `frame_id` untouched |
| `StereoStreamer.UdpImageSender.Connect` | StereoStream/StereoStreamer.py:42-50 | raises `RuntimeError` without a socket and changes nothing; otherwise connects |
| `StereoStreamer.UdpImageSender.Close` | StereoStream/StereoStreamer.py:92-97 | drops the socket and clears `connected` if there was a socket; a second close is a no-op |
| `StereoStreamer.UdpImageSender.SendImage` | StereoStream/StereoStreamer.py:52-90 | no socket: raises and sends nothing; encode failure: raises, `frame_id` unchanged; else `frame_id` grows by one and the frame's datagrams under `fid = frame_id mod 2^32` are sent, or it raises before sending when the count overflows u16 |
| `StereoStreamer.UdpImageSender.SendChunks` | StereoStream/StereoStreamer.py:84-90 | the send loop appends exactly the frame's datagrams, or raises before the first send |
| `ZedSender.PacketCount` | StereoStream/ZED_StreoStream/cpp/src/main_visionpro.cpp:304 | `uint16_t total_packets` is ceil(len/max) truncated to 16 bits |
| `ZedSender.CppDatagrams` | StereoStream/ZED_StreoStream/cpp/src/main_visionpro.cpp:301-324 | `sendPackets` emits `total_packets` datagrams |
| `ZedSender.CppDatagramsAgree` | StereoStream/ZED_StreoStream/cpp/src/main_visionpro.cpp:301-324 | when the count fits in 16 bits the C++ datagrams are exactly the Python sender's |
| `ZedSender.CountWraps` | StereoStream/ZED_StreoStream/cpp/src/main_visionpro.cpp:304 | a frame of exactly 2^16 chunks wraps the count to 0 and nothing is sent |
| `ZedSender.FillPacket` | StereoStream/ZED_StreoStream/cpp/src/main_visionpro.cpp:309-322 | the bytes sent from `packet_buf` are `htonl(fid)`, `htons(idx)`, `htons(total)` and chunk idx |
| `ZedSender.UdpImageSender.constructor` | StereoStream/ZED_StreoStream/cpp/src/main_visionpro.cpp:198 | no socket, `frame_id_` 0, stopped, empty queue |
| `ZedSender.UdpImageSender.IsRunning` | StereoStream/ZED_StreoStream/cpp/src/main_visionpro.cpp:261 | `isRunning()`: not stopped and connected |
| `ZedSender.UdpImageSender.Open` | StereoStream/ZED_StreoStream/cpp/src/main_visionpro.cpp:202-233 | socket failure and connect failure return false and leave the flags; success starts the worker and `isRunning()` |
| `ZedSender.UdpImageSender.Close` | StereoStream/ZED_StreoStream/cpp/src/main_visionpro.cpp:235-248 | stops, joins, closes the socket; idempotent, and `isRunning()` is false after it |
| `ZedSender.UdpImageSender.SendImage` | StereoStream/ZED_StreoStream/cpp/src/main_visionpro.cpp:250-259 | when running, the queue holds exactly the new frame; otherwise nothing changes |
| `ZedSender.UdpImageSender.WorkerStep` | StereoStream/ZED_StreoStream/cpp/src/main_visionpro.cpp:264-299 | pops the pending frame, resizes to 2w×h, drops alpha, and on successful encoding sends its datagrams under the next frame id |
| `ZedSender.UdpImageSender.SendPackets` | StereoStream/ZED_StreoStream/cpp/src/main_visionpro.cpp:301-324 | `frame_id_` advances by one mod 2^32 and the datagrams of the frame are appended to what was sent |
| `Decimal.NatToString` | StereoStream/ZED_StreoStream/cpp/src/main_visionpro.cpp:356 | `to_string` of a counter: non-empty digits, no leading zero |
| `Decimal.NatToStringRoundTrip` | StereoStream/ZED_StreoStream/cpp/src/main_visionpro.cpp:356 | the digits denote the counter |
| `Decimal.NatToStringInjective` | StereoStream/ZED_StreoStream/cpp/src/main_visionpro.cpp:356 | different counters give different texts |
| `Decimal.IntToString` | StereoStream/ZED_StreoStream/cpp/src/main_visionpro.cpp:356 | `to_string` of an int: non-empty, with a leading `-` exactly for a negative number, digits otherwise |
| `Decimal.StoI` | StereoStream/ZED_StreoStream/cpp/src/main_visionpro.cpp:110 | `stoi` succeeds only on text with a digit and only within int range |
| `Decimal.StoIRoundTrip` | StereoStream/ZED_StreoStream/cpp/src/main_visionpro.cpp:107-113 | `stoi(to_string(n)) == n` for every int |
| `Json.Strip` | StereoStream/ZED_StreoStream/cpp/src/main_visionpro.cpp:55-58 | no space, newline, return or tab survives, including inside quotes |
| `Json.StripNoOp` | StereoStream/ZED_StreoStream/cpp/src/main_visionpro.cpp:55-58 | text without them is unchanged |
| `Json.Unbrace` | StereoStream/ZED_StreoStream/cpp/src/main_visionpro.cpp:60-61 | the result is `s` without its first character when that is `{`, and then without its last character exactly when that is `}` |
| `Json.UnbraceBraced` | StereoStream/ZED_StreoStream/cpp/src/main_visionpro.cpp:60-61 | `{body}` becomes `body` |
| `Json.FindFirst` | StereoStream/ZED_StreoStream/cpp/src/main_visionpro.cpp:67-68 | what `find` reports is the first occurrence, and npos means there is none |
| `Json.Find` | StereoStream/ZED_StreoStream/cpp/src/main_visionpro.cpp:67 | `find` reports a position holding the character, at or after `from` |
| `Json.FindIs` | StereoStream/ZED_StreoStream/cpp/src/main_visionpro.cpp:67 | it reports the first one |
| `Json.FindNone` | StereoStream/ZED_StreoStream/cpp/src/main_visionpro.cpp:68 | npos exactly when there is none |
| `Json.FindSeparator` | StereoStream/ZED_StreoStream/cpp/src/main_visionpro.cpp:88 | `find_first_of(",}")` reports a separator at or after `from` |
| `Json.FindSeparatorIs` | StereoStream/ZED_StreoStream/cpp/src/main_visionpro.cpp:88-89 | the first separator, or npos (then the end) when there is none |
| `Json.ScanKey` | StereoStream/ZED_StreoStream/cpp/src/main_visionpro.cpp:67-78 | the key lies strictly between the first two quotes at or after `pos`, and the value starts right after the first colon that follows them; no key (the `break`) exactly when no two quotes are followed by a colon |
| `Json.SkipComma` | StereoStream/ZED_StreoStream/cpp/src/main_visionpro.cpp:97 | skips at most one comma |
| `Json.StepAsWritten` | StereoStream/ZED_StreoStream/cpp/src/main_visionpro.cpp:64-98 | one pass as written either moves forward within the text or, after an unterminated quoted value, goes back to position 0 or 1 |
| `Json.ScanValue` | StereoStream/ZED_StreoStream/cpp/src/main_visionpro.cpp:81-92 | a quoted or bare value, ending within the text (corrected reading, see Left out) |
| `Json.Step` | StereoStream/ZED_StreoStream/cpp/src/main_visionpro.cpp:64-98 | the corrected pass moves strictly forward, which makes the loop terminate (see Left out) |
| `Json.StepAgrees` | StereoStream/ZED_StreoStream/cpp/src/main_visionpro.cpp:81-85 | the pass as written differs from `Step` exactly when the value opens with a quote that is never closed |
| `Json.RunAsWritten` | StereoStream/ZED_StreoStream/cpp/src/main_visionpro.cpp:64-98 | the loop as written, run for a bounded number of passes, only adds keys |
| `Json.RunAsWrittenAgrees` | StereoStream/ZED_StreoStream/cpp/src/main_visionpro.cpp:64-98 | on a text where every pass meets a bare or closed value, the loop as written stops and computes what `ParseFrom` computes |
| `Json.ParseStep` | StereoStream/ZED_StreoStream/cpp/src/main_visionpro.cpp:65-98 | a pass either breaks or stores one pair and continues from after it |
| `Json.Parse` | StereoStream/ZED_StreoStream/cpp/src/main_visionpro.cpp:51-100 | the in-place erase and the scanning loop compute `ParseSpec`, with an unterminated quoted value read to the end of the text (see Left out) |
| `Json.SimpleJson.Get` | StereoStream/ZED_StreoStream/cpp/src/main_visionpro.cpp:102-105 | the stored value, or the default for a missing key |
| `Json.SimpleJson.GetInt` | StereoStream/ZED_StreoStream/cpp/src/main_visionpro.cpp:107-113 | `stoi` of the stored value; the default when missing or when `stoi` throws |
| `Json.SimpleJson.GetBool` | StereoStream/ZED_StreoStream/cpp/src/main_visionpro.cpp:115-121 | true exactly for "true" and "1"; the default when missing |
| `Json.SimpleJson.GetFloat` | StereoStream/ZED_StreoStream/cpp/src/main_visionpro.cpp:123-129 | `stof` of the stored value; the default when missing or when `stof` throws |
| `Json.SimpleJson.HasKey` | StereoStream/ZED_StreoStream/cpp/src/main_visionpro.cpp:131-133 | membership |
| `Json.SortedKeys` | StereoStream/ZED_StreoStream/cpp/src/main_visionpro.cpp:139 | the iteration order of a `std::map` lists its keys |
| `Json.SortedKeysSpec` | StereoStream/ZED_StreoStream/cpp/src/main_visionpro.cpp:139 | every key once, in strictly ascending order |
| `Json.StringifySpec` | StereoStream/ZED_StreoStream/cpp/src/main_visionpro.cpp:135-153 | the text `stringify` writes: braced, and `{}` exactly for the empty map |
| `Json.StringifyStep` | StereoStream/ZED_StreoStream/cpp/src/main_visionpro.cpp:139-150 | one loop pass appends a comma (except first) and the next key's entry |
| `Json.Stringify` | StereoStream/ZED_StreoStream/cpp/src/main_visionpro.cpp:135-153 | `{`, the `"key":value` entries in key order with commas, `}`; a value is bare exactly when it is true/false or starts with a digit or `-` |
| `Json.ParseEntries` | StereoStream/ZED_StreoStream/cpp/src/main_visionpro.cpp:64-98 | scanning clean entries stores their pairs in order; a later duplicate key overwrites |
| `Json.ParseBraced` | StereoStream/ZED_StreoStream/cpp/src/main_visionpro.cpp:51-100 | parsing `{entries}` stores the pairs in order |
| `Json.UpdatesEveryKey` | StereoStream/ZED_StreoStream/cpp/src/main_visionpro.cpp:94 | storing every pair of a map in key order rebuilds it |
| `Json.ClosedEntries` | StereoStream/ZED_StreoStream/cpp/src/main_visionpro.cpp:64-98 | in the text of clean entries every value is bare or closed, so the loop as written takes the same passes |
| `Json.ParseStringify` | StereoStream/ZED_StreoStream/cpp/src/main_visionpro.cpp:51-153 | `parse(stringify(m)) == m` when no key or value holds a quote, comma, brace or white space |
| `Json.ParseStringifyAsWritten` | StereoStream/ZED_StreoStream/cpp/src/main_visionpro.cpp:51-153 | on those maps the loop exactly as written stops on the text `stringify` writes and gives the map back |
| `Json.TruncatedBody` | StereoStream/ZED_StreoStream/cpp/src/main_visionpro.cpp:55-61 | the command `{"a":"b}`, whose closing quote is missing, is scanned as `"a":"b` |
| `Json.UnterminatedValueLoops` | StereoStream/ZED_StreoStream/cpp/src/main_visionpro.cpp:81-85 | as written, the pass over it sets `pos` back to 0 |
| `Json.UnterminatedValueNeverStops` | StereoStream/ZED_StreoStream/cpp/src/main_visionpro.cpp:64-98 | as written, the loop over it does not stop within any number of passes |
| `Json.UnterminatedValueStep` | StereoStream/ZED_StreoStream/cpp/src/main_visionpro.cpp:81-85 | corrected, the pass reads the pair and reaches the end |
| `Json.UnterminatedValueCorrected` | StereoStream/ZED_StreoStream/cpp/src/main_visionpro.cpp:51-100 | corrected, the command parses to `{a: b}` |
| `AppControl.StateToString` | StereoStream/ZED_StreoStream/cpp/src/main_visionpro.cpp:184-193 | never "unknown" |
| `AppControl.StateNamesDistinct` | StereoStream/ZED_StreoStream/cpp/src/main_visionpro.cpp:184-193 | the five states have five different names |
| `AppControl.DeriveState` | StereoStream/ZED_StreoStream/cpp/src/main_visionpro.cpp:859-867 | the derived state is never `STOPPED` |
| `AppControl.DeriveStateInverse` | StereoStream/ZED_StreoStream/cpp/src/main_visionpro.cpp:855-868 | both flags can be read back from the state |
| `AppControl.DeriveStateOnto` | StereoStream/ZED_StreoStream/cpp/src/main_visionpro.cpp:855-868 | each state but `STOPPED` comes from exactly its own flags |
| `AppControl.NumberedNameInjective` | StereoStream/ZED_StreoStream/cpp/src/main_visionpro.cpp:356 | different counters name different files |
| `AppControl.NextNameFresh` | StereoStream/ZED_StreoStream/cpp/src/main_visionpro.cpp:354-361 | the next candidate has not been tried |
| `AppControl.TriedNamesStep` | StereoStream/ZED_StreoStream/cpp/src/main_visionpro.cpp:354-361 | the tried names grow by one candidate per pass |
| `AppControl.GetUniqueFilename` | StereoStream/ZED_StreoStream/cpp/src/main_visionpro.cpp:347-362 | `path/basename+ext` if free, else `path/basename_N+ext` for the least free N ≥ 1 |
| `AppControl.VideoRecorder.constructor` | StereoStream/ZED_StreoStream/cpp/src/main_visionpro.cpp:342 | not recording |
| `AppControl.VisionProApp.constructor` | StereoStream/ZED_StreoStream/cpp/src/main_visionpro.cpp:537 | the state starts as `IDLE` |
| `AppControl.VisionProApp.UpdateState` | StereoStream/ZED_StreoStream/cpp/src/main_visionpro.cpp:855-868 | streaming ⇔ sender running, recording ⇔ recorder recording, with the four-way table |
| `PosePacket.Encode` | Unity3D_Code/socket_udp.cs:123-125 | the packet is 4 + 8 + 4·(left+right+head) + 4 bytes |
| `PosePacket.EncodeSize` | Unity3D_Code/socket_udp.cs:124-125 | 182/182/7 words give 1500 bytes |
| `PosePacket.EncodeLayout` | Unity3D_Code/socket_udp.cs:127-153 | `HND0` at [0,4), the timestamp at [4,12), left, right and head words at consecutive 4-byte offsets, `HND1` last |
| `PosePacket.MagicBytes` | Unity3D_Code/socket_udp.cs:118-119 | the two magics overlap in no shifted position |
| `PosePacket.MagicsDisjoint` | XRHandReceiver.py:158 | text passing both magic tests has at least 8 bytes |
| `Deque.Append` | XRHandReceiver.py:19 | append on a bounded deque keeps the newest `maxlen` items |
| `Deque.SingleSlot` | XRHandReceiver.py:88-89 | with `maxlen=1` the slot holds exactly the new item, whatever it held |
| `UnityServer.Zeros` | Unity3D_Code/socket_udp.cs:160 | a fresh float array is all +0.0f |
| `UnityServer.Count` | Unity3D_Code/socket_udp.cs:181-184 | no more present bones than bones |
| `UnityServer.Present` | Unity3D_Code/socket_udp.cs:181-198 | seven words per present bone, none for a null one |
| `UnityServer.HandArray` | Unity3D_Code/socket_udp.cs:157-201 | the hand array has 182 entries |
| `UnityServer.HandArrayShape` | Unity3D_Code/socket_udp.cs:160-198 | all zeros without a skeleton, bone list or 26 bones; else the wrist pose, then 7 words per present bone in order, then zeros |
| `UnityServer.PresentAllAt` | Unity3D_Code/socket_udp.cs:181-198 | with no null bone, bone j fills words [7j, 7j+7) |
| `UnityServer.PresentAllCount` | Unity3D_Code/socket_udp.cs:181-184 | with no null bone every bone is counted |
| `UnityServer.HandArrayTracked` | Unity3D_Code/socket_udp.cs:165-198 | for a fully tracked hand joint j sits at [7j, 7j+7) as its pose relative to the wrist |
| `UnityServer.WriteBones` | Unity3D_Code/socket_udp.cs:180-198 | the `ptr` loop leaves wrist pose + present bones + zero tail in the array |
| `UnityServer.GetHandArray` | Unity3D_Code/socket_udp.cs:157-201 | the array built in place equals `HandArray` |
| `UnityServer.HeadArray` | Unity3D_Code/socket_udp.cs:37-56 | seven entries |
| `UnityServer.GetHeadsetPoseArray` | Unity3D_Code/socket_udp.cs:37-56 | seven entries, all zero without a rig or anchor, else the anchor pose |
| `UnityServer.CopyFloats` | Unity3D_Code/socket_udp.cs:132-136 | one loop writes the array's words at `ptr`, advances `ptr` by 4 per float, and touches nothing else |
| `UnityServer.WritePacket` | Unity3D_Code/socket_udp.cs:127-151 | the payload is `HND0`, timestamp, left, right, head words, `HND1`, and the final `ptr` is its length |
| `UnityServer.PrepareHandDataPacket` | Unity3D_Code/socket_udp.cs:111-154 | the packet is `Encode` of the three arrays, or the exception of `GetHandArray` |
| `UnityServer.IsPing` | Unity3D_Code/socket_udp.cs:66-67 | the ASCII text starts with `ping`, a test on the first four bytes |
| `UnityServer.Registered` | Unity3D_Code/socket_udp.cs:67-75 | a ping sets its sender's time to now; any other datagram and every other client are untouched |
| `UnityServer.Expired` | Unity3D_Code/socket_udp.cs:96-101 | the clients collected as expired are in the table, and every client whose last ping is more than `timeout` old is among them |
| `UnityServer.Swept` | Unity3D_Code/socket_udp.cs:102-108 | removing the expired clients keeps no client that was not in the table |
| `UnityServer.SweptSpec` | Unity3D_Code/socket_udp.cs:96-108 | the sweep removes exactly the clients with now − ts > timeout, keeps the others' times, and is idempotent |
| `UnityServer.PingSurvivesSweep` | Unity3D_Code/socket_udp.cs:58-108 | a client that just pinged survives a sweep at the same time |
| `UnityServer.XRHandMultiClientServer.constructor` | Unity3D_Code/socket_udp.cs:16-20 | an empty client table |
| `UnityServer.XRHandMultiClientServer.OnDatagram` | Unity3D_Code/socket_udp.cs:64-75 | the table becomes `Registered`; "new" exactly for a ping from an unknown endpoint |
| `UnityServer.XRHandMultiClientServer.Update` | Unity3D_Code/socket_udp.cs:93-109 | collecting then removing the expired keys leaves `Swept` |
| `XRHandReceiver.Slice` | XRHandReceiver.py:160-164 | slicing an accepted packet never rejects it |
| `XRHandReceiver.Parse` | XRHandReceiver.py:156-164 | None exactly on missing data, wrong length or a wrong magic; the timestamp is bytes [4,12) |
| `XRHandReceiver.ParseAsWritten` | XRHandReceiver.py:98-177 | `parse` as written: rejects what `Parse` rejects, and a pose it returns is `Parse`'s, with no zero wrist or head quaternion |
| `XRHandReceiver.AsWrittenAgrees` | XRHandReceiver.py:156-195 | `parse` as written differs from `Parse` only by raising on a zero wrist or head quaternion |
| `XRHandReceiver.ParseAccepted` | XRHandReceiver.py:158-164 | with 1500 bytes an accepted packet gives 182/182/7 words and encodes back to itself |
| `XRHandReceiver.ToWordsInverse` | XRHandReceiver.py:161 | writing the words read from a byte string gives the string back |
| `XRHandReceiver.ParseEncode` | XRHandReceiver.py:156-195 | parsing the encoding of a well-sized pose gives the pose back |
| `XRHandReceiver.Received` | XRHandReceiver.py:86 | `recvfrom(8192)` keeps at most the first 8192 bytes, as on Linux (see Left out) |
| `XRHandReceiver.Receiver.constructor` | XRHandReceiver.py:11-22 | not connected, empty slot |
| `XRHandReceiver.Receiver.Connect` | XRHandReceiver.py:56-62 | connected; the slot is untouched |
| `XRHandReceiver.Receiver.Get` | XRHandReceiver.py:93-96 | the newest packet, or None exactly when the slot is empty |
| `XRHandReceiver.Receiver.ReceiveStep` | XRHandReceiver.py:80-91 | after a datagram while connected `get` returns exactly it; a timeout or no connection changes nothing |
| `XRHandReceiver.BoneIndexsPartition` | XRHandReceiver.py:39-47 | the parts list joints 0..25 once each, in order |
| `XRHandReceiver.BoneIndexsInRange` | XRHandReceiver.py:39-47 | every listed joint is below 26 |
| `XRHandReceiver.PyIndex` | XRHandReceiver.py:131 | Python list indexing, negative indices from the end, an error outside |
| `XRHandReceiver.FingerLookup` | XRHandReceiver.py:113-136 | None exactly for an unknown part or bone or an index past the list; else the slice starts at 7·joint, lies inside the 182 words and is the joint's pos and quat |
| `Coordinates.FrameChangeIsRotation` | XRHandReceiver.py:23-27 | `RM_U2R` is a signed permutation with RM·RMᵀ = RMᵀ·RM = I |
| `Coordinates.PositionToRobot` | XRHandReceiver.py:103 | (x, y, z) becomes (z, −x, y), and `RM_U2R.T` maps it back |
| `Coordinates.RotationToRobot` | XRHandReceiver.py:110 | RM·R·RMᵀ has rows R₂, −R₀, R₁, each converted like a position |
| `Coordinates.DotToRobot` | XRHandReceiver.py:103 | converting positions keeps dot products |
| `Coordinates.ApplyToRobot` | XRHandReceiver.py:103-110 | a point rotated in Unity converts to the converted rotation of the converted point |
| `Coordinates.RotationToRobotHomomorphism` | XRHandReceiver.py:110 | the conversion commutes with transposition and products and keeps the identity |
| `Coordinates.RotationToRobotOrthogonal` | XRHandReceiver.py:110 | it maps rotations to rotations |
| `Coordinates.RotationToRobotInverse` | XRHandReceiver.py:110 | RMᵀ·(RM·R·RMᵀ)·RM gives R back |
| `Retarget.Wrap360` | XRHandReceiver.py:238-239 | `angle % 2π` lies in [0, 360) and is the identity there |
| `Retarget.WrapPeriodic` | XRHandReceiver.py:238-239 | whole turns do not change it |
| `Retarget.Clamp0` | XRHandReceiver.py:242-247 | into [−10, 60], identity inside, saturating at both ends |
| `Retarget.Clamp1` | XRHandReceiver.py:249-256 | above 270 or below 0 gives 0; into [0, 50], identity inside |
| `Retarget.Clamp2` | XRHandReceiver.py:258-265 | above 270 or below 0 gives 0; (180, 270] gives 180; identity on [0, 180] |
| `Retarget.ClampsIdempotent` | XRHandReceiver.py:242-265 | each clamp is idempotent |
| `Retarget.ThumbBase` | XRHandReceiver.py:291-300 | the thumb-base angle lies in [0, 60] |
| `Retarget.FingerBend` | XRHandReceiver.py:304-311 | a finger bend lies in [0, 180] |
| `Retarget.JointAngles` | XRHandReceiver.py:291-316 | the angle vector has six entries within [0,60], [0,50] and four times [0,180] |
| `Retarget.ThumbBaseBands` | XRHandReceiver.py:291-300 | for each hand, which arctangents pass through and which saturate at 60 |
| `Retarget.FingerBendBands` | XRHandReceiver.py:304-311 | a finger bend is −y on [−180, 0], 0 on (0, 90), 180 on [90, 180] |
| `Retarget.ThumbBendBands` | XRHandReceiver.py:293-301 | the thumb bend is −y on [−50, 0], 0 for positive y, 50 below −50 |
| `Retarget.Normalise` | XRHandReceiver.py:318 | component i is the angle divided by (70, 50, 180, 180, 180, 180)ᵢ |
| `Retarget.NormalisedBounds` | XRHandReceiver.py:300-318 | normalised thumb base in [0, 6/7], the rest in [0, 1] |
| `Retarget.Lookups` | XRHandReceiver.py:275-286 | six lookups |
| `Retarget.SelectedJoints` | XRHandReceiver.py:268-286 | left/right select joints 3, 5, 10, 15, 20, 25; any other hand type finds none |
| `Retarget.Convert` | XRHandReceiver.py:197-320 | raises exactly for a bad hand type or an unconvertible joint; else the clamped angles and their normalisation |
| `Retarget.ConvertRaisesOnZeroQuaternion` | XRHandReceiver.py:98-111 | on a full-size packet it raises exactly when a selected joint's quaternion is all zeros |
| `ViewerReceiver.Split` | hand_tracking_udp_receiver.py:223-231 | rejected exactly on a wrong length or magic; else words [0,182), [182,364), [364,371) and timestamp bytes [4,12) |
| `ViewerReceiver.SplitAgreesWithReceiver` | hand_tracking_udp_receiver.py:217-231 | the viewer and `XRHandReceiver.parse` (1500 bytes) accept and split the same packets alike |
| `ViewerReceiver.SplitEncode` | hand_tracking_udp_receiver.py:226-231 | an accepted packet is the encoding of what it splits into |
| `ViewerReceiver.Viewer.constructor` | hand_tracking_udp_receiver.py:28 | an empty slot |
| `ViewerReceiver.Viewer.ReceiveStep` | hand_tracking_udp_receiver.py:41-48 | after a datagram the slot holds exactly it; an exception changes nothing |
| `ViewerReceiver.Draw` | hand_tracking_udp_receiver.py:136-236 | `update_hand` twice, then `update_head`: drawn exactly when no wrist, joint or head quaternion is zero; otherwise `from_quat` raises after the updates before it |
| `ViewerReceiver.Viewer.Update` | hand_tracking_udp_receiver.py:217-236 | nothing on an empty slot; otherwise the packet is popped (never drawn twice), skipped when it fails the check, else split and passed to `Draw`, which draws it or raises |
| `ViewerReceiver.JointWordsAt` | hand_tracking_udp_receiver.py:171-172 | joint j's position and quaternion are words [7j, 7j+7) |
| `ViewerReceiver.WalkBones` | hand_tracking_udp_receiver.py:169-178 | the `ptr` walk reads joints 1..25 in order |
| `ViewerReceiver.WalkMatchesLookup` | hand_tracking_udp_receiver.py:169-172 | the viewer reads each joint where `get_finger_robotTM_by_parsed` does |
| `ViewerReceiver.BoneConnectionShape` | hand_tracking_udp_receiver.py:62-69 | 29 segments among joints 0..25, the first 25 a tree giving each joint an earlier parent |
| `PoseRoundTrip.SentPose` | Unity3D_Code/socket_udp.cs:114-121 | the pose sent is well sized and carries the timestamp |
| `PoseRoundTrip.SentPacketRoundTrip` | Unity3D_Code/socket_udp.cs:111-154 | every packet sent is 1500 bytes, parsed by both consumers into the arrays it was built from |
| `PoseRoundTrip.UntrackedHandAsWritten` | XRHandReceiver.py:105-110 | `parse` as written raises on the packet for a hand without skeleton |
| `PoseRoundTrip.UntrackedHandViewer` | hand_tracking_udp_receiver.py:136-174 | the viewer accepts the packet for an untracked hand and then raises in `update_hand` before drawing anything |
| `PoseRoundTrip.UntrackedHandCorrected` | XRHandReceiver.py:156-164 | the corrected `Parse` accepts it and returns the zero hand array |

## Left out

- Sockets, threads, locks, sleeps and condition-variable waits. Each loop
  is modelled as the effect of one pass on its state: `ReceiveStep`,
  `WorkerStep`, `OnDatagram`, `Update`.
- The ping loops (`_ping_loop` in XRHandReceiver.py, `ping_loop` in
  hand_tracking_udp_receiver.py): they only send `"ping"` every 0.5 s.
- `FixedUpdate` (socket_udp.cs:85-91): it only sends the packet to every
  client in the table. Sockets are out of scope, and the dictionary's
  enumeration order is unspecified.
- Floating point. Floats are opaque 4-byte words and the timestamp an
  opaque 8-byte word; their byte order is the platform's on both ends.
- The pose arithmetic is left to parameters: Unity's wrist-relative pose
  (`Quaternion.Inverse`, the `Relative` parameter), the arctangents,
  `as_matrix` and the 4×4 inverse of the retargeter (`measure`), and
  `stof` (a parameter of `GetFloat`).
- The frame change is modelled on exact reals, not on floats.
- `convert_unity_pose_to_robot` is modelled only through its parts: the
  frame change and the zero-quaternion exception.
  `get_head_robotTM_by_parsed` and the 4×4 matrix assembly are float
  arithmetic and are not modelled.
- `XRHandReceiver.update_hand`: it uses undefined names and cannot run.
- The viewer's `recover_world_pose` and all plotting are left out. Only
  the indexing of the `update_hand` walk and the `from_quat` calls of
  `update_hand` and `update_head` are modelled.
- Image processing: `cv2.resize`, `cvtColor` and `imencode` are
  parameters (`resize`, `toBgr`, `encode`).
- Out of scope entirely: camera acquisition, `VideoWriter`, the
  `ControlServer` TCP plumbing, `sendStereoParams`, `handleCommand`, the
  example scripts and XRHandVisualizer.py.
- Clocks are parameters: `Time.time` is `now`, and the `DateTime.UtcNow`
  timestamp is `ts`.
- `UnityServer.XRHandMultiClientServer.OnDatagram`: the model assumes that
  reading `Time.time` on the listener thread succeeds. `ListenForClients`
  runs on a background thread (socket_udp.cs:30-32). Unity restricts
  `Time.time` to the main thread and can throw `UnityException` there,
  which the `SocketException` handler (socket_udp.cs:77) does not catch.
  That would end the listener with no client registered;
  `UnityServer.PingSurvivesSweep` rests on the same assumption.
- `UnityServer.Registered`: `msg.StartsWith("ping")` is modelled as a
  byte-prefix test. The culture-sensitive comparison .NET performs, which
  can skip ignorable characters, is not modelled.
- `UnityServer.XRHandMultiClientServer.Update`: Unity's `float` time is
  modelled as a real, and the sweep is not concurrent with
  `ListenForClients` (`ConcurrentDictionary` races are out of scope).
- `ZedSender.UdpImageSender.Open`: it requires a positive `max_payload` and
  no joinable worker thread. A zero `max_payload` makes `sendPackets`
  divide by zero, which is undefined. Assigning over a joinable
  `std::thread` calls `std::terminate`. Both requires hold at the only call
  site: main_visionpro.cpp:709-710 opens a freshly made sender, and
  `max_payload` keeps its default of 1400 (main_visionpro.cpp:162).
- `ZedSender.UdpImageSender.SendPackets`: it requires a positive
  `max_payload`, for the same division.
- `ZedSender.UdpImageSender.WorkerStep`: the 100 ms wait and the
  notifications are not modelled.
- `AppControl.GetUniqueFilename`: `fs::exists` is a fixed set of existing
  names, and the overflow of the `int` counter past 2^31 − 1 is not
  modelled.
- `Json.Unbrace`: `s.front()`/`s.back()` on an empty string is undefined
  behaviour in C++; the model leaves the empty string unchanged.
- `Retarget.Convert`: only the discrete part is stated. The value of each
  arctangent is the `measure` parameter; the joint selection, the wrap,
  the clamps, the normalisation and the exceptions are modelled.
- `Json.Parse`: it computes the corrected reading of the loop, in which
  `Json.Step` and `Json.ScanValue` read an unterminated quoted value to the
  end of the text. As written, the loop never stops on such a text (see
  Findings). `Json.RunAsWritten` is the loop as written,
  `Json.StepAgrees` states where a pass differs, and
  `Json.RunAsWrittenAgrees` shows that both compute `ParseSpec` on every
  text whose quoted values are closed.
- `Json.Step`: the corrected pass; see `Json.Parse`.
- `Json.ScanValue`: the corrected value scan; see `Json.Parse`.
- `XRHandReceiver.Received`: on Linux a longer datagram is truncated to
  8192 bytes. On Windows `recvfrom` raises instead (`WSAEMSGSIZE`), and
  `except Exception: pass` (XRHandReceiver.py:90-91) drops the datagram,
  leaving the slot unchanged. The Windows behaviour is not modelled.
- `ViewerReceiver.Viewer.Update`: what happens after `update()` raises is
  up to the Qt timer that calls it, and is not modelled.
- `XRHandReceiver.Parse`: this is the corrected reading of `parse`
  (see Findings). `XRHandReceiver.ParseAsWritten` is the code as written,
  and `XRHandReceiver.AsWrittenAgrees` states where the two differ.

## Findings

| source | as written | input that shows it | evidently intended | confidence | as-written member | corrected member |
|---|---|---|---|---|---|---|
| StereoStream/ZED_StreoStream/cpp/src/main_visionpro.cpp:81-85 | for a quoted value without a closing quote, `val_end` is `npos` and `pos = val_end + 1` wraps to 0, so the loop rescans from the start forever | the command text `{"a":"b}` (the closing quote of the value is missing) | the value runs to the end of the text and parsing ends with `{a: b}` | high (not executed) | `Json.UnterminatedValueNeverStops` | `Json.UnterminatedValueCorrected` |
| XRHandReceiver.py:105-110 | a zero quaternion is reported with a warning and then passed to `Rotation.from_quat`, which raises `ValueError` on a zero norm, so `parse` raises | the headset's packet for a hand whose skeleton is absent or has fewer than 26 bones: its array is all zeros (Unity3D_Code/socket_udp.cs:162-163) | `parse` returns the zero hand array after the warning | medium (not executed) | `PoseRoundTrip.UntrackedHandAsWritten` | `PoseRoundTrip.UntrackedHandCorrected` |
