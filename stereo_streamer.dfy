/** The Python frame sender `UdpImageSender` of StereoStream/StereoStreamer.py:
    a socket lifecycle (open, connect, close) and `send_image`, which encodes
    an image, numbers it with a frame id and sends it as fragments. */
module StereoStreamer {
  import opened Wire
  import opened Fragment

  /** An image as handed to `send_image`: its shape and its pixel bytes. */
  datatype Image = Image(width: int, height: int, pixels: bytes)

  /** What `sock.send` / `sock.sendto` were called with. */
  datatype Send =
    | SendConnected(datagram: bytes)
    | SendTo(datagram: bytes, ip: string, port: int)

  /** The exceptions `send_image` and `connect` can raise. */
  datatype SendError =
    | NoSocket          // RuntimeError: open() was not called
    | EncodeFailed      // RuntimeError: cv2.imencode reported failure
    | ZeroPayload       // ValueError from range(0, len, 0)
    | HeaderOverflow    // struct.error: idx or total does not fit '!IHH'
    | NotConnected      // OSError: send() on a socket that open() replaced after connect()

  datatype Outcome = Pass | Fail(error: SendError)

  /** The datagrams of one frame, as the calls the sender makes for them. */
  function Sends(ds: seq<bytes>, connected: bool, ip: string, port: int): (r: seq<Send>)
    ensures |r| == |ds|
    ensures forall i :: 0 <= i < |ds| ==>
      r[i] == if connected then SendConnected(ds[i]) else SendTo(ds[i], ip, port)
  {
    seq(|ds|, i requires 0 <= i < |ds| =>
      if connected then SendConnected(ds[i]) else SendTo(ds[i], ip, port))
  }

  class UdpImageSender {
    const ip: string
    const port: int
    const width: int
    const height: int
    const maxPayload: int
    const jpegQuality: int

    /** `self.sock is not None`. */
    var sockOpen: bool
    /** Whether the current socket object has been `connect()`ed. */
    var sockConnected: bool
    /** `self.connected`. */
    var connected: bool
    /** `self.frame_id`, an unbounded Python int. */
    var frameId: nat
    /** Every datagram handed to the socket so far, in order. */
    var sent: seq<Send>

    ghost predicate Valid()
      reads this
    {
      (sockConnected ==> connected && sockOpen) && (connected ==> sockOpen)
    }

    constructor (ip: string, port: int, width: int, height: int, maxPayload: int, jpegQuality: int)
      ensures Valid()
      ensures this.ip == ip && this.port == port && this.width == width && this.height == height
      ensures this.maxPayload == maxPayload && this.jpegQuality == jpegQuality
      ensures !sockOpen && !sockConnected && !connected && frameId == 0 && sent == []
    {
      this.ip, this.port, this.width, this.height := ip, port, width, height;
      this.maxPayload, this.jpegQuality := maxPayload, jpegQuality;
      sockOpen, sockConnected, connected := false, false, false;
      frameId, sent := 0, [];
    }

    /** `open()` creates a fresh, unconnected socket; the `connected` flag is left as it was. */
    method Open()
      requires Valid()
      modifies this
      ensures Valid()
      ensures sockOpen && !sockConnected && connected == old(connected)
      ensures frameId == old(frameId) && sent == old(sent)
    {
      sockOpen, sockConnected := true, false;
    }

    /** `connect()` fails before touching the network when there is no socket. */
    method Connect() returns (r: Outcome)
      requires Valid()
      modifies this
      ensures Valid()
      ensures r == (if old(sockOpen) then Pass else Fail(NoSocket))
      ensures old(sockOpen) ==> sockOpen && sockConnected && connected
      ensures !old(sockOpen) ==> sockOpen == old(sockOpen) && sockConnected == old(sockConnected) && connected == old(connected)
      ensures frameId == old(frameId) && sent == old(sent)
    {
      if !sockOpen {
        return Fail(NoSocket);
      }
      sockConnected, connected := true, true;
      r := Pass;
    }

    /** `close()` drops the socket and the connection; without a socket it does nothing. */
    method Close()
      requires Valid()
      modifies this
      ensures Valid()
      ensures !sockOpen && !sockConnected
      ensures connected == (old(connected) && !old(sockOpen))
      ensures frameId == old(frameId) && sent == old(sent)
    {
      if sockOpen {
        sockOpen, sockConnected, connected := false, false, false;
      }
    }

    /** `send_image(img)`. `resize` and `encode` stand for `cv2.resize` and
        `cv2.imencode` (None when encoding fails). */
    method SendImage(img: Image, resize: (Image, int, int) -> Image, encode: (Image, int) -> Option<bytes>)
      returns (r: Outcome)
      requires Valid()
      modifies this
      ensures Valid()
      ensures sockOpen == old(sockOpen) && sockConnected == old(sockConnected) && connected == old(connected)
      ensures var prepared := if img.width == width && img.height == height then img else resize(img, width, height);
        var encoded := encode(prepared, jpegQuality);
        && (!old(sockOpen) ==> r == Fail(NoSocket) && frameId == old(frameId) && sent == old(sent))
        && (old(sockOpen) && encoded.None? ==> r == Fail(EncodeFailed) && frameId == old(frameId) && sent == old(sent))
        && (old(sockOpen) && encoded.Some? ==>
              && frameId == old(frameId) + 1
              && (if maxPayload == 0 then r == Fail(ZeroPayload) && sent == old(sent)
                  else if maxPayload < 0 then r == Pass && sent == old(sent)
                  else FrameOutcome(encoded.value, old(frameId) % TwoTo32, old(sent), r)))
    {
      if !sockOpen {
        return Fail(NoSocket);
      }
      var prepared := img;
      if img.width != width || img.height != height {
        prepared := resize(img, width, height);
      }
      var encoded := encode(prepared, jpegQuality);
      if encoded.None? {
        return Fail(EncodeFailed);
      }
      var data := encoded.value;
      var fid := frameId % TwoTo32;
      frameId := frameId + 1;
      if maxPayload == 0 {
        return Fail(ZeroPayload);
      }
      if maxPayload < 0 {
        // range(0, len(data), max_payload) with a negative step is empty
        return Pass;
      }
      r := SendChunks(fid, data);
    }

    /** The send loop of `send_image` over `Chunks(data, max_payload)`. */
    method SendChunks(fid: int, data: bytes) returns (r: Outcome)
      requires Valid() && maxPayload > 0 && 0 <= fid < TwoTo32
      modifies `sent
      ensures FrameOutcome(data, fid, old(sent), r)
    {
      var chunks := Chunks(data, maxPayload);
      var total := |chunks|;
      for idx := 0 to total
        invariant idx == 0 ==> sent == old(sent)
        invariant idx > 0 ==> total < TwoTo16 && (connected ==> sockConnected)
        invariant total < TwoTo16 ==>
          sent == old(sent) + Sends(Datagrams(fid, data, maxPayload)[..idx], connected, ip, port)
      {
        if total >= TwoTo16 {
          return Fail(HeaderOverflow);
        }
        var packet := Header(fid, idx, total) + chunks[idx];
        ghost var ds := Datagrams(fid, data, maxPayload);
        assert packet == ds[idx];
        if connected {
          if !sockConnected {
            return Fail(NotConnected);
          }
          sent := sent + [SendConnected(packet)];
        } else {
          sent := sent + [SendTo(packet, ip, port)];
        }
        assert ds[..idx + 1] == ds[..idx] + [packet];
      }
      if total < TwoTo16 {
        assert Datagrams(fid, data, maxPayload)[..total] == Datagrams(fid, data, maxPayload);
      }
      r := Pass;
    }

    /** How the send loop for `data` under header frame id `fid` ends: it sends
        the frame's datagrams (none for empty data) unless their count overflows
        the u16 header field or the socket was replaced after connect, in which
        case it raises before sending anything. */
    ghost predicate FrameOutcome(data: bytes, fid: int, before: seq<Send>, r: Outcome)
      requires maxPayload > 0 && 0 <= fid < TwoTo32
      reads this
    {
      if CeilDiv(|data|, maxPayload) == 0 then r == Pass && sent == before
      else if CeilDiv(|data|, maxPayload) >= TwoTo16 then r == Fail(HeaderOverflow) && sent == before
      else if connected && !sockConnected then r == Fail(NotConnected) && sent == before
      else r == Pass && sent == before + Sends(Datagrams(fid, data, maxPayload), connected, ip, port)
    }
  }
}
