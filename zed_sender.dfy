/** The C++ frame sender `UdpImageSender` of
    StereoStream/ZED_StreoStream/cpp/src/main_visionpro.cpp: a one-slot frame
    queue ("keep only the newest frame"), open/close flags, and `sendPackets`,
    which fills a datagram buffer per fragment. */
module ZedSender {
  import opened Wire
  import opened Fragment

  /** The fields of `StreamConfig` the sender reads. */
  datatype StreamConfig = StreamConfig(
    targetIp: string, targetPort: int, width: int, height: int,
    maxPayload: int, jpegQuality: int, fps: int, streamingEnabled: bool)

  /** The defaults of `StreamConfig`. */
  const DefaultConfig: StreamConfig := StreamConfig("", 9003, 640, 480, 1400, 50, 30, false)

  /** A `cv::Mat` as far as the sender looks at it. */
  datatype Mat = Mat(cols: int, rows: int, channels: int, pixels: bytes)

  /** `uint16_t total_packets = ceil(len / max)`: the count truncated to 16 bits. */
  function PacketCount(len: nat, maxPayload: nat): (t: nat)
    requires maxPayload > 0
    ensures t < TwoTo16
  {
    CeilDiv(len, maxPayload) % TwoTo16
  }

  /** The datagrams `sendPackets` emits for `data` under frame id `fid`. */
  function CppDatagrams(fid: int, data: bytes, maxPayload: nat): (ds: seq<bytes>)
    requires maxPayload > 0 && 0 <= fid < TwoTo32
    ensures |ds| == PacketCount(|data|, maxPayload)
  {
    var total := PacketCount(|data|, maxPayload);
    seq(total, i requires 0 <= i < total => Header(fid, i, total) + Chunk(data, maxPayload, i))
  }

  /** Whenever the fragment count fits in 16 bits, the C++ sender emits exactly
      the datagrams of the shared fragment format (and so the same ones as the
      Python sender). */
  lemma CppDatagramsAgree(fid: int, data: bytes, maxPayload: nat)
    requires maxPayload > 0 && 0 <= fid < TwoTo32
    requires CeilDiv(|data|, maxPayload) < TwoTo16
    ensures CppDatagrams(fid, data, maxPayload) == Datagrams(fid, data, maxPayload)
  {
  }

  /** A frame that needs exactly 2^16 fragments wraps the 16-bit count to 0, so
      nothing at all is sent for it. */
  lemma CountWraps(fid: int, data: bytes)
    requires 0 <= fid < TwoTo32 && |data| == TwoTo16
    ensures CppDatagrams(fid, data, 1) == []
  {
    assert CeilDiv(|data|, 1) == TwoTo16;
  }

  /** One iteration of the `sendPackets` loop: header and chunk `idx` are
      written into `buf`, and the first `8 + chunk_size` bytes are sent. */
  method FillPacket(buf: array<byte>, fid: int, idx: nat, total: nat, data: bytes, maxPayload: nat)
    returns (packet: bytes)
    requires maxPayload > 0 && buf.Length == 8 + maxPayload
    requires 0 <= fid < TwoTo32 && idx < total < TwoTo16 && total <= CeilDiv(|data|, maxPayload)
    modifies buf
    ensures packet == Header(fid, idx, total) + Chunk(data, maxPayload, idx)
  {
    var start := idx * maxPayload;
    ChunkSize(data, maxPayload, idx);
    var end := Min(start + maxPayload, |data|);
    var chunkSize := end - start;
    CopyInto(buf, 0, U32BE(fid));
    CopyInto(buf, 4, U16BE(idx));
    CopyInto(buf, 6, U16BE(total));
    CopyInto(buf, 8, data[start..end]);
    assert buf[..8] == buf[..4] + buf[4..6] + buf[6..8];
    assert buf[..8 + chunkSize] == buf[..8] + buf[8..8 + chunkSize];
    packet := buf[..8 + chunkSize];
  }

  class UdpImageSender {
    var config: StreamConfig
    /** `sock_fd_`; negative when there is no socket. */
    var sockFd: int
    /** `frame_id_`, an atomic uint32_t. */
    var frameId: int
    var connected: bool
    var stopFlag: bool
    /** Whether `worker_thread_` is joinable. */
    var workerStarted: bool
    /** `frame_queue_`. */
    var frameQueue: seq<Mat>
    /** Every datagram passed to `send` so far, in order. */
    var sent: seq<bytes>

    ghost predicate Valid()
      reads this
    {
      && 0 <= frameId < TwoTo32
      && (workerStarted ==> config.maxPayload > 0)
      && |frameQueue| <= 1
    }

    /** `isRunning()`. */
    predicate IsRunning()
      reads this
    {
      !stopFlag && connected
    }

    constructor ()
      ensures Valid()
      ensures sockFd == -1 && frameId == 0 && !connected && stopFlag && !workerStarted
      ensures frameQueue == [] && sent == [] && config == DefaultConfig
    {
      config := DefaultConfig;
      sockFd, frameId, connected, stopFlag := -1, 0, false, true;
      workerStarted, frameQueue, sent := false, [], [];
    }

    /** `open(config)`. `fd` is what `socket()` returned and `connectOk` whether
        `::connect` succeeded. A positive max payload is required because
        `sendPackets` divides by it; a thread still joinable may not be
        replaced (std::terminate). */
    method Open(cfg: StreamConfig, fd: int, connectOk: bool) returns (ok: bool)
      requires Valid() && cfg.maxPayload > 0 && !workerStarted
      modifies this
      ensures Valid()
      ensures config == cfg && frameId == old(frameId) && frameQueue == old(frameQueue) && sent == old(sent)
      ensures ok == (fd >= 0 && connectOk)
      ensures fd < 0 ==> sockFd == fd && connected == old(connected) && stopFlag == old(stopFlag) && !workerStarted
      ensures fd >= 0 && !connectOk ==> sockFd == -1 && connected == old(connected) && stopFlag == old(stopFlag) && !workerStarted
      ensures ok ==> sockFd == fd && connected && !stopFlag && workerStarted && IsRunning()
    {
      config := cfg;
      sockFd := fd;
      if sockFd < 0 {
        return false;
      }
      if !connectOk {
        sockFd := -1;
        return false;
      }
      connected, stopFlag, workerStarted := true, false, true;
      ok := true;
    }

    /** `close()`: stop, join the worker, close the socket. Safe without open()
        and idempotent; afterwards the sender is not running. */
    method Close()
      requires Valid()
      modifies this
      ensures Valid()
      ensures stopFlag && !workerStarted && !connected && !IsRunning()
      ensures sockFd == (if old(sockFd) >= 0 then -1 else old(sockFd))
      ensures config == old(config) && frameId == old(frameId) && frameQueue == old(frameQueue) && sent == old(sent)
    {
      stopFlag := true;
      if workerStarted {
        workerStarted := false;
      }
      if sockFd >= 0 {
        sockFd := -1;
      }
      connected := false;
    }

    /** `sendImage(img)`: when running, the queue is emptied and then holds
        exactly the new frame; otherwise nothing changes. */
    method SendImage(img: Mat)
      requires Valid()
      modifies this
      ensures Valid()
      ensures frameQueue == if old(IsRunning()) then [img] else old(frameQueue)
      ensures config == old(config) && sockFd == old(sockFd) && frameId == old(frameId)
      ensures connected == old(connected) && stopFlag == old(stopFlag)
      ensures workerStarted == old(workerStarted) && sent == old(sent)
    {
      if stopFlag || !connected {
        return;
      }
      var queue := frameQueue;
      while queue != []
        decreases |queue|
      {
        queue := queue[1..];
      }
      frameQueue := queue + [img];
    }

    /** One pass of `workerLoop` after its wait: take the pending frame, if
        any, bring it to `2*width x height`, drop an alpha channel, encode it
        and send it. `resize`, `toBgr` and `encode` stand for `cv::resize`,
        `cv::cvtColor` and `cv::imencode` (None when encoding fails). */
    method WorkerStep(resize: (Mat, int, int) -> Mat, toBgr: Mat -> Mat, encode: (Mat, int) -> Option<bytes>)
      requires Valid() && workerStarted
      modifies this
      ensures Valid()
      ensures config == old(config) && sockFd == old(sockFd) && connected == old(connected)
      ensures stopFlag == old(stopFlag) && workerStarted == old(workerStarted)
      ensures old(stopFlag) || old(frameQueue) == [] ==>
        frameQueue == old(frameQueue) && frameId == old(frameId) && sent == old(sent)
      ensures !old(stopFlag) && old(frameQueue) != [] ==>
        && frameQueue == old(frameQueue)[1..]
        && var img := old(frameQueue)[0];
           var sized := if img.cols != 2 * config.width || img.rows != config.height
                        then resize(img, 2 * config.width, config.height) else img;
           var bgr := if sized.channels == 4 then toBgr(sized) else sized;
           match encode(bgr, config.jpegQuality)
           case None => frameId == old(frameId) && sent == old(sent)
           case Some(jpeg) =>
             && frameId == (old(frameId) + 1) % TwoTo32
             && sent == old(sent) + CppDatagrams(old(frameId), jpeg, config.maxPayload)
    {
      if stopFlag || frameQueue == [] {
        return;
      }
      var img := frameQueue[0];
      frameQueue := frameQueue[1..];
      if img.cols != 2 * config.width || img.rows != config.height {
        img := resize(img, 2 * config.width, config.height);
      }
      var bgr := img;
      if img.channels == 4 {
        bgr := toBgr(img);
      }
      var jpeg := encode(bgr, config.jpegQuality);
      if jpeg.None? {
        return;
      }
      SendPackets(jpeg.value);
    }

    /** `sendPackets(data)`: takes the next frame id (wrapping at 2^32) and sends
        one datagram per fragment, each built in the same `8 + max` byte buffer. */
    method SendPackets(data: bytes)
      requires Valid() && config.maxPayload > 0
      modifies `frameId, `sent
      ensures Valid()
      ensures frameId == (old(frameId) + 1) % TwoTo32
      ensures sent == old(sent) + CppDatagrams(old(frameId), data, config.maxPayload)
    {
      var fid := frameId;
      frameId := (frameId + 1) % TwoTo32;
      var maxPayload := config.maxPayload;
      var total := PacketCount(|data|, maxPayload);
      var packetBuf := new byte[8 + maxPayload];
      ghost var expected := CppDatagrams(fid, data, maxPayload);
      assert total <= CeilDiv(|data|, maxPayload) by {
        CeilDivBounds(|data|, maxPayload);
      }
      for idx := 0 to total
        invariant frameId == (old(frameId) + 1) % TwoTo32
        invariant sent == old(sent) + expected[..idx]
      {
        var packet := FillPacket(packetBuf, fid, idx, total, data, maxPayload);
        sent := sent + [packet];
        assert expected[..idx + 1] == expected[..idx] + [expected[idx]];
      }
      assert expected[..total] == expected;
    }
  }
}
