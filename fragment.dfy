/** Fragmentation of one encoded frame into UDP datagrams, shared by the
    Python sender (StereoStreamer.py) and the C++ sender (main_visionpro.cpp).
    A datagram is an 8-byte big-endian header {frame_id: u32, idx: u16,
    total: u16} followed by one contiguous chunk of the encoded bytes. */
module Fragment {
  import opened Wire

  /** `ceil(n / d)` for a positive divisor. */
  function CeilDiv(n: nat, d: nat): nat
    requires d > 0
  {
    (n + d - 1) / d
  }

  /** `CeilDiv(n, d)` is the least `q` with `q * d >= n`. */
  lemma CeilDivBounds(n: nat, d: nat)
    requires d > 0
    ensures CeilDiv(n, d) * d >= n
    ensures CeilDiv(n, d) > 0 ==> (CeilDiv(n, d) - 1) * d < n
  {
    var x := n + d - 1;
    var q := x / d;
    assert x == q * d + x % d;
    if q > 0 {
      assert (q - 1) * d == q * d - d;
    }
  }

  function Min(a: int, b: int): int { if a <= b then a else b }

  /** Chunk `k` is the slice `data[k*max : k*max + max]`; like a Python slice it is
      cut short at the end of the data. */
  function Chunk(data: bytes, maxPayload: nat, k: nat): (c: bytes)
  {
    data[Min(k * maxPayload, |data|)..Min(k * maxPayload + maxPayload, |data|)]
  }

  /** The Python comprehension `[data[i:i+max] for i in range(0, len(data), max)]`. */
  function Chunks(data: bytes, maxPayload: nat): (cs: seq<bytes>)
    requires maxPayload > 0
    ensures |cs| == CeilDiv(|data|, maxPayload)
  {
    seq(CeilDiv(|data|, maxPayload),
        k requires 0 <= k < CeilDiv(|data|, maxPayload) => Chunk(data, maxPayload, k))
  }

  lemma MulLe(a: nat, b: nat, d: nat)
    requires a <= b
    ensures a * d <= b * d
  {
    assert b * d == a * d + (b - a) * d;
  }

  /** Chunk `k` has between 1 and max bytes, exactly max unless it is the last. */
  lemma ChunkSize(data: bytes, maxPayload: nat, k: nat)
    requires maxPayload > 0
    requires k < CeilDiv(|data|, maxPayload)
    ensures 1 <= |Chunk(data, maxPayload, k)| <= maxPayload
    ensures k < CeilDiv(|data|, maxPayload) - 1 ==> |Chunk(data, maxPayload, k)| == maxPayload
  {
    var q := CeilDiv(|data|, maxPayload);
    CeilDivBounds(|data|, maxPayload);
    MulLe(k, q - 1, maxPayload);
    if k < q - 1 {
      MulLe(k + 1, q - 1, maxPayload);
      assert (k + 1) * maxPayload == k * maxPayload + maxPayload;
    }
  }

  /** Every chunk has between 1 and max bytes; all but the last have exactly max;
      there are none exactly when the data is empty. */
  lemma ChunkSizes(data: bytes, maxPayload: nat)
    requires maxPayload > 0
    ensures var cs := Chunks(data, maxPayload);
      && (cs == [] <==> data == [])
      && (forall k :: 0 <= k < |cs| ==> 1 <= |cs[k]| <= maxPayload)
      && (forall k :: 0 <= k < |cs| - 1 ==> |cs[k]| == maxPayload)
  {
    var cs := Chunks(data, maxPayload);
    forall k | 0 <= k < |cs|
      ensures 1 <= |cs[k]| <= maxPayload
      ensures k < |cs| - 1 ==> |cs[k]| == maxPayload
    {
      ChunkSize(data, maxPayload, k);
    }
    if data != [] {
      assert |cs| > 0;
    }
  }

  lemma DivUnique(n: int, d: int, q: int, r: int)
    requires d > 0 && 0 <= r < d && n == q * d + r
    ensures n / d == q
  {
    var q' := n / d;
    var r' := n % d;
    assert n == q' * d + r';
    if q' < q {
      assert (q - q') * d >= d by { MulLe(1, q - q', d); }
      assert false;
    } else if q' > q {
      assert (q' - q) * d >= d by { MulLe(1, q' - q, d); }
      assert false;
    }
  }

  lemma CeilDivStep(n: nat, d: nat)
    requires d > 0 && n >= d
    ensures CeilDiv(n, d) == CeilDiv(n - d, d) + 1
  {
    var x := n - d + d - 1;
    var q := x / d;
    assert x == q * d + x % d;
    assert n + d - 1 == (q + 1) * d + x % d;
    DivUnique(n + d - 1, d, q + 1, x % d);
  }

  /** Chunk `k + 1` of the data is chunk `k` of the data after its first max bytes. */
  lemma ChunkShift(data: bytes, maxPayload: nat, k: nat)
    requires maxPayload > 0 && |data| >= maxPayload
    requires k + 1 < CeilDiv(|data|, maxPayload)
    ensures k < CeilDiv(|data| - maxPayload, maxPayload)
    ensures Chunk(data, maxPayload, k + 1) == Chunk(data[maxPayload..], maxPayload, k)
  {
    CeilDivStep(|data|, maxPayload);
    var s2 := k * maxPayload;
    assert (k + 1) * maxPayload == s2 + maxPayload;
    var rest := data[maxPayload..];
    assert Chunk(rest, maxPayload, k) == rest[Min(s2, |rest|)..Min(s2 + maxPayload, |rest|)];
  }

  /** The first chunk is the first max bytes; the rest are the chunks of the remainder. */
  lemma ChunksUnfold(data: bytes, maxPayload: nat)
    requires maxPayload > 0 && |data| > 0
    ensures var n := if maxPayload <= |data| then maxPayload else |data|;
      Chunks(data, maxPayload) == [data[..n]] + Chunks(data[n..], maxPayload)
  {
    var n := if maxPayload <= |data| then maxPayload else |data|;
    var cs := Chunks(data, maxPayload);
    var rest := Chunks(data[n..], maxPayload);
    if n < maxPayload {
      assert CeilDiv(|data|, maxPayload) == 1;
      assert rest == [];
    } else {
      CeilDivStep(|data|, maxPayload);
      assert |cs| == |rest| + 1;
      forall k | 0 <= k < |rest| ensures cs[k + 1] == rest[k] {
        ChunkShift(data, maxPayload, k);
      }
      assert cs[1..] == rest;
    }
    assert cs[0] == data[..n];
    assert cs == [cs[0]] + cs[1..];
  }

  /** The chunks concatenate back to the data. */
  lemma {:induction false} ChunksFlatten(data: bytes, maxPayload: nat)
    requires maxPayload > 0
    ensures Flatten(Chunks(data, maxPayload)) == data
    decreases |data|
  {
    if |data| == 0 {
      assert Chunks(data, maxPayload) == [];
    } else {
      var n := if maxPayload <= |data| then maxPayload else |data|;
      ChunksUnfold(data, maxPayload);
      ChunksFlatten(data[n..], maxPayload);
      var cs := Chunks(data, maxPayload);
      assert cs[1..] == Chunks(data[n..], maxPayload);
      assert data == data[..n] + data[n..];
    }
  }

  // ---------------------------------------------------------------------------
  // Headers and datagrams

  /** `struct.pack('!IHH', fid, idx, total)`, equally `[htonl][htons][htons]`. */
  function Header(fid: int, idx: int, total: int): (h: bytes)
    requires 0 <= fid < TwoTo32 && 0 <= idx < TwoTo16 && 0 <= total < TwoTo16
    ensures |h| == 8
  {
    U32BE(fid) + U16BE(idx) + U16BE(total)
  }

  datatype HeaderFields = HeaderFields(frameId: int, index: int, count: int)

  /** What a receiver reads from the first 8 bytes of a datagram. */
  function ReadHeader(d: bytes): (h: HeaderFields)
    requires |d| >= 8
    ensures 0 <= h.frameId < TwoTo32 && 0 <= h.index < TwoTo16 && 0 <= h.count < TwoTo16
  {
    HeaderFields(ReadU32BE(d[0..4]), ReadU16BE(d[4..6]), ReadU16BE(d[6..8]))
  }

  /** The header is read back as the fields that were packed. */
  lemma HeaderRoundTrip(fid: int, idx: int, total: int, payload: bytes)
    requires 0 <= fid < TwoTo32 && 0 <= idx < TwoTo16 && 0 <= total < TwoTo16
    ensures var d := Header(fid, idx, total) + payload;
      |d| == 8 + |payload| && ReadHeader(d) == HeaderFields(fid, idx, total) && d[8..] == payload
  {
    var d := Header(fid, idx, total) + payload;
    assert d[0..4] == U32BE(fid);
    assert d[4..6] == U16BE(idx);
    assert d[6..8] == U16BE(total);
    U32RoundTrip(fid);
    U16RoundTrip(idx);
    U16RoundTrip(total);
  }

  /** Datagram `idx` of a frame: header, then chunk `idx`. */
  function Datagram(fid: int, data: bytes, maxPayload: nat, idx: nat): (d: bytes)
    requires maxPayload > 0 && 0 <= fid < TwoTo32
    requires CeilDiv(|data|, maxPayload) < TwoTo16
    requires idx < CeilDiv(|data|, maxPayload)
  {
    Header(fid, idx, CeilDiv(|data|, maxPayload)) + Chunk(data, maxPayload, idx)
  }

  /** All datagrams of one frame, in index order. */
  function Datagrams(fid: int, data: bytes, maxPayload: nat): (ds: seq<bytes>)
    requires maxPayload > 0 && 0 <= fid < TwoTo32
    requires CeilDiv(|data|, maxPayload) < TwoTo16
    ensures |ds| == CeilDiv(|data|, maxPayload)
  {
    seq(CeilDiv(|data|, maxPayload),
        i requires 0 <= i < CeilDiv(|data|, maxPayload) => Datagram(fid, data, maxPayload, i))
  }

  /** The payloads of a list of datagrams, header stripped. */
  function Payloads(ds: seq<bytes>): (ps: seq<bytes>)
    requires forall i :: 0 <= i < |ds| ==> |ds[i]| >= 8
    ensures |ps| == |ds|
  {
    seq(|ds|, i requires 0 <= i < |ds| => ds[i][8..])
  }

  /** Datagram `i` is 9 to 8 + max bytes long, carries the fields it was packed
      with, and its payload is chunk `i`. */
  lemma DatagramAt(fid: int, data: bytes, maxPayload: nat, i: nat)
    requires maxPayload > 0 && 0 <= fid < TwoTo32
    requires CeilDiv(|data|, maxPayload) < TwoTo16
    requires i < CeilDiv(|data|, maxPayload)
    ensures var d := Datagram(fid, data, maxPayload, i);
      && 9 <= |d| <= 8 + maxPayload
      && ReadHeader(d) == HeaderFields(fid, i, CeilDiv(|data|, maxPayload))
      && d[8..] == Chunk(data, maxPayload, i)
  {
    ChunkSize(data, maxPayload, i);
    HeaderRoundTrip(fid, i, CeilDiv(|data|, maxPayload), Chunk(data, maxPayload, i));
  }

  /** A receiver that reads the headers of one frame's datagrams sees the shared
      frame id and count, indices 0..count-1 in order and datagrams of 9 to
      8 + max bytes; concatenating the payloads restores the encoded frame. */
  lemma DatagramsReassemble(fid: int, data: bytes, maxPayload: nat)
    requires maxPayload > 0 && 0 <= fid < TwoTo32
    requires CeilDiv(|data|, maxPayload) < TwoTo16
    ensures var ds := Datagrams(fid, data, maxPayload);
      && (forall i :: 0 <= i < |ds| ==> 9 <= |ds[i]| <= 8 + maxPayload)
      && (forall i :: 0 <= i < |ds| ==> ReadHeader(ds[i]) == HeaderFields(fid, i, |ds|))
      && Flatten(Payloads(ds)) == data
  {
    var ds := Datagrams(fid, data, maxPayload);
    forall i | 0 <= i < |ds|
      ensures 9 <= |ds[i]| <= 8 + maxPayload
      ensures ReadHeader(ds[i]) == HeaderFields(fid, i, |ds|)
      ensures ds[i][8..] == Chunks(data, maxPayload)[i]
    {
      DatagramAt(fid, data, maxPayload, i);
    }
    assert Payloads(ds) == Chunks(data, maxPayload);
    ChunksFlatten(data, maxPayload);
  }
}
