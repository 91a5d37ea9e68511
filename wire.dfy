/** Byte-level vocabulary shared by the frame transport and the pose packet:
    bytes, big-endian integers, opaque float words and the ASCII magics. */
module Wire {

  /** A byte of a datagram. */
  type byte = b: int | 0 <= b < 256

  type bytes = seq<byte>

  datatype Option<T> = None | Some(value: T)

  const TwoTo16: int := 0x1_0000
  const TwoTo32: int := 0x1_0000_0000

  /** A float32 travels as its four bytes in the sender's native (little-endian)
      order; its numeric value never matters to the parts modelled here. */
  type F32 = w: bytes | |w| == 4 witness [0, 0, 0, 0]

  /** The 8 bytes of an IEEE-754 double timestamp, also opaque. */
  type F64 = w: bytes | |w| == 8 witness [0, 0, 0, 0, 0, 0, 0, 0]

  /** The bit pattern of +0.0f, which C# uses to initialise a float array. */
  const ZeroF32: F32 := [0, 0, 0, 0]

  /** The bit pattern of -0.0f (little-endian). */
  const NegZeroF32: F32 := [0, 0, 0, 0x80]

  /** ASCII "HND0", "HND1" and "ping". */
  const HND0: bytes := [72, 78, 68, 48]
  const HND1: bytes := [72, 78, 68, 49]
  const PING: bytes := [112, 105, 110, 103]

  predicate IsPrefix(p: bytes, s: bytes) {
    |p| <= |s| && s[..|p|] == p
  }

  // ---------------------------------------------------------------------------
  // Big-endian (network order) integers

  /** `htonl(n)` written out byte by byte. */
  function U32BE(n: int): (r: bytes)
    requires 0 <= n < TwoTo32
    ensures |r| == 4
  {
    [n / 0x100_0000, (n / 0x1_0000) % 256, (n / 256) % 256, n % 256]
  }

  /** `htons(n)` written out byte by byte. */
  function U16BE(n: int): (r: bytes)
    requires 0 <= n < TwoTo16
    ensures |r| == 2
  {
    [n / 256, n % 256]
  }

  function ReadU32BE(b: bytes): (n: int)
    requires |b| == 4
    ensures 0 <= n < TwoTo32
  {
    ((b[0] as int * 256 + b[1]) * 256 + b[2]) * 256 + b[3]
  }

  function ReadU16BE(b: bytes): (n: int)
    requires |b| == 2
    ensures 0 <= n < TwoTo16
  {
    b[0] as int * 256 + b[1]
  }

  lemma U16RoundTrip(n: int)
    requires 0 <= n < TwoTo16
    ensures ReadU16BE(U16BE(n)) == n
  {
  }

  lemma U32RoundTrip(n: int)
    requires 0 <= n < TwoTo32
    ensures ReadU32BE(U32BE(n)) == n
  {
    var b := U32BE(n);
    var hi: int := n / 0x1_0000;
    var lo: int := n % 0x1_0000;
    assert n == hi * 0x1_0000 + lo;
    assert b[0] == hi / 256 && b[1] == hi % 256;
    assert b[0] as int * 256 + b[1] == hi;
    assert (n / 256) == hi * 256 + lo / 256;
    assert b[2] == lo / 256 && b[3] == lo % 256;
  }

  lemma ReadU32BEInverse(b: bytes)
    requires |b| == 4
    ensures U32BE(ReadU32BE(b)) == b
  {
    var n := ReadU32BE(b);
    var hi: int := b[0] as int * 256 + b[1];
    var lo: int := b[2] as int * 256 + b[3];
    assert n == hi * 0x1_0000 + lo;
    assert n / 0x1_0000 == hi && n % 0x1_0000 == lo;
    assert n / 256 == hi * 256 + b[2];
  }

  // ---------------------------------------------------------------------------
  // Sequences of byte strings

  /** Concatenation of a list of byte strings (`b"".join(...)`). */
  function Flatten(ss: seq<bytes>): (r: bytes)
  {
    if ss == [] then [] else ss[0] + Flatten(ss[1..])
  }

  lemma {:induction false} FlattenAppend(a: seq<bytes>, b: seq<bytes>)
    ensures Flatten(a + b) == Flatten(a) + Flatten(b)
  {
    if a == [] {
      assert a + b == b;
    } else {
      assert (a + b)[1..] == a[1..] + b;
      FlattenAppend(a[1..], b);
    }
  }

  /** The bytes of a float array in array order, four per element. */
  function Words(ws: seq<F32>): (r: bytes)
  {
    if ws == [] then [] else ws[0] + Words(ws[1..])
  }

  lemma {:induction false} WordsLength(ws: seq<F32>)
    ensures |Words(ws)| == 4 * |ws|
  {
    if ws != [] { WordsLength(ws[1..]); }
  }

  lemma {:induction false} WordsAppend(a: seq<F32>, b: seq<F32>)
    ensures Words(a + b) == Words(a) + Words(b)
  {
    if a == [] {
      assert a + b == b;
    } else {
      assert (a + b)[1..] == a[1..] + b;
      WordsAppend(a[1..], b);
    }
  }

  /** Element `i` of the float array occupies bytes [4i, 4i+4). */
  lemma {:induction false} WordsAt(ws: seq<F32>, i: nat)
    requires i < |ws|
    ensures |Words(ws)| == 4 * |ws|
    ensures Words(ws)[4 * i .. 4 * i + 4] == ws[i]
  {
    WordsLength(ws);
    if i > 0 {
      WordsAt(ws[1..], i - 1);
      WordsLength(ws[1..]);
      assert Words(ws)[4 * i .. 4 * i + 4] == Words(ws[1..])[4 * (i - 1) .. 4 * (i - 1) + 4];
    }
  }

  /** `np.frombuffer(b, dtype=np.float32)`: the bytes read back as words. */
  function ToWords(b: bytes): (ws: seq<F32>)
    requires |b| % 4 == 0
    ensures |ws| == |b| / 4
    ensures forall i :: 0 <= i < |ws| ==> ws[i] == b[4 * i .. 4 * i + 4]
  {
    seq(|b| / 4, i requires 0 <= i < |b| / 4 => b[4 * i .. 4 * i + 4])
  }

  /** Reading the bytes of a float array gives back the array. */
  lemma WordsRoundTrip(ws: seq<F32>)
    ensures |Words(ws)| % 4 == 0 && ToWords(Words(ws)) == ws
  {
    WordsLength(ws);
    var r := ToWords(Words(ws));
    forall i | 0 <= i < |ws| ensures r[i] == ws[i] {
      WordsAt(ws, i);
    }
  }

  /** A float word is a zero of either sign. */
  predicate IsZeroWord(w: F32) {
    w == ZeroF32 || w == NegZeroF32
  }

  // ---------------------------------------------------------------------------
  // Python slices

  /** How Python reads a slice bound: a negative one counts from the end, and
      the result is clipped to `[0, n]`. */
  function SliceBound(i: int, n: nat): (b: nat)
    ensures b <= n
    ensures 0 <= i <= n ==> b == i
    ensures i < 0 && 0 <= i + n ==> b == i + n
  {
    if i < 0 then (if i + n < 0 then 0 else i + n) else if i > n then n else i
  }

  /** `s[i:j]` in Python: never fails, empty when the bounds cross. */
  function PySlice<T>(s: seq<T>, i: int, j: int): (r: seq<T>)
    ensures |r| <= |s|
    ensures 0 <= i <= j <= |s| ==> r == s[i..j]
  {
    var a, b := SliceBound(i, |s|), SliceBound(j, |s|);
    if a < b then s[a..b] else []
  }

  // ---------------------------------------------------------------------------
  // Block copies

  /** `memcpy(buf + at, src, |src|)` and `Array.Copy(src, 0, buf, at, |src|)`:
      the block lands at `at` and nothing else in `buf` changes. */
  method CopyInto<T>(buf: array<T>, at: nat, src: seq<T>)
    requires at + |src| <= buf.Length
    modifies buf
    ensures buf[..at] == old(buf[..at])
    ensures buf[at..at + |src|] == src
    ensures buf[at + |src|..] == old(buf[at + |src|..])
    ensures buf[..at + |src|] == old(buf[..at]) + src
  {
    for j := 0 to |src|
      invariant buf[..at] == old(buf[..at])
      invariant buf[at..at + j] == src[..j]
      invariant buf[at + j..] == old(buf[at + j..])
    {
      buf[at + j] := src[j];
    }
    assert buf[..at + |src|] == buf[..at] + buf[at..at + |src|];
  }
}
