/** The byte-level operations of a Buffer (the `buffer` package that the client
    bundles) and of an ArrayBuffer that the service relies on: relative-index
    slicing, 32-bit big-endian integers, and UTF-8 encoding of a string. */
module JsBuffer {
  import opened Prelude

  const TWO_POW_32: int := 0x1_0000_0000

  /** ECMAScript's normalisation of a relative index against a length: a
      negative index counts from the end, and the result is clamped to
      [0, len]. Shared by ArrayBuffer.prototype.slice and
      TypedArray.prototype.subarray. */
  function RelativeIndex(rel: int, len: nat): (k: nat)
    ensures k <= len
  {
    if rel < 0 then (if len + rel < 0 then 0 else len + rel)
    else if rel < len then rel else len
  }

  /** `s.slice(start, end)` / `s.subarray(start, end)`: never fails, clamps
      both ends, and is empty when the normalised end is not after the
      normalised start. */
  function Slice(s: Bytes, start: int, end: int): (r: Bytes)
    ensures |r| <= |s|
    ensures 0 <= start <= |s| && start <= end <= |s| ==> r == s[start..end]
  {
    var from, to := RelativeIndex(start, |s|), RelativeIndex(end, |s|);
    if from < to then s[from..to] else []
  }

  /** `s.slice(start)` / `s.subarray(start)`: up to the end. */
  function SliceFrom(s: Bytes, start: int): (r: Bytes)
    ensures 0 <= start <= |s| ==> r == s[start..]
    ensures |s| <= start ==> r == []
  {
    Slice(s, start, |s|)
  }

  /** A start `k` bytes before the end, written `|s| - k` as a non-negative
      index or `-k` as a negative one (`k` > 0), selects the last `k` bytes. On a
      buffer shorter than `k`, `-k` selects all of it, while `|s| - k` is
      itself negative and is counted from the end once more. So
      `slice(byteLength - 16)` is the last 16 bytes of an output of at least
      16 bytes. */
  lemma SliceFromEnd(s: Bytes, k: nat)
    ensures k <= |s| ==> SliceFrom(s, |s| - k) == s[|s| - k..]
    ensures 0 < k <= |s| ==> SliceFrom(s, -(k as int)) == s[|s| - k..]
    ensures |s| < k ==> SliceFrom(s, -(k as int)) == s
    ensures |s| < k ==> SliceFrom(s, |s| - k) == s[if k <= 2 * |s| then 2 * |s| - k else 0..]
  {
    assert RelativeIndex(|s|, |s|) == |s|;
    if k <= |s| {
      assert RelativeIndex(|s| - k, |s|) == |s| - k;
      if 0 < k {
        assert RelativeIndex(-(k as int), |s|) == |s| - k;
      }
    } else {
      assert RelativeIndex(-(k as int), |s|) == 0;
      var from := if k <= 2 * |s| then 2 * |s| - k else 0;
      assert RelativeIndex(|s| - k, |s|) == from;
      assert s[0..|s|] == s;
    }
  }

  /** Cutting at one normalised point loses nothing: the two halves, put
      back together, are the original buffer. */
  lemma SliceSplit(s: Bytes, cut: int)
    ensures Slice(s, 0, cut) + SliceFrom(s, cut) == s
  {
    var k := RelativeIndex(cut, |s|);
    assert Slice(s, 0, cut) == s[..k];
    assert SliceFrom(s, cut) == s[k..];
  }

  /** `buf.writeUInt32BE(n)` into a fresh 4-byte buffer; `None` is the
      RangeError thrown for a value outside [0, 2^32). */
  function WriteUInt32BE(n: int): (r: Option<Bytes>)
    ensures r.Some? <==> 0 <= n < TWO_POW_32
    ensures r.Some? ==> |r.value| == 4
  {
    if 0 <= n < TWO_POW_32 then
      Some([n / 0x100_0000, (n / 0x1_0000) % 0x100, (n / 0x100) % 0x100, n % 0x100])
    else None
  }

  /** `buf.readUInt32BE(0)`; `None` is the RangeError thrown when fewer than
      four bytes are present. */
  function ReadUInt32BE(s: Bytes): (r: Option<nat>)
    ensures r.Some? <==> 4 <= |s|
    ensures r.Some? ==> r.value < TWO_POW_32
  {
    if |s| < 4 then None
    else Some(s[0] as int * 0x100_0000 + s[1] as int * 0x1_0000 + s[2] as int * 0x100 + s[3] as int)
  }

  /** Dividing by 256 undoes a shift by one byte. */
  lemma DivModByte(q: nat, r: nat)
    requires r < 0x100
    ensures (q * 0x100 + r) / 0x100 == q && (q * 0x100 + r) % 0x100 == r
  {
  }

  /** Reading back what was written returns the written value, whatever
      follows the four bytes. */
  lemma ReadAfterWrite(n: int, rest: Bytes)
    requires 0 <= n < TWO_POW_32
    ensures ReadUInt32BE(WriteUInt32BE(n).value + rest) == Some(n)
  {
    var b := WriteUInt32BE(n).value;
    assert (b + rest)[..4] == b;
    var q1, q2, q3 := n / 0x100_0000, n / 0x1_0000, n / 0x100;
    assert q2 == q1 * 0x100 + q2 % 0x100;
    assert q3 == q2 * 0x100 + q3 % 0x100;
    assert n == q3 * 0x100 + n % 0x100;
  }

  /** Writing the value read from the first four bytes reproduces them. */
  lemma WriteAfterRead(s: Bytes)
    requires 4 <= |s|
    ensures WriteUInt32BE(ReadUInt32BE(s).value) == Some(s[..4])
  {
    var n := ReadUInt32BE(s).value;
    var q2 := s[0] as int * 0x100 + s[1] as int;
    var q3 := q2 * 0x100 + s[2] as int;
    assert n == q3 * 0x100 + s[3];
    DivModByte(q3, s[3]);
    DivModByte(q2, s[2]);
    DivModByte(s[0], s[1]);
    assert n / 0x100 == q3;
    assert n / 0x1_0000 == q3 / 0x100;
    assert n / 0x100_0000 == q2 / 0x100;
    assert s[..4] == [s[0], s[1], s[2], s[3]];
  }

  /** Only the first four bytes are read. */
  lemma ReadUInt32BEPrefix(s: Bytes, t: Bytes)
    requires 4 <= |s|
    ensures ReadUInt32BE(s + t) == ReadUInt32BE(s)
  {
    assert (s + t)[..4] == s[..4];
  }

  /** A character below U+0080 is one UTF-8 byte. */
  predicate IsAscii(s: string)
  {
    forall i :: 0 <= i < |s| ==> s[i] as int < 0x80
  }

  /** The UTF-8 encoding of one Unicode scalar value. */
  function Utf8Char(c: char): (r: Bytes)
    ensures 1 <= |r| <= 4
    ensures c as int < 0x80 <==> |r| == 1
    ensures |r| == 1 ==> r[0] == c as int
  {
    var n := c as int;
    if n < 0x80 then [n]
    else if n < 0x800 then [0xC0 + n / 0x40, 0x80 + n % 0x40]
    else if n < 0x1_0000 then [0xE0 + n / 0x1000, 0x80 + (n / 0x40) % 0x40, 0x80 + n % 0x40]
    else [0xF0 + n / 0x4_0000, 0x80 + (n / 0x1000) % 0x40, 0x80 + (n / 0x40) % 0x40, 0x80 + n % 0x40]
  }

  /** The character codes of a string, one byte each. */
  function AsciiCodes(s: string): (b: Bytes)
    ensures |b| == |s|
  {
    seq(|s|, i requires 0 <= i < |s| => (s[i] as int) % 0x100)
  }

  /** `Buffer.from(s)` (UTF-8); `Buffer.byteLength(s)` is its length. */
  function Utf8Encode(s: string): (r: Bytes)
    ensures |s| <= |r| <= 4 * |s|
    ensures IsAscii(s) ==> |r| == |s| && forall i :: 0 <= i < |s| ==> r[i] == s[i] as int
  {
    if s == [] then [] else Utf8Char(s[0]) + Utf8Encode(s[1..])
  }

  /** On ASCII text UTF-8 is the identity on character codes. */
  lemma Utf8EncodeAscii(s: string)
    requires IsAscii(s)
    ensures Utf8Encode(s) == AsciiCodes(s)
  {
  }

  /** Encoding distributes over concatenation, so a string built from
      pieces encodes piece by piece. */
  lemma {:induction false} Utf8EncodeAppend(a: string, b: string)
    ensures Utf8Encode(a + b) == Utf8Encode(a) + Utf8Encode(b)
  {
    if a == [] {
      assert a + b == b;
    } else {
      assert (a + b)[1..] == a[1..] + b;
      Utf8EncodeAppend(a[1..], b);
    }
  }
}
