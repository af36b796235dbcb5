/** Base64 as the service uses it: the padded encoding of section 4 of
    RFC 4648 produced by `btoa` and `Buffer#toString("base64")`, and the
    lenient decoding of `Buffer.from(s, "base64")`, which stops at the first
    '=', skips every character outside the alphabet (whitespace included),
    also accepts the URL-safe digits '-' and '_', and ignores a trailing
    lone sextet. */
module Base64 {
  import opened Prelude

  /** A 6-bit digit value. */
  type sextet = v: int | 0 <= v < 64

  /** The 64 characters of the standard alphabet. */
  predicate IsStandardChar(c: char)
  {
    ('A' <= c <= 'Z') || ('a' <= c <= 'z') || ('0' <= c <= '9') || c == '+' || c == '/'
  }

  /** The characters an encoding is made of: the alphabet and the pad. */
  predicate IsEncodedChar(c: char)
  {
    IsStandardChar(c) || c == '='
  }

  /** The characters the decoder gives a value to. */
  predicate IsDigit(c: char)
  {
    IsStandardChar(c) || c == '-' || c == '_'
  }

  /** Value of a digit; '-' and '_' share the values of '+' and '/'. */
  function ValueOf(c: char): sextet
    requires IsDigit(c)
  {
    if 'A' <= c <= 'Z' then c as int - 'A' as int
    else if 'a' <= c <= 'z' then c as int - 'a' as int + 26
    else if '0' <= c <= '9' then c as int - '0' as int + 52
    else if c == '+' || c == '-' then 62
    else 63
  }

  /** The standard digit for a value; decoding it gives the value back. */
  function CharOf(v: sextet): (c: char)
    ensures IsStandardChar(c) && ValueOf(c) == v
  {
    if v < 26 then ('A' as int + v) as char
    else if v < 52 then ('a' as int + v - 26) as char
    else if v < 62 then ('0' as int + v - 52) as char
    else if v == 62 then '+'
    else '/'
  }

  /** Three bytes as four digits. */
  function EncodeGroup(b0: byte, b1: byte, b2: byte): string
  {
    [CharOf(b0 / 4), CharOf((b0 % 4) * 16 + b1 / 16), CharOf((b1 % 16) * 4 + b2 / 64), CharOf(b2 % 64)]
  }

  /** Padded base64 encoding. */
  function Encode(b: Bytes): (s: string)
    ensures |s| == 4 * ((|b| + 2) / 3)
    ensures forall i :: 0 <= i < |s| ==> IsEncodedChar(s[i])
  {
    if |b| == 0 then ""
    else if |b| == 1 then EncodeGroup(b[0], 0, 0)[..2] + "=="
    else if |b| == 2 then EncodeGroup(b[0], b[1], 0)[..3] + "="
    else EncodeGroup(b[0], b[1], b[2]) + Encode(b[3..])
  }

  /** The digit values the decoder sees: everything before the first '=',
      with non-digits dropped. */
  function Sextets(s: string): (v: seq<sextet>)
    ensures |v| <= |s|
  {
    if s == [] || s[0] == '=' then []
    else if IsDigit(s[0]) then [ValueOf(s[0])] + Sextets(s[1..])
    else Sextets(s[1..])
  }

  /** Four 6-bit digits regrouped as three bytes. */
  function Triple(v0: sextet, v1: sextet, v2: sextet, v3: sextet): (b: Bytes)
    ensures |b| == 3
  {
    [v0 * 4 + v1 / 16, (v1 % 16) * 16 + v2 / 4, (v2 % 4) * 64 + v3]
  }

  /** Digits to bytes, four digits to three bytes; a final group of two or
      three digits gives one or two bytes, a lone final digit none. */
  function FromSextets(v: seq<sextet>): (b: Bytes)
    ensures |b| == (3 * |v|) / 4
  {
    if |v| >= 4 then
      Triple(v[0], v[1], v[2], v[3]) + FromSextets(v[4..])
    else if |v| == 3 then Triple(v[0], v[1], v[2], 0)[..2]
    else if |v| == 2 then Triple(v[0], v[1], 0, 0)[..1]
    else []
  }

  /** `Buffer.from(s, "base64")`: total, it never throws. */
  function Decode(s: string): (b: Bytes)
    ensures |b| <= |s|
  {
    FromSextets(Sextets(s))
  }

  /** Digits before the first pad decode one by one. */
  lemma {:induction false} SextetsAppend(x: string, y: string)
    requires forall i :: 0 <= i < |x| ==> IsStandardChar(x[i])
    ensures Sextets(x + y) == Sextets(x) + Sextets(y)
  {
    if x == [] {
      assert x + y == y;
    } else {
      assert (x + y)[1..] == x[1..] + y;
      SextetsAppend(x[1..], y);
    }
  }

  /** A run of standard digits decodes to their values, in order. */
  lemma {:induction false} SextetsOfDigits(x: string)
    requires forall i :: 0 <= i < |x| ==> IsStandardChar(x[i])
    ensures |Sextets(x)| == |x|
    ensures forall i :: 0 <= i < |x| ==> Sextets(x)[i] == ValueOf(x[i])
  {
    if x != [] {
      SextetsOfDigits(x[1..]);
    }
  }

  lemma FromSextetsPrefix(q: seq<sextet>, rest: seq<sextet>)
    requires |q| == 4
    ensures FromSextets(q + rest) == Triple(q[0], q[1], q[2], q[3]) + FromSextets(rest)
  {
    assert (q + rest)[4..] == rest;
  }

  /** The bit arithmetic of one group: regrouping 3 x 8 bits as 4 x 6 bits
      and back is the identity. */
  lemma GroupArithmetic(b0: byte, b1: byte, b2: byte)
    ensures var v1 := (b0 % 4) * 16 + b1 / 16;
            var v2 := (b1 % 16) * 4 + b2 / 64;
            (b0 / 4) * 4 + v1 / 16 == b0
            && (v1 % 16) * 16 + v2 / 4 == b1
            && (v2 % 4) * 64 + b2 % 64 == b2
  {
    var v1 := (b0 % 4) * 16 + b1 / 16;
    var v2 := (b1 % 16) * 4 + b2 / 64;
    assert v1 / 16 == b0 % 4 && v1 % 16 == b1 / 16;
    assert v2 / 4 == b1 % 16 && v2 % 4 == b2 / 64;
  }

  /** A final group of one or two bytes: the digits are those of the group
      padded with zero bytes, cut before the pad. */
  lemma DecodePartialGroup(b0: byte, b1: byte, n: nat)
    requires n == 2 || n == 3
    ensures Decode(EncodeGroup(b0, b1, 0)[..n] + (if n == 2 then "==" else "="))
         == [b0, b1, 0][..n - 1]
  {
    var g := EncodeGroup(b0, b1, 0);
    var pad := if n == 2 then "==" else "=";
    SextetsAppend(g[..n], pad);
    SextetsOfDigits(g[..n]);
    SextetsOfDigits(g);
    var q := Sextets(g);
    assert Sextets(g[..n]) == q[..n];
    GroupArithmetic(b0, b1, 0);
    assert Triple(q[0], q[1], q[2], q[3]) == [b0, b1, 0];
  }

  lemma DecodeGroup(b0: byte, b1: byte, b2: byte, rest: string)
    ensures Decode(EncodeGroup(b0, b1, b2) + rest) == [b0, b1, b2] + Decode(rest)
  {
    var g := EncodeGroup(b0, b1, b2);
    SextetsAppend(g, rest);
    SextetsOfDigits(g);
    var q := Sextets(g);
    assert q == [b0 / 4, (b0 % 4) * 16 + b1 / 16, (b1 % 16) * 4 + b2 / 64, b2 % 64];
    FromSextetsPrefix(q, Sextets(rest));
    GroupArithmetic(b0, b1, b2);
    assert Triple(q[0], q[1], q[2], q[3]) == [b0, b1, b2];
  }

  /** Decoding an encoding returns the original bytes. */
  lemma {:induction false} DecodeEncode(b: Bytes)
    ensures Decode(Encode(b)) == b
  {
    if |b| == 1 {
      DecodePartialGroup(b[0], 0, 2);
    } else if |b| == 2 {
      DecodePartialGroup(b[0], b[1], 3);
    } else if |b| >= 3 {
      DecodeGroup(b[0], b[1], b[2], Encode(b[3..]));
      DecodeEncode(b[3..]);
      assert b == [b[0], b[1], b[2]] + b[3..];
    }
  }
}
