/** The envelope header `{"wrappedKey","wrappedIV","authTag"}`: its
    serialisation by `JSON.stringify` and the reading of it back by
    `JSON.parse` over the UTF-8 bytes of the envelope. */
module HeaderJson {
  import opened Prelude
  import JsBuffer

  /** The three base64 strings the header carries. */
  datatype Header = Header(wrappedKey: string, wrappedIV: string, authTag: string)

  // ----- JSON.stringify -----

  function HexDigit(v: int): char
    requires 0 <= v < 16
  {
    if v < 10 then ('0' as int + v) as char else ('a' as int + v - 10) as char
  }

  /** The escape JSON.stringify writes for one character of a string. */
  function EscapeChar(c: char): string
  {
    var n := c as int;
    if c == '"' then "\\\""
    else if c == '\\' then "\\\\"
    else if n == 0x08 then "\\b"
    else if n == 0x0C then "\\f"
    else if c == '\n' then "\\n"
    else if c == '\r' then "\\r"
    else if c == '\t' then "\\t"
    else if n < 0x20 then "\\u00" + [HexDigit(n / 16), HexDigit(n % 16)]
    else [c]
  }

  function Escape(s: string): string
  {
    if s == "" then "" else EscapeChar(s[0]) + Escape(s[1..])
  }

  /** A character JSON.stringify copies unchanged and that is one UTF-8
      byte: printable ASCII other than the quote and the backslash. */
  predicate IsPlainChar(c: char)
  {
    0x20 <= c as int < 0x7F && c != '"' && c != '\\'
  }

  predicate IsPlain(s: string)
  {
    forall i :: 0 <= i < |s| ==> IsPlainChar(s[i])
  }

  predicate IsPlainHeader(h: Header)
  {
    IsPlain(h.wrappedKey) && IsPlain(h.wrappedIV) && IsPlain(h.authTag)
  }

  const KeyOpen: string := "{\"wrappedKey\":\""
  const IvOpen: string := "\",\"wrappedIV\":\""
  const TagOpen: string := "\",\"authTag\":\""
  const Close: string := "\"}"

  /** `JSON.stringify({wrappedKey, wrappedIV, authTag})`: compact, keys in
      insertion order. */
  function Stringify(h: Header): string
  {
    KeyOpen + Escape(h.wrappedKey) + IvOpen + Escape(h.wrappedIV) + TagOpen + Escape(h.authTag) + Close
  }

  /** The UTF-8 bytes of the serialised header (`Buffer.from(header)`). */
  function HeaderBytes(h: Header): Bytes
  {
    JsBuffer.Utf8Encode(Stringify(h))
  }

  // ----- JSON.parse of the compact form -----

  predicate IsPlainByte(b: byte)
  {
    0x20 <= b < 0x7F && b != 0x22 && b != 0x5C
  }

  /** Length of the leading run of plain bytes. */
  function PlainSpan(s: Bytes): (n: nat)
    ensures n <= |s|
  {
    if s == [] || !IsPlainByte(s[0]) then 0 else 1 + PlainSpan(s[1..])
  }

  /** The span is the longest prefix of plain bytes. */
  lemma {:induction false} PlainSpanIsLeadingRun(s: Bytes)
    ensures forall i :: 0 <= i < PlainSpan(s) ==> IsPlainByte(s[i])
    ensures PlainSpan(s) < |s| ==> !IsPlainByte(s[PlainSpan(s)])
  {
    if s != [] && IsPlainByte(s[0]) {
      PlainSpanIsLeadingRun(s[1..]);
    }
  }

  /** Each byte read as the character with that code. The parser applies it
      only to plain bytes (printable ASCII), where this is exactly what the
      UTF-8 decoding of `toString()` gives; it is not UTF-8 decoding of bytes
      from 0x80 up. */
  function Chars(b: Bytes): (s: string)
    ensures |s| == |b|
  {
    seq(|b|, i requires 0 <= i < |b| => b[i] as char)
  }

  /** The contents of one string value up to its closing quote, which must
      be followed by `close`; the value has no escapes. */
  function ReadField(s: Bytes, close: Bytes): Option<(string, Bytes)>
  {
    var n := PlainSpan(s);
    if n + |close| <= |s| && s[n..n + |close|] == close then Some((Chars(s[..n]), s[n + |close|..]))
    else None
  }

  /** Consecutive escape-free string values, the i-th followed by
      `closes[i]`, and the bytes after the last delimiter. */
  function ReadFields(s: Bytes, closes: seq<Bytes>): (r: Option<(seq<string>, Bytes)>)
    ensures r.Some? ==> |r.value.0| == |closes|
    decreases |closes|
  {
    if closes == [] then Some(([], s))
    else match ReadField(s, closes[0])
      case None => None
      case Some((v, rest)) =>
        match ReadFields(rest, closes[1..])
        case None => None
        case Some((vs, tail)) => Some(([v] + vs, tail))
  }

  /** The four bytes JSON allows around and between tokens: tab, line
      feed, carriage return, space. */
  predicate IsJsonWhitespace(b: byte)
  {
    b == 0x09 || b == 0x0A || b == 0x0D || b == 0x20
  }

  predicate AllWhitespace(s: Bytes)
  {
    forall i :: 0 <= i < |s| ==> IsJsonWhitespace(s[i])
  }

  /** Length of the leading run of JSON whitespace. */
  function WhitespaceSpan(s: Bytes): (n: nat)
    ensures n <= |s|
  {
    if s == [] || !IsJsonWhitespace(s[0]) then 0 else 1 + WhitespaceSpan(s[1..])
  }

  function StartsWith(s: Bytes, p: Bytes): bool
  {
    |p| <= |s| && s[..|p|] == p
  }

  /** The bytes of the four pieces of the template: all ASCII, so one byte
      per character (see `TemplateBytes`). */
  const KeyOpenBytes: Bytes := JsBuffer.AsciiCodes(KeyOpen)
  const IvOpenBytes: Bytes := JsBuffer.AsciiCodes(IvOpen)
  const TagOpenBytes: Bytes := JsBuffer.AsciiCodes(TagOpen)
  const CloseBytes: Bytes := JsBuffer.AsciiCodes(Close)

  /** `JSON.parse(bytes.toString())` followed by the destructuring of the
      three fields, for the compact form `Stringify` writes with any JSON
      whitespace before and after it; `None` is the SyntaxError or
      TypeError thrown. */
  function ParseHeader(b: Bytes): Option<Header>
  {
    ParseTemplate(b, KeyOpenBytes, IvOpenBytes, TagOpenBytes, CloseBytes)
  }

  /** Reading three escape-free string values out of a fixed four-piece
      template `p0 v p1 v p2 v p3`, after leading whitespace; only
      whitespace may follow the last piece. */
  function ParseTemplate(b: Bytes, p0: Bytes, p1: Bytes, p2: Bytes, p3: Bytes): Option<Header>
  {
    var t := b[WhitespaceSpan(b)..];
    if !StartsWith(t, p0) then None
    else match ReadFields(t[|p0|..], [p1, p2, p3])
      case None => None
      case Some((values, rest)) =>
        if AllWhitespace(rest) then Some(Header(values[0], values[1], values[2])) else None
  }

  // ----- properties -----

  lemma {:induction false} EscapePlain(s: string)
    requires IsPlain(s)
    ensures Escape(s) == s
  {
    if s != "" {
      EscapePlain(s[1..]);
    }
  }

  lemma AsciiOfPlain(s: string)
    requires IsPlain(s)
    ensures JsBuffer.IsAscii(s)
  {
  }

  /** The pieces of the template are ASCII. */
  lemma TemplateIsAscii()
    ensures JsBuffer.IsAscii(KeyOpen) && JsBuffer.IsAscii(IvOpen)
    ensures JsBuffer.IsAscii(TagOpen) && JsBuffer.IsAscii(Close)
  {
  }

  /** The template opens with a brace and closes with one, and three of its
      pieces start with the quote that closes the value before. */
  lemma TemplateQuotes()
    ensures KeyOpenBytes != [] && KeyOpenBytes[0] == 0x7B
    ensures CloseBytes == [0x22, 0x7D]
    ensures IvOpenBytes != [] && IvOpenBytes[0] == 0x22
    ensures TagOpenBytes != [] && TagOpenBytes[0] == 0x22
    ensures CloseBytes != [] && CloseBytes[0] == 0x22
  {
  }

  /** A plain header serialises to the fixed template with its values
      copied in. */
  lemma StringifyPlain(h: Header)
    requires IsPlainHeader(h)
    ensures Stringify(h) == KeyOpen + h.wrappedKey + IvOpen + h.wrappedIV + TagOpen + h.authTag + Close
  {
    EscapePlain(h.wrappedKey);
    EscapePlain(h.wrappedIV);
    EscapePlain(h.authTag);
  }

  /** UTF-8 encoding of a seven-piece string, piece by piece. */
  lemma EncodeSevenPieces(a0: string, v0: string, a1: string, v1: string, a2: string, v2: string, a3: string)
    ensures JsBuffer.Utf8Encode(a0 + v0 + a1 + v1 + a2 + v2 + a3)
         == JsBuffer.Utf8Encode(a0) + JsBuffer.Utf8Encode(v0) + JsBuffer.Utf8Encode(a1)
          + JsBuffer.Utf8Encode(v1) + JsBuffer.Utf8Encode(a2) + JsBuffer.Utf8Encode(v2)
          + JsBuffer.Utf8Encode(a3)
  {
    var s1 := a0 + v0;
    var s2 := s1 + a1;
    var s3 := s2 + v1;
    var s4 := s3 + a2;
    var s5 := s4 + v2;
    JsBuffer.Utf8EncodeAppend(a0, v0);
    JsBuffer.Utf8EncodeAppend(s1, a1);
    JsBuffer.Utf8EncodeAppend(s2, v1);
    JsBuffer.Utf8EncodeAppend(s3, a2);
    JsBuffer.Utf8EncodeAppend(s4, v2);
    JsBuffer.Utf8EncodeAppend(s5, a3);
  }

  /** The bytes of a serialised plain header, piece by piece. */
  lemma HeaderBytesPieces(h: Header)
    requires IsPlainHeader(h)
    ensures HeaderBytes(h)
         == KeyOpenBytes + JsBuffer.Utf8Encode(h.wrappedKey)
          + IvOpenBytes + JsBuffer.Utf8Encode(h.wrappedIV)
          + TagOpenBytes + JsBuffer.Utf8Encode(h.authTag)
          + CloseBytes
  {
    StringifyPlain(h);
    EncodeSevenPieces(KeyOpen, h.wrappedKey, IvOpen, h.wrappedIV, TagOpen, h.authTag, Close);
    TemplateIsAscii();
    JsBuffer.Utf8EncodeAscii(KeyOpen);
    JsBuffer.Utf8EncodeAscii(IvOpen);
    JsBuffer.Utf8EncodeAscii(TagOpen);
    JsBuffer.Utf8EncodeAscii(Close);
  }

  /** Bytes the template itself takes: 15 + 15 + 13 + 2. */
  const TemplateLength: nat := 45

  /** A plain header takes the template plus one byte per value character. */
  lemma HeaderBytesLength(h: Header)
    requires IsPlainHeader(h)
    ensures |HeaderBytes(h)| == TemplateLength + |h.wrappedKey| + |h.wrappedIV| + |h.authTag|
  {
    HeaderBytesPieces(h);
    AsciiOfPlain(h.wrappedKey);
    AsciiOfPlain(h.wrappedIV);
    AsciiOfPlain(h.authTag);
  }

  lemma {:induction false} PlainSpanOfPlain(v: string, rest: Bytes)
    requires IsPlain(v)
    requires rest != [] && rest[0] == 0x22
    ensures PlainSpan(JsBuffer.Utf8Encode(v) + rest) == |v|
  {
    if v != "" {
      assert JsBuffer.Utf8Encode(v) == JsBuffer.Utf8Char(v[0]) + JsBuffer.Utf8Encode(v[1..]);
      assert (JsBuffer.Utf8Encode(v) + rest)[1..] == JsBuffer.Utf8Encode(v[1..]) + rest;
      PlainSpanOfPlain(v[1..], rest);
    }
  }

  /** A plain value followed by its closing delimiter reads back as itself. */
  lemma ReadFieldOfPlain(v: string, close: Bytes, rest: Bytes)
    requires IsPlain(v) && close != [] && close[0] == 0x22
    ensures ReadField(JsBuffer.Utf8Encode(v) + close + rest, close) == Some((v, rest))
  {
    var bv := JsBuffer.Utf8Encode(v);
    var s := bv + close + rest;
    assert s == bv + (close + rest);
    PlainSpanOfPlain(v, close + rest);
    assert s[..|v|] == bv;
    assert s[|v|..|v| + |close|] == close;
    assert s[|v| + |close|..] == rest;
    assert Chars(bv) == v;
  }

  /** ... and so does it at the head of several fields. */
  lemma ReadFieldsOfPlain(v: string, close: Bytes, rest: Bytes, closes: seq<Bytes>)
    requires IsPlain(v) && close != [] && close[0] == 0x22
    requires ReadFields(rest, closes).Some?
    ensures ReadFields(JsBuffer.Utf8Encode(v) + close + rest, [close] + closes)
         == Some(([v] + ReadFields(rest, closes).value.0, ReadFields(rest, closes).value.1))
  {
    ReadFieldOfPlain(v, close, rest);
    assert ([close] + closes)[1..] == closes;
  }

  /** The seven pieces of a filled template, grouped from the right as a
      reader consumes them. A separate lemma so that `ParseFilledTemplate`
      does not regroup the concatenation itself, which is costly for the
      solver. */
  lemma SevenPieces(p0: Bytes, k: Bytes, p1: Bytes, iv: Bytes, p2: Bytes, tag: Bytes, p3: Bytes)
    ensures p0 + k + p1 + iv + p2 + tag + p3 == p0 + (k + p1 + (iv + p2 + (tag + p3 + [])))
  {
    assert tag + p3 + [] == tag + p3;
  }

  /** One, two and three plain values, each followed by a delimiter that
      starts with a quote, read back as themselves with nothing left over.
      Split into one lemma per field only to keep each proof small for the
      solver. */
  lemma ReadOnePlainField(tag: string, p3: Bytes)
    requires IsPlain(tag) && p3 != [] && p3[0] == 0x22
    ensures ReadFields(JsBuffer.Utf8Encode(tag) + p3 + [], [p3]) == Some(([tag], []))
  {
    assert ReadFields([], []) == Some(([], []));
    ReadFieldsOfPlain(tag, p3, [], []);
    assert [p3] + [] == [p3] && [tag] + [] == [tag];
  }

  lemma ReadTwoPlainFields(iv: string, tag: string, p2: Bytes, p3: Bytes)
    requires IsPlain(iv) && IsPlain(tag)
    requires p2 != [] && p2[0] == 0x22 && p3 != [] && p3[0] == 0x22
    ensures ReadFields(JsBuffer.Utf8Encode(iv) + p2 + (JsBuffer.Utf8Encode(tag) + p3 + []), [p2, p3])
         == Some(([iv, tag], []))
  {
    ReadOnePlainField(tag, p3);
    ReadFieldsOfPlain(iv, p2, JsBuffer.Utf8Encode(tag) + p3 + [], [p3]);
    assert [p2] + [p3] == [p2, p3] && [iv] + [tag] == [iv, tag];
  }

  lemma ReadPlainFields(k: string, iv: string, tag: string, p1: Bytes, p2: Bytes, p3: Bytes)
    requires IsPlain(k) && IsPlain(iv) && IsPlain(tag)
    requires p1 != [] && p1[0] == 0x22 && p2 != [] && p2[0] == 0x22 && p3 != [] && p3[0] == 0x22
    ensures ReadFields(JsBuffer.Utf8Encode(k) + p1 + (JsBuffer.Utf8Encode(iv) + p2 + (JsBuffer.Utf8Encode(tag) + p3 + [])),
                       [p1, p2, p3])
         == Some(([k, iv, tag], []))
  {
    var r1 := JsBuffer.Utf8Encode(iv) + p2 + (JsBuffer.Utf8Encode(tag) + p3 + []);
    ReadTwoPlainFields(iv, tag, p2, p3);
    ReadFieldsOfPlain(k, p1, r1, [p2, p3]);
    assert [p1] + [p2, p3] == [p1, p2, p3] && [k] + [iv, tag] == [k, iv, tag];
  }

  /** Filling a template whose closing pieces start with a quote with plain
      values, and reading it back, gives the values. */
  lemma ParseFilledTemplate(h: Header, p0: Bytes, p1: Bytes, p2: Bytes, p3: Bytes)
    requires IsPlainHeader(h)
    requires p0 != [] && !IsJsonWhitespace(p0[0])
    requires p1 != [] && p1[0] == 0x22 && p2 != [] && p2[0] == 0x22 && p3 != [] && p3[0] == 0x22
    ensures ParseTemplate(p0 + JsBuffer.Utf8Encode(h.wrappedKey) + p1 + JsBuffer.Utf8Encode(h.wrappedIV)
                            + p2 + JsBuffer.Utf8Encode(h.authTag) + p3, p0, p1, p2, p3) == Some(h)
  {
    var k, iv, tag :=
      JsBuffer.Utf8Encode(h.wrappedKey), JsBuffer.Utf8Encode(h.wrappedIV), JsBuffer.Utf8Encode(h.authTag);
    var r0 := k + p1 + (iv + p2 + (tag + p3 + []));
    var b := p0 + r0;
    SevenPieces(p0, k, p1, iv, p2, tag, p3);
    assert WhitespaceSpan(b) == 0;
    assert b[0..] == b;
    assert b[..|p0|] == p0 && b[|p0|..] == r0;
    ReadPlainFields(h.wrappedKey, h.wrappedIV, h.authTag, p1, p2, p3);
  }

  /** Parsing the bytes of a serialised plain header gives it back. */
  lemma ParseHeaderBytes(h: Header)
    requires IsPlainHeader(h)
    ensures ParseHeader(HeaderBytes(h)) == Some(h)
  {
    HeaderBytesPieces(h);
    TemplateQuotes();
    ParseFilledTemplate(h, KeyOpenBytes, IvOpenBytes, TagOpenBytes, CloseBytes);
  }

  /** Bytes appended after a value leave its reading alone and stay in
      the remainder. */
  lemma ReadFieldExtend(s: Bytes, close: Bytes, x: Bytes)
    requires close != [] && ReadField(s, close).Some?
    ensures ReadField(s + x, close).Some?
    ensures ReadField(s + x, close).value.0 == ReadField(s, close).value.0
    ensures ReadField(s + x, close).value.1 == ReadField(s, close).value.1 + x
  {
    var n := PlainSpan(s);
    PlainSpanExtend(s, x, n);
    assert (s + x)[..n] == s[..n];
    assert (s + x)[n..n + |close|] == s[n..n + |close|];
    assert (s + x)[n + |close|..] == s[n + |close|..] + x;
  }

  /** ... and so do bytes appended after the last delimiter. */
  lemma {:induction false} ReadFieldsExtend(s: Bytes, closes: seq<Bytes>, x: Bytes)
    requires forall i :: 0 <= i < |closes| ==> closes[i] != []
    requires ReadFields(s, closes).Some?
    ensures ReadFields(s + x, closes)
         == Some((ReadFields(s, closes).value.0, ReadFields(s, closes).value.1 + x))
    decreases |closes|
  {
    if closes != [] {
      ReadFieldExtend(s, closes[0], x);
      var rest := ReadField(s, closes[0]).value.1;
      ReadFieldsExtend(rest, closes[1..], x);
    }
  }

  lemma {:induction false} PlainSpanExtend(s: Bytes, x: Bytes, n: nat)
    requires n == PlainSpan(s) && n < |s|
    ensures PlainSpan(s + x) == n
  {
    if n > 0 {
      assert (s + x)[1..] == s[1..] + x;
      PlainSpanExtend(s[1..], x, n - 1);
    }
  }

  /** Bytes appended after a non-whitespace byte leave the leading run alone. */
  lemma {:induction false} WhitespaceSpanExtend(s: Bytes, x: Bytes)
    requires WhitespaceSpan(s) < |s|
    ensures WhitespaceSpan(s + x) == WhitespaceSpan(s)
  {
    if WhitespaceSpan(s) > 0 {
      assert (s + x)[1..] == s[1..] + x;
      WhitespaceSpanExtend(s[1..], x);
    }
  }

  /** Whitespace put before bytes that start with a non-whitespace byte is
      exactly the leading run. */
  lemma {:induction false} WhitespaceSpanPadded(w: Bytes, b: Bytes)
    requires AllWhitespace(w) && b != [] && !IsJsonWhitespace(b[0])
    ensures WhitespaceSpan(w + b) == |w|
  {
    if w == [] {
      assert w + b == b;
    } else {
      assert (w + b)[1..] == w[1..] + b;
      assert AllWhitespace(w[1..]) by {
        forall i | 0 <= i < |w[1..]| ensures IsJsonWhitespace(w[1..][i]) {
          assert w[1..][i] == w[i + 1];
        }
      }
      WhitespaceSpanPadded(w[1..], b);
    }
  }

  /** Two byte strings together are whitespace exactly when each is. */
  lemma AllWhitespaceAppend(s: Bytes, x: Bytes)
    ensures AllWhitespace(s + x) <==> AllWhitespace(s) && AllWhitespace(x)
  {
    if AllWhitespace(s + x) {
      forall i | 0 <= i < |s| ensures IsJsonWhitespace(s[i]) {
        assert (s + x)[i] == s[i];
      }
      forall i | 0 <= i < |x| ensures IsJsonWhitespace(x[i]) {
        assert (s + x)[|s| + i] == x[i];
      }
    }
  }

  /** A complete template followed by extra bytes still parses, to the same
      values, exactly when the extra bytes are all whitespace. */
  lemma TemplateExtension(b: Bytes, x: Bytes, p0: Bytes, p1: Bytes, p2: Bytes, p3: Bytes)
    requires p0 != [] && p1 != [] && p2 != [] && p3 != []
    requires ParseTemplate(b, p0, p1, p2, p3).Some?
    ensures ParseTemplate(b + x, p0, p1, p2, p3)
         == if AllWhitespace(x) then ParseTemplate(b, p0, p1, p2, p3) else None
  {
    var w := WhitespaceSpan(b);
    var t := b[w..];
    WhitespaceSpanExtend(b, x);
    assert (b + x)[w..] == t + x;
    assert (t + x)[..|p0|] == t[..|p0|];
    assert (t + x)[|p0|..] == t[|p0|..] + x;
    var s0 := t[|p0|..];
    ReadFieldsExtend(s0, [p1, p2, p3], x);
    AllWhitespaceAppend(ReadFields(s0, [p1, p2, p3]).value.1, x);
  }

  /** A parseable header followed by extra bytes parses the same when they
      are whitespace and is a SyntaxError otherwise. */
  lemma ParseHeaderExtension(b: Bytes, x: Bytes)
    requires ParseHeader(b).Some?
    ensures ParseHeader(b + x) == if AllWhitespace(x) then ParseHeader(b) else None
  {
    TemplateQuotes();
    TemplateExtension(b, x, KeyOpenBytes, IvOpenBytes, TagOpenBytes, CloseBytes);
  }

  /** Hence no proper prefix of a parseable header that ends in a
      non-whitespace byte parses: what was cut off is not all whitespace. */
  lemma ParseHeaderPrefix(b: Bytes, m: nat)
    requires ParseHeader(b).Some? && m < |b| && !IsJsonWhitespace(b[|b| - 1])
    ensures ParseHeader(b[..m]).None?
  {
    assert b[..m] + b[m..] == b;
    assert b[m..][|b| - m - 1] == b[|b| - 1];
    if ParseHeader(b[..m]).Some? {
      ParseHeaderExtension(b[..m], b[m..]);
    }
  }

  /** JSON whitespace before and after a serialised plain header is
      skipped: the padded bytes parse to the same header. */
  lemma ParseHeaderPadded(h: Header, before: Bytes, after: Bytes)
    requires IsPlainHeader(h) && AllWhitespace(before) && AllWhitespace(after)
    ensures ParseHeader(before + HeaderBytes(h) + after) == Some(h)
  {
    var b := HeaderBytes(h);
    ParseHeaderBytes(h);
    HeaderBytesPieces(h);
    TemplateQuotes();
    assert b[0] == 0x7B;
    WhitespaceSpanPadded(before, b);
    assert (before + b)[|before|..] == b;
    assert ParseHeader(before + b) == Some(h);
    ParseHeaderExtension(before + b, after);
  }

  /** A serialised plain header ends with the closing brace. */
  lemma HeaderBytesEnd(h: Header)
    requires IsPlainHeader(h)
    ensures |HeaderBytes(h)| > 0 && HeaderBytes(h)[|HeaderBytes(h)| - 1] == 0x7D
  {
    HeaderBytesPieces(h);
    TemplateQuotes();
  }

  /** In particular, a header cut short (the part left of it by truncation)
      does not parse. */
  lemma ParseHeaderTruncated(h: Header, m: nat)
    requires IsPlainHeader(h) && m < |HeaderBytes(h)|
    ensures ParseHeader(HeaderBytes(h)[..m]).None?
  {
    ParseHeaderBytes(h);
    HeaderBytesEnd(h);
    ParseHeaderPrefix(HeaderBytes(h), m);
  }
}
