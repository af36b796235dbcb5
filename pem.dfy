/** The textual public key of `getPublicKey` and `importPublicKey`: base64 of
    the SubjectPublicKeyInfo, cut into lines of 64 characters, between the
    "PUBLIC KEY" header and footer lines of section 13 of RFC 7468. */
module Pem {
  import Base64

  const Header: string := "-----BEGIN PUBLIC KEY-----"
  const Footer: string := "-----END PUBLIC KEY-----"
  const LineWidth: nat := 64

  /** All pieces put back to back. */
  function Flatten(lines: seq<string>): string
  {
    if lines == [] then "" else lines[0] + Flatten(lines[1..])
  }

  /** `lines.join("\n")`. */
  function Join(lines: seq<string>): string
  {
    if lines == [] then ""
    else if |lines| == 1 then lines[0]
    else lines[0] + "\n" + Join(lines[1..])
  }

  /** `s.match(/.{1,64}/g)` on a string without line terminators (a base64
      string has none): the successive runs of 64 characters, the last one
      possibly shorter. No match at all (the empty string) is `[]` here;
      the source gets `null`. */
  function Chunks(s: string): (lines: seq<string>)
    ensures Flatten(lines) == s
    ensures forall i :: 0 <= i < |lines| ==> 1 <= |lines[i]| <= LineWidth
    ensures forall i :: 0 <= i < |lines| - 1 ==> |lines[i]| == LineWidth
    ensures s != "" <==> lines != []
    decreases |s|
  {
    if s == "" then []
    else if |s| <= LineWidth then [s]
    else [s[..LineWidth]] + Chunks(s[LineWidth..])
  }

  /** The text between the two armour lines. `match` returns `null` on the
      empty string, `?.join` then yields `undefined`, and the template
      literal prints it as the word "undefined". */
  function Body(b64: string): string
  {
    if b64 == "" then "undefined" else Join(Chunks(b64))
  }

  /** The PEM text `getPublicKey` builds from a base64 string. */
  function Armor(b64: string): string
  {
    Header + "\n" + Body(b64) + "\n" + Footer
  }

  /** A character JavaScript's `\s` matches: WhiteSpace and LineTerminator
      of ECMAScript (tab, LF, VT, FF, CR, space, NBSP, BOM, the Unicode
      space separators, LS and PS). */
  predicate IsJsWhitespace(c: char)
  {
    var n := c as int;
    (0x09 <= n <= 0x0D) || n == 0x20 || n == 0xA0 || n == 0x1680
    || (0x2000 <= n <= 0x200A) || n == 0x2028 || n == 0x2029
    || n == 0x202F || n == 0x205F || n == 0x3000 || n == 0xFEFF
  }

  /** `s.replace(/\s+/g, "")`. */
  function RemoveWhitespace(s: string): (r: string)
    ensures |r| <= |s|
    ensures forall i :: 0 <= i < |r| ==> !IsJsWhitespace(r[i])
  {
    if s == "" then ""
    else if IsJsWhitespace(s[0]) then RemoveWhitespace(s[1..])
    else [s[0]] + RemoveWhitespace(s[1..])
  }

  /** `s.replace(p, "")` with a string pattern: only the first occurrence is
      removed, and a string without one is returned unchanged. */
  function ReplaceFirst(s: string, p: string): (r: string)
    requires p != ""
    ensures r == s || |r| == |s| - |p|
  {
    if |p| <= |s| && s[..|p|] == p then s[|p|..]
    else if s == "" then ""
    else [s[0]] + ReplaceFirst(s[1..], p)
  }

  /** `p` occurs in `s` starting at index `i`. */
  predicate OccursAt(s: string, p: string, i: int)
  {
    0 <= i && i + |p| <= |s| && s[i..i + |p|] == p
  }

  /** `i` is where `p` first occurs in `s`. */
  predicate FirstOccurrence(s: string, p: string, i: int)
  {
    OccursAt(s, p, i) && forall j :: 0 <= j < i ==> !OccursAt(s, p, j)
  }

  /** The occurrences of `p` in `s` past its first character are those in `s[1..]`,
      shifted by one. */
  lemma OccursAtTail(s: string, p: string, i: nat)
    requires s != ""
    ensures OccursAt(s, p, i + 1) <==> OccursAt(s[1..], p, i)
  {
    if i + 1 + |p| <= |s| {
      assert s[i + 1..i + 1 + |p|] == s[1..][i..i + |p|];
    }
  }

  /** Without an occurrence of the pattern, `replace` returns the string
      unchanged. */
  lemma {:induction false} ReplaceFirstAbsent(s: string, p: string)
    requires p != ""
    requires forall i :: 0 <= i <= |s| ==> !OccursAt(s, p, i)
    ensures ReplaceFirst(s, p) == s
  {
    assert !OccursAt(s, p, 0);
    if s != "" {
      forall i | 0 <= i <= |s[1..]| ensures !OccursAt(s[1..], p, i) {
        OccursAtTail(s, p, i);
      }
      ReplaceFirstAbsent(s[1..], p);
    }
  }

  /** Otherwise it removes the first occurrence and keeps everything around
      it. */
  lemma {:induction false} ReplaceFirstRemovesFirst(s: string, p: string, i: nat)
    requires p != ""
    requires FirstOccurrence(s, p, i)
    ensures ReplaceFirst(s, p) == s[..i] + s[i + |p|..]
  {
    if i > 0 {
      assert !OccursAt(s, p, 0);
      OccursAtTail(s, p, i - 1);
      forall j | 0 <= j < i - 1 ensures !OccursAt(s[1..], p, j) {
        OccursAtTail(s, p, j);
      }
      ReplaceFirstRemovesFirst(s[1..], p, i - 1);
      assert s[..i] == [s[0]] + s[1..][..i - 1];
      assert s[i + |p|..] == s[1..][i - 1 + |p|..];
    }
  }

  /** The string `importPublicKey` hands to the base64 decoder. */
  function Strip(pem: string): (r: string)
    ensures |r| <= |pem|
    ensures forall i :: 0 <= i < |r| ==> !IsJsWhitespace(r[i])
  {
    RemoveWhitespace(ReplaceFirst(ReplaceFirst(pem, Header), Footer))
  }

  /** Every character of `s` is one a base64 encoding is made of. */
  predicate IsBase64Text(s: string)
  {
    forall i :: 0 <= i < |s| ==> Base64.IsEncodedChar(s[i])
  }

  // ----- layout -----

  /** The armour starts with the header line and ends with the footer line,
      and for a non-empty string the body is its 64-character lines joined
      by line feeds (their widths are stated by `Chunks`). */
  lemma ArmorLayout(b64: string)
    requires b64 != ""
    ensures Armor(b64)[..|Header| + 1] == Header + "\n"
    ensures Armor(b64)[|Armor(b64)| - |Footer| - 1..] == "\n" + Footer
    ensures Armor(b64) == Header + "\n" + Join(Chunks(b64)) + "\n" + Footer
  {
    var body := Join(Chunks(b64));
    assert Armor(b64) == (Header + "\n") + (body + "\n" + Footer);
    assert Armor(b64) == (Header + "\n" + body) + ("\n" + Footer);
  }

  /** The lines of the body hold base64 characters only (no line feed of
      their own), so splitting the body at its line feeds gives back exactly
      the chunks. */
  lemma ChunkCharsAreBase64(s: string, i: nat, j: nat)
    requires IsBase64Text(s)
    requires i < |Chunks(s)| && j < |Chunks(s)[i]|
    ensures Base64.IsEncodedChar(Chunks(s)[i][j])
  {
    ChunkChars(s, i, j);
  }

  lemma {:induction false} ChunkChars(s: string, i: nat, j: nat)
    requires i < |Chunks(s)| && j < |Chunks(s)[i]|
    ensures i * LineWidth + j < |s| && Chunks(s)[i][j] == s[i * LineWidth + j]
    decreases |s|
  {
    if |s| > LineWidth && i > 0 {
      ChunkChars(s[LineWidth..], i - 1, j);
    }
  }

  // ----- stripping -----

  lemma {:induction false} RemoveWhitespaceAppend(a: string, b: string)
    ensures RemoveWhitespace(a + b) == RemoveWhitespace(a) + RemoveWhitespace(b)
  {
    if a == "" {
      assert a + b == b;
    } else {
      assert (a + b)[1..] == a[1..] + b;
      RemoveWhitespaceAppend(a[1..], b);
    }
  }

  lemma {:induction false} RemoveWhitespaceOfBase64(s: string)
    requires IsBase64Text(s)
    ensures RemoveWhitespace(s) == s
  {
    if s != "" {
      RemoveWhitespaceOfBase64(s[1..]);
    }
  }

  /** Dropping the whitespace of the body rejoins its lines. */
  lemma {:induction false} RemoveWhitespaceOfBody(s: string)
    requires IsBase64Text(s)
    ensures RemoveWhitespace(Join(Chunks(s))) == s
    decreases |s|
  {
    if s == "" {
    } else if |s| <= LineWidth {
      RemoveWhitespaceOfBase64(s);
    } else {
      var rest := s[LineWidth..];
      assert rest != "";
      assert Join(Chunks(s)) == s[..LineWidth] + "\n" + Join(Chunks(rest));
      RemoveWhitespaceAppend(s[..LineWidth] + "\n", Join(Chunks(rest)));
      RemoveWhitespaceAppend(s[..LineWidth], "\n");
      RemoveWhitespaceOfBase64(s[..LineWidth]);
      assert RemoveWhitespace("\n") == "";
      RemoveWhitespaceOfBody(rest);
      assert s == s[..LineWidth] + rest;
    }
  }

  /** A body holds only base64 characters and line feeds; neither is the
      '-' that the footer starts with. */
  lemma {:induction false} BodyHasNoDash(s: string, k: nat)
    requires IsBase64Text(s) && s != ""
    requires k < |Join(Chunks(s))|
    ensures Join(Chunks(s))[k] != '-'
    decreases |s|
  {
    if |s| > LineWidth {
      var rest := s[LineWidth..];
      assert Join(Chunks(s)) == s[..LineWidth] + "\n" + Join(Chunks(rest));
      if k > LineWidth {
        BodyHasNoDash(rest, k - LineWidth - 1);
      }
    }
  }

  /** The first occurrence of a pattern at the very start is the one removed. */
  lemma ReplaceFirstAtStart(p: string, rest: string)
    requires p != ""
    ensures ReplaceFirst(p + rest, p) == rest
  {
    assert (p + rest)[..|p|] == p;
  }

  /** A pattern whose first character does not occur before it is removed
      where it is appended. */
  lemma {:induction false} ReplaceFirstAtEnd(x: string, p: string)
    requires p != ""
    requires forall i :: 0 <= i < |x| ==> x[i] != p[0]
    ensures ReplaceFirst(x + p, p) == x
  {
    if x == "" {
      assert x + p == p;
    } else {
      assert (x + p)[0] != p[0];
      assert (x + p)[1..] == x[1..] + p;
      ReplaceFirstAtEnd(x[1..], p);
    }
  }

  /** Stripping the armour the way `importPublicKey` does returns exactly
      the base64 string `getPublicKey` wrapped. */
  lemma StripArmor(b64: string)
    requires IsBase64Text(b64) && b64 != ""
    ensures Strip(Armor(b64)) == b64
  {
    var body := Join(Chunks(b64));
    var inner := "\n" + body + "\n";
    assert Armor(b64) == Header + (inner + Footer);
    ReplaceFirstAtStart(Header, inner + Footer);
    forall i | 0 <= i < |inner| ensures inner[i] != Footer[0] {
      if 0 < i < |inner| - 1 {
        BodyHasNoDash(b64, i - 1);
      }
    }
    ReplaceFirstAtEnd(inner, Footer);
    RemoveWhitespaceAppend("\n" + body, "\n");
    RemoveWhitespaceAppend("\n", body);
    assert RemoveWhitespace("\n") == "";
    RemoveWhitespaceOfBody(b64);
  }

  /** The edge the template leaves open: an empty base64 string is armoured
      around the word "undefined", so it does not strip back to itself. */
  lemma StripArmorOfEmpty()
    ensures Strip(Armor("")) == "undefined"
  {
    var word := "undefined";
    assert IsBase64Text(word);
    var inner := "\n" + word + "\n";
    assert Armor("") == Header + (inner + Footer);
    ReplaceFirstAtStart(Header, inner + Footer);
    assert forall i :: 0 <= i < |inner| ==> inner[i] != Footer[0];
    ReplaceFirstAtEnd(inner, Footer);
    RemoveWhitespaceAppend("\n" + word, "\n");
    RemoveWhitespaceAppend("\n", word);
    assert RemoveWhitespace("\n") == "";
    RemoveWhitespaceOfBase64(word);
  }
}
