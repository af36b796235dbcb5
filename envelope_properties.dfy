/** What the service guarantees about its envelopes: the layout of the
    header buffer and of the envelope, the lossless split of the GCM output,
    the framing round trip, the end-to-end round trip under sound
    primitives, the two decryption modes, the uninitialised service, and
    what happens to truncated or re-prefixed envelopes. */
module EnvelopeProperties {
  import opened Prelude
  import JsBuffer
  import Base64
  import Pem
  import HeaderJson
  import opened WebCrypto
  import opened EncryptionService

  /** Base64 length of a 512-byte RSA ciphertext: 4 * ceil(512 / 3). */
  const WrappedLength: nat := 684

  /** Base64 length of the 16-byte tag. */
  const TagTextLength: nat := 24

  /** Byte length of every header built for a 4096-bit key. */
  const EnvelopeHeaderLength: nat := HeaderJson.TemplateLength + 2 * WrappedLength + TagTextLength

  // ----- generic layout -----

  /** Cutting the GCM output 16 bytes before its end loses nothing: the
      ciphertext followed by the tag is the output. On an output of at
      least 16 bytes the tag is its last 16 bytes and the ciphertext the
      rest. */
  lemma TagSplitLossless(e: Bytes)
    ensures JsBuffer.Slice(e, 0, |e| - TagBytes) + JsBuffer.SliceFrom(e, |e| - TagBytes) == e
    ensures TagBytes <= |e| ==>
              JsBuffer.SliceFrom(e, |e| - TagBytes) == e[|e| - TagBytes..]
              && |JsBuffer.SliceFrom(e, |e| - TagBytes)| == TagBytes
              && JsBuffer.Slice(e, 0, |e| - TagBytes) == e[..|e| - TagBytes]
  {
    JsBuffer.SliceSplit(e, |e| - TagBytes);
  }

  /** The reads of `parseEncryptedDataHeader` undo the framing of
      `getEncryptedDataHeader` and `encrypt`: the prefix gives the header
      length, `[4, 4+L)` the header bytes and `[4+L, end)` the ciphertext. */
  lemma FrameUnframe(headerBytes: Bytes, ciphertext: Bytes)
    requires |headerBytes| < JsBuffer.TWO_POW_32
    ensures var env := JsBuffer.WriteUInt32BE(|headerBytes|).value + headerBytes + ciphertext;
            && JsBuffer.ReadUInt32BE(env) == Some(|headerBytes|)
            && JsBuffer.Slice(env, 4, |headerBytes| + 4) == headerBytes
            && JsBuffer.SliceFrom(env, |headerBytes| + 4) == ciphertext
  {
    var prefix := JsBuffer.WriteUInt32BE(|headerBytes|).value;
    var env := prefix + headerBytes + ciphertext;
    assert env == prefix + (headerBytes + ciphertext);
    JsBuffer.ReadAfterWrite(|headerBytes|, headerBytes + ciphertext);
    assert env[4..|headerBytes| + 4] == headerBytes;
    assert env[|headerBytes| + 4..] == ciphertext;
  }

  /** Explicit-key mode never reads the key pair and hands the whole input,
      unchanged, to AES-GCM. */
  lemma ExplicitModeUsesWholeBuffer(wc: Primitives, kp1: Option<KeyPair>, kp2: Option<KeyPair>, params: DecryptParams)
    requires params.encryptionKeyAndIV.Some?
    ensures DecryptOf(wc, kp1, params) == DecryptOf(wc, kp2, params)
    ensures DecryptOf(wc, kp1, params)
         == AesGcmDecrypt(wc, Base64.Decode(params.encryptionKeyAndIV.value.key),
                          Base64.Decode(params.encryptionKeyAndIV.value.iv), params.encryptedData)
  {
  }

  /** Header mode puts exactly `ciphertext || authTag` of the parsed header
      into AES-GCM, under the unwrapped key and IV. This is the header-mode
      branch of `DecryptOf` unfolded, not an independent property; the round
      trip `DecryptEncrypted` uses it in the form of `HeaderModeDecrypts`. */
  lemma HeaderModeRejoinsTag(wc: Primitives, kp: Option<KeyPair>, params: DecryptParams)
    requires params.encryptionKeyAndIV.None?
    requires ParsedHeaderOf(wc, kp, ParseEncryptedDataHeaderParams(params.encryptedData)).Success?
    ensures var parsed := ParsedHeaderOf(wc, kp, ParseEncryptedDataHeaderParams(params.encryptedData)).value;
            DecryptOf(wc, kp, params) == AesGcmDecrypt(wc, parsed.key, parsed.iv, parsed.ciphertext + parsed.authTag)
  {
  }

  /** Without `init`, the public key cannot be read, nothing can be
      unwrapped, and header-mode decryption fails. */
  lemma UninitializedFails(wc: Primitives, u: UnwrapKeyParams, data: Bytes)
    ensures PublicKeyPem(wc, None) == Failure(NotInitialized)
    ensures UnwrapKeyOf(wc, None, u) == Failure(NotInitialized)
    ensures var r := DecryptOf(wc, None, DecryptParams(data, None));
            r.Failure? && (r.error == NotInitialized || r.error == MalformedEnvelope)
  {
  }

  // ----- truncation and length-prefix corruption -----

  /** A header that does not parse is a malformed envelope, in both
      `parseEncryptedDataHeader` and header-mode `decrypt`. */
  lemma UnparsedHeaderFails(wc: Primitives, kp: Option<KeyPair>, env: Bytes)
    requires JsBuffer.ReadUInt32BE(env).None?
          || HeaderJson.ParseHeader(JsBuffer.Slice(env, 4, JsBuffer.ReadUInt32BE(env).value + 4)).None?
    ensures ParsedHeaderOf(wc, kp, ParseEncryptedDataHeaderParams(env)) == Failure(MalformedEnvelope)
    ensures DecryptOf(wc, kp, DecryptParams(env, None)) == Failure(MalformedEnvelope)
  {
    var parsed := ParsedHeaderOf(wc, kp, ParseEncryptedDataHeaderParams(env));
    if n :| JsBuffer.ReadUInt32BE(env) == Some(n) {
      assert parsed == ParsedFromHeader(wc, kp, env, n, None);
    }
    assert parsed == Failure(MalformedEnvelope);
  }

  /** An envelope whose header ends in its closing brace (as every header
      `encrypt` writes does) and that is cut anywhere before the end of that
      header is rejected as malformed: either the prefix cannot be read or
      the header is cut. */
  lemma TruncatedEnvelopeFails(wc: Primitives, kp: Option<KeyPair>, env: Bytes, m: nat)
    requires JsBuffer.ReadUInt32BE(env).Some?
    requires var n := JsBuffer.ReadUInt32BE(env).value;
             4 + n <= |env| && HeaderJson.ParseHeader(env[4..4 + n]).Some?
             && !HeaderJson.IsJsonWhitespace(env[3 + n])
    requires m < 4 + JsBuffer.ReadUInt32BE(env).value
    ensures ParsedHeaderOf(wc, kp, ParseEncryptedDataHeaderParams(env[..m])) == Failure(MalformedEnvelope)
    ensures DecryptOf(wc, kp, DecryptParams(env[..m], None)) == Failure(MalformedEnvelope)
  {
    var n := JsBuffer.ReadUInt32BE(env).value;
    if 4 <= m {
      CutHeaderUnparsed(env, n, m);
    }
    UnparsedHeaderFails(wc, kp, env[..m]);
  }

  /** Cutting inside a header that ends in a non-whitespace byte leaves
      where the parser looks a header cut short, which does not parse. */
  lemma CutHeaderUnparsed(env: Bytes, n: nat, m: nat)
    requires JsBuffer.ReadUInt32BE(env) == Some(n)
    requires 4 <= m < 4 + n <= |env|
    requires HeaderJson.ParseHeader(env[4..4 + n]).Some? && !HeaderJson.IsJsonWhitespace(env[3 + n])
    ensures JsBuffer.ReadUInt32BE(env[..m]) == Some(n)
    ensures HeaderJson.ParseHeader(JsBuffer.Slice(env[..m], 4, n + 4)).None?
  {
    CutEnvelope(env, n, m);
    assert env[4..4 + n][n - 1] == env[3 + n];
    HeaderJson.ParseHeaderPrefix(env[4..4 + n], m - 4);
  }

  /** Cutting an envelope inside its header keeps the prefix and leaves a
      proper prefix of the header where the parser looks for it. */
  lemma CutEnvelope(env: Bytes, n: nat, m: nat)
    requires JsBuffer.ReadUInt32BE(env) == Some(n)
    requires 4 <= m < 4 + n <= |env|
    ensures JsBuffer.ReadUInt32BE(env[..m]) == Some(n)
    ensures JsBuffer.Slice(env[..m], 4, n + 4) == env[4..4 + n][..m - 4]
  {
    assert env[..m] == env[..4] + env[4..m];
    assert env == env[..4] + env[4..];
    JsBuffer.ReadUInt32BEPrefix(env[..4], env[4..m]);
    JsBuffer.ReadUInt32BEPrefix(env[..4], env[4..]);
    assert JsBuffer.Slice(env[..m], 4, n + 4) == env[..m][4..m];
    assert env[..m][4..m] == env[4..m];
    assert env[4..4 + n][..m - 4] == env[4..m];
  }

  /** A length prefix rewritten to exceed the buffer makes the parser take
      header and ciphertext together as the header; when the ciphertext holds
      a byte other than JSON whitespace, that is not a header and the
      envelope is rejected. */
  lemma OversizedPrefixFails(wc: Primitives, kp: Option<KeyPair>, headerBytes: Bytes, ciphertext: Bytes, bogus: nat)
    requires HeaderJson.ParseHeader(headerBytes).Some? && !HeaderJson.AllWhitespace(ciphertext)
    requires |headerBytes| + |ciphertext| < bogus < JsBuffer.TWO_POW_32
    ensures var env := JsBuffer.WriteUInt32BE(bogus).value + headerBytes + ciphertext;
            ParsedHeaderOf(wc, kp, ParseEncryptedDataHeaderParams(env)) == Failure(MalformedEnvelope)
  {
    var env := JsBuffer.WriteUInt32BE(bogus).value + (headerBytes + ciphertext);
    assert env == JsBuffer.WriteUInt32BE(bogus).value + headerBytes + ciphertext;
    JsBuffer.ReadAfterWrite(bogus, headerBytes + ciphertext);
    assert JsBuffer.Slice(env, 4, bogus + 4) == headerBytes + ciphertext;
    HeaderJson.ParseHeaderExtension(headerBytes, ciphertext);
  }

  /** ... while a ciphertext of JSON whitespace only is read as padding after
      the header: the envelope parses as the header alone with an honest
      prefix, and the ciphertext is lost. */
  lemma OversizedPrefixWhitespace(wc: Primitives, kp: Option<KeyPair>, headerBytes: Bytes, ciphertext: Bytes, bogus: nat)
    requires HeaderJson.ParseHeader(headerBytes).Some? && HeaderJson.AllWhitespace(ciphertext)
    requires |headerBytes| + |ciphertext| <= bogus < JsBuffer.TWO_POW_32
    ensures ParsedHeaderOf(wc, kp, ParseEncryptedDataHeaderParams(JsBuffer.WriteUInt32BE(bogus).value + headerBytes + ciphertext))
         == ParsedHeaderOf(wc, kp, ParseEncryptedDataHeaderParams(JsBuffer.WriteUInt32BE(|headerBytes|).value + headerBytes))
  {
    var honest := JsBuffer.WriteUInt32BE(|headerBytes|).value + headerBytes;
    var env := JsBuffer.WriteUInt32BE(bogus).value + (headerBytes + ciphertext);
    assert env == JsBuffer.WriteUInt32BE(bogus).value + headerBytes + ciphertext;
    ClampedFrame(headerBytes + ciphertext, bogus);
    ClampedFrame(headerBytes, |headerBytes|);
    HeaderJson.ParseHeaderExtension(headerBytes, ciphertext);
    SameCiphertextSameResult(wc, kp, env, bogus, honest, |headerBytes|, HeaderJson.ParseHeader(headerBytes));
  }

  /** ... but with no ciphertext at all (an empty payload) the oversized
      prefix is not noticed: `subarray` clamps, and the envelope parses as
      if the prefix were right. */
  lemma OversizedPrefixUnnoticed(wc: Primitives, kp: Option<KeyPair>, headerBytes: Bytes, bogus: nat)
    requires |headerBytes| <= bogus < JsBuffer.TWO_POW_32
    ensures ParsedHeaderOf(wc, kp, ParseEncryptedDataHeaderParams(JsBuffer.WriteUInt32BE(bogus).value + headerBytes))
         == ParsedHeaderOf(wc, kp, ParseEncryptedDataHeaderParams(JsBuffer.WriteUInt32BE(|headerBytes|).value + headerBytes))
  {
    var honest := JsBuffer.WriteUInt32BE(|headerBytes|).value + headerBytes;
    var env := JsBuffer.WriteUInt32BE(bogus).value + headerBytes;
    ClampedFrame(headerBytes, bogus);
    ClampedFrame(headerBytes, |headerBytes|);
    SameCiphertextSameResult(wc, kp, env, bogus, honest, |headerBytes|, HeaderJson.ParseHeader(headerBytes));
  }

  /** A prefix at least as large as what follows it selects all of it as
      the header and leaves nothing for the ciphertext. */
  lemma ClampedFrame(headerBytes: Bytes, n: nat)
    requires |headerBytes| <= n < JsBuffer.TWO_POW_32
    ensures var env := JsBuffer.WriteUInt32BE(n).value + headerBytes;
            && JsBuffer.ReadUInt32BE(env) == Some(n)
            && JsBuffer.Slice(env, 4, n + 4) == headerBytes
            && JsBuffer.SliceFrom(env, n + 4) == []
  {
    var env := JsBuffer.WriteUInt32BE(n).value + headerBytes;
    JsBuffer.ReadAfterWrite(n, headerBytes);
    assert env[4..] == headerBytes;
  }

  /** After the header, only the bytes left for the ciphertext matter. */
  lemma SameCiphertextSameResult(wc: Primitives, kp: Option<KeyPair>, data1: Bytes, n1: nat, data2: Bytes, n2: nat,
                                 header: Option<HeaderJson.Header>)
    requires JsBuffer.SliceFrom(data1, n1 + 4) == JsBuffer.SliceFrom(data2, n2 + 4)
    ensures ParsedFromHeader(wc, kp, data1, n1, header) == ParsedFromHeader(wc, kp, data2, n2, header)
  {
  }

  // ----- under sound primitives -----

  /** Base64 text is JSON-plain: no quote, no backslash, printable ASCII. */
  lemma EncodedIsPlain(b: Bytes)
    ensures HeaderJson.IsPlain(Base64.Encode(b))
  {
  }

  /** `getPublicKey` followed by `importPublicKey` gives back the key. */
  lemma ImportExported(wc: Primitives, pk: PublicKey)
    requires Sound(wc)
    ensures RSAEncryptionService.ImportPublicKey(wc, Pem.Armor(Base64.Encode(wc.exportSpki(pk)))) == Success(pk)
  {
    var spki := wc.exportSpki(pk);
    var b64 := Base64.Encode(spki);
    assert |b64| > 0;
    Pem.StripArmor(b64);
    Base64.DecodeEncode(spki);
  }

  /** Wrapping under an imported key of a generated pair is OAEP encryption
      of the decoded key, as base64. */
  lemma WrapAsOaep(wc: Primitives, kp: KeyPair, pem: string, secret: Bytes)
    requires Sound(wc) && wc.generated(kp)
    requires RSAEncryptionService.ImportPublicKey(wc, pem) == Success(kp.publicKey)
    requires |secret| <= OaepMaxMessage
    ensures wc.oaepEncrypt(kp.publicKey, secret).Some?
    ensures RSAEncryptionService.WrapKey(wc, WrapKeyParams(Base64.Encode(secret), pem))
         == Success(Base64.Encode(wc.oaepEncrypt(kp.publicKey, secret).value))
  {
    Base64.DecodeEncode(secret);
  }

  /** The base64 of a modulus-sized ciphertext is 684 characters long. */
  lemma WrappedTextLength(c: Bytes)
    requires |c| == ModulusBytes
    ensures |Base64.Encode(c)| == WrappedLength
  {
  }

  /** Unwrapping the base64 of an OAEP ciphertext with the matching private
      key gives the base64 of the message. */
  lemma UnwrapOaep(wc: Primitives, kp: KeyPair, secret: Bytes)
    requires Sound(wc) && wc.generated(kp)
    requires |secret| <= OaepMaxMessage
    ensures UnwrapKeyOf(wc, Some(kp), UnwrapKeyParams(Base64.Encode(wc.oaepEncrypt(kp.publicKey, secret).value)))
         == Success(Base64.Encode(secret))
  {
    var c := wc.oaepEncrypt(kp.publicKey, secret);
    assert c.Some? && wc.oaepDecrypt(kp.privateKey, c.value) == Some(secret);
    Base64.DecodeEncode(c.value);
  }

  /** A key wrapped under an imported public key of a generated pair is a
      684-character, JSON-plain base64 string that the pair's private key
      unwraps back to the key. */
  lemma WrapThenUnwrap(wc: Primitives, kp: KeyPair, pem: string, secret: Bytes)
    requires Sound(wc) && wc.generated(kp)
    requires RSAEncryptionService.ImportPublicKey(wc, pem) == Success(kp.publicKey)
    requires |secret| <= OaepMaxMessage
    ensures var w := RSAEncryptionService.WrapKey(wc, WrapKeyParams(Base64.Encode(secret), pem));
            && w.Success? && |w.value| == WrappedLength && HeaderJson.IsPlain(w.value)
            && UnwrapKeyOf(wc, Some(kp), UnwrapKeyParams(w.value)) == Success(Base64.Encode(secret))
  {
    WrapAsOaep(wc, kp, pem, secret);
    var c := wc.oaepEncrypt(kp.publicKey, secret).value;
    WrappedTextLength(c);
    EncodedIsPlain(c);
    UnwrapOaep(wc, kp, secret);
  }

  /** The header of two successful wraps is the serialised record of the
      wrapped key, the wrapped IV and the base64 tag, once it fits the
      32-bit prefix. */
  lemma HeaderOfWraps(wc: Primitives, params: GetEncryptedDataHeaderParams, h: HeaderJson.Header)
    requires RSAEncryptionService.WrapKey(wc, WrapKeyParams(Base64.Encode(params.key), params.publicKey))
             == Success(h.wrappedKey)
    requires RSAEncryptionService.WrapKey(wc, WrapKeyParams(Base64.Encode(params.iv), params.publicKey))
             == Success(h.wrappedIV)
    requires h.authTag == Base64.Encode(params.authTag)
    requires |HeaderJson.HeaderBytes(h)| < JsBuffer.TWO_POW_32
    ensures RSAEncryptionService.GetEncryptedDataHeader(wc, params).Success?
    ensures RSAEncryptionService.GetEncryptedDataHeader(wc, params).value.header == HeaderJson.Stringify(h)
  {
  }

  /** The base64 of the 16-byte tag is 24 characters long. */
  lemma TagTextOfLength(tag: Bytes)
    requires |tag| == TagBytes
    ensures |Base64.Encode(tag)| == TagTextLength
  {
  }

  /** The header `encrypt` builds for a 16-byte tag is 1437 bytes long, and
      reading it back gives wrapped values the pair's private key unwraps to
      the base64 of the AES key and IV, and the base64 of the tag. */
  lemma HeaderForRecipient(wc: Primitives, kp: KeyPair, pem: string, aesKey: Bytes, iv: Bytes, tag: Bytes)
    requires Sound(wc) && wc.generated(kp)
    requires RSAEncryptionService.ImportPublicKey(wc, pem) == Success(kp.publicKey)
    requires |aesKey| == AesKeyBytes && |iv| == IvBytes && |tag| == TagBytes
    ensures var r := RSAEncryptionService.GetEncryptedDataHeader(wc, GetEncryptedDataHeaderParams(aesKey, iv, tag, pem));
            && r.Success?
            && |JsBuffer.Utf8Encode(r.value.header)| == EnvelopeHeaderLength
            && var h := HeaderJson.ParseHeader(JsBuffer.Utf8Encode(r.value.header));
            && h.Some?
            && UnwrapKeyOf(wc, Some(kp), UnwrapKeyParams(h.value.wrappedKey)) == Success(Base64.Encode(aesKey))
            && UnwrapKeyOf(wc, Some(kp), UnwrapKeyParams(h.value.wrappedIV)) == Success(Base64.Encode(iv))
            && h.value.authTag == Base64.Encode(tag)
  {
    WrapThenUnwrap(wc, kp, pem, aesKey);
    WrapThenUnwrap(wc, kp, pem, iv);
    var wk := RSAEncryptionService.WrapKey(wc, WrapKeyParams(Base64.Encode(aesKey), pem)).value;
    var wi := RSAEncryptionService.WrapKey(wc, WrapKeyParams(Base64.Encode(iv), pem)).value;
    var h := HeaderJson.Header(wk, wi, Base64.Encode(tag));
    EncodedIsPlain(tag);
    TagTextOfLength(tag);
    HeaderJson.HeaderBytesLength(h);
    HeaderJson.ParseHeaderBytes(h);
    HeaderOfWraps(wc, GetEncryptedDataHeaderParams(aesKey, iv, tag, pem), h);
  }

  /** `encrypt` frames the header built for the tag cut from the GCM output
      in front of the ciphertext cut from it. This unfolds `Encrypt`; it is
      a step of `EnvelopeForRecipient`. */
  lemma EncryptFrames(wc: Primitives, params: EncryptParams, aesKey: Bytes, iv: Bytes)
    requires |aesKey| == AesKeyBytes && |iv| == IvBytes
    requires var e := wc.gcmEncrypt(aesKey, iv, params.data);
             RSAEncryptionService.GetEncryptedDataHeader(wc, GetEncryptedDataHeaderParams(
               aesKey, iv, JsBuffer.SliceFrom(e, |e| - TagBytes), params.publicKey)).Success?
    ensures var e := wc.gcmEncrypt(aesKey, iv, params.data);
            var hr := RSAEncryptionService.GetEncryptedDataHeader(wc, GetEncryptedDataHeaderParams(
                        aesKey, iv, JsBuffer.SliceFrom(e, |e| - TagBytes), params.publicKey)).value;
            RSAEncryptionService.Encrypt(wc, params, aesKey, iv)
            == Success(EncryptResult(hr.headerBuffer + JsBuffer.Slice(e, 0, |e| - TagBytes)))
  {
  }

  /** A header buffer followed by ciphertext unframes into the two. */
  lemma UnframeHeaderBuffer(headerBuffer: Bytes, headerBytes: Bytes, ciphertext: Bytes)
    requires |headerBuffer| == 4 + |headerBytes| && headerBuffer[4..] == headerBytes
    requires JsBuffer.ReadUInt32BE(headerBuffer) == Some(|headerBytes|)
    ensures var env := headerBuffer + ciphertext;
            && JsBuffer.ReadUInt32BE(env) == Some(|headerBytes|)
            && JsBuffer.Slice(env, 4, |headerBytes| + 4) == headerBytes
            && JsBuffer.SliceFrom(env, |headerBytes| + 4) == ciphertext
  {
    var env := headerBuffer + ciphertext;
    JsBuffer.ReadUInt32BEPrefix(headerBuffer, ciphertext);
    assert env[4..4 + |headerBytes|] == headerBytes;
    assert env[4 + |headerBytes|..] == ciphertext;
  }

  /** What `parseEncryptedDataHeader` returns once the prefix, the header
      and the two unwraps succeed. This unfolds `ParsedHeaderOf`; it is a
      step of `EnvelopeForRecipient`. */
  lemma ParseFramed(wc: Primitives, kp: Option<KeyPair>, env: Bytes, n: nat, h: HeaderJson.Header,
                    keyText: string, ivText: string)
    requires JsBuffer.ReadUInt32BE(env) == Some(n)
    requires HeaderJson.ParseHeader(JsBuffer.Slice(env, 4, n + 4)) == Some(h)
    requires UnwrapKeyOf(wc, kp, UnwrapKeyParams(h.wrappedKey)) == Success(keyText)
    requires UnwrapKeyOf(wc, kp, UnwrapKeyParams(h.wrappedIV)) == Success(ivText)
    ensures ParsedHeaderOf(wc, kp, ParseEncryptedDataHeaderParams(env))
         == Success(ParseEncryptedDataHeaderResult(Base64.Decode(keyText), Base64.Decode(ivText),
                                                   Base64.Decode(h.authTag), JsBuffer.SliceFrom(env, n + 4)))
  {
    UnwrapsSucceed(wc, kp, env, n, h, keyText, ivText);
  }

  /** The stage after the header: two successful unwraps give the decoded
      key, IV and tag and the remaining bytes. This unfolds
      `ParsedFromHeader`; it is a step of `ParseFramed`. */
  lemma UnwrapsSucceed(wc: Primitives, kp: Option<KeyPair>, env: Bytes, n: nat, h: HeaderJson.Header,
                    keyText: string, ivText: string)
    requires UnwrapKeyOf(wc, kp, UnwrapKeyParams(h.wrappedKey)) == Success(keyText)
    requires UnwrapKeyOf(wc, kp, UnwrapKeyParams(h.wrappedIV)) == Success(ivText)
    ensures ParsedFromHeader(wc, kp, env, n, Some(h))
         == Success(ParseEncryptedDataHeaderResult(Base64.Decode(keyText), Base64.Decode(ivText),
                                                   Base64.Decode(h.authTag), JsBuffer.SliceFrom(env, n + 4)))
  {
  }

  /** The envelope `encrypt` produces for the public key of a generated pair:
      a prefix reading 1437, the header, then the GCM output without its
      last 16 bytes; the tag is only in the header. Parsing it with the
      pair gives back the AES key, the IV, the tag and the ciphertext. */
  lemma EnvelopeForRecipient(wc: Primitives, kp: KeyPair, pem: string, data: Bytes, aesKey: Bytes, iv: Bytes)
    requires Sound(wc) && wc.generated(kp)
    requires RSAEncryptionService.ImportPublicKey(wc, pem) == Success(kp.publicKey)
    requires |aesKey| == AesKeyBytes && |iv| == IvBytes
    ensures var r := RSAEncryptionService.Encrypt(wc, EncryptParams(data, pem), aesKey, iv);
            && r.Success?
            && var env := r.value.encryptedData;
            && var e := wc.gcmEncrypt(aesKey, iv, data);
            && |env| == 4 + EnvelopeHeaderLength + |data|
            && JsBuffer.ReadUInt32BE(env) == Some(EnvelopeHeaderLength)
            && env[4 + EnvelopeHeaderLength..] == e[..|data|]
            && ParsedHeaderOf(wc, Some(kp), ParseEncryptedDataHeaderParams(env))
               == Success(ParseEncryptedDataHeaderResult(aesKey, iv, e[|data|..], e[..|data|]))
  {
    var e := wc.gcmEncrypt(aesKey, iv, data);
    TagSplitLossless(e);
    var tag := JsBuffer.SliceFrom(e, |e| - TagBytes);
    var ciphertext := JsBuffer.Slice(e, 0, |e| - TagBytes);
    HeaderForRecipient(wc, kp, pem, aesKey, iv, tag);
    var hr := RSAEncryptionService.GetEncryptedDataHeader(wc, GetEncryptedDataHeaderParams(aesKey, iv, tag, pem)).value;
    var headerBytes := JsBuffer.Utf8Encode(hr.header);
    EncryptFrames(wc, EncryptParams(data, pem), aesKey, iv);
    var env := hr.headerBuffer + ciphertext;
    UnframeHeaderBuffer(hr.headerBuffer, headerBytes, ciphertext);
    var h := HeaderJson.ParseHeader(headerBytes).value;
    ParseFramed(wc, Some(kp), env, |headerBytes|, h, Base64.Encode(aesKey), Base64.Encode(iv));
    Base64.DecodeEncode(aesKey);
    Base64.DecodeEncode(iv);
    Base64.DecodeEncode(tag);
    assert env[4 + EnvelopeHeaderLength..] == ciphertext;
  }

  /** The text `getPublicKey` returns for a stored pair imports back to its
      public key. */
  lemma ExportedPemImports(wc: Primitives, kp: KeyPair)
    requires Sound(wc)
    ensures PublicKeyPem(wc, Some(kp)).Success?
    ensures RSAEncryptionService.ImportPublicKey(wc, PublicKeyPem(wc, Some(kp)).value) == Success(kp.publicKey)
  {
    ImportExported(wc, kp.publicKey);
  }

  /** AES-GCM decryption, key import included, undoes the encryption the
      service performs with a fresh 256-bit key and 96-bit IV. */
  lemma AesGcmRoundTrip(wc: Primitives, aesKey: Bytes, iv: Bytes, data: Bytes)
    requires Sound(wc) && |aesKey| == AesKeyBytes && |iv| == IvBytes
    ensures AesGcmDecrypt(wc, aesKey, iv, wc.gcmEncrypt(aesKey, iv, data)) == Success(data)
  {
    assert |wc.gcmEncrypt(aesKey, iv, data)| == |data| + TagBytes;
    assert wc.gcmDecrypt(aesKey, iv, wc.gcmEncrypt(aesKey, iv, data)) == Some(data);
  }

  /** The round trip for any recipient text that imports to the public key
      of a generated pair: the service holding that pair decrypts, in header
      mode, what `encrypt` produced. */
  lemma DecryptEnvelope(wc: Primitives, kp: KeyPair, pem: string, data: Bytes, aesKey: Bytes, iv: Bytes)
    requires Sound(wc) && wc.generated(kp)
    requires RSAEncryptionService.ImportPublicKey(wc, pem) == Success(kp.publicKey)
    requires |aesKey| == AesKeyBytes && |iv| == IvBytes
    ensures var r := RSAEncryptionService.Encrypt(wc, EncryptParams(data, pem), aesKey, iv);
            && r.Success?
            && DecryptOf(wc, Some(kp), DecryptParams(r.value.encryptedData, None)) == Success(data)
  {
    EnvelopeForRecipient(wc, kp, pem, data, aesKey, iv);
    var env := RSAEncryptionService.Encrypt(wc, EncryptParams(data, pem), aesKey, iv).value.encryptedData;
    DecryptParsedEnvelope(wc, kp, env, data, aesKey, iv);
  }

  /** Header mode on an envelope whose header gives back the AES key, the IV
      and the split GCM output decrypts to the payload. */
  lemma DecryptParsedEnvelope(wc: Primitives, kp: KeyPair, env: Bytes, data: Bytes, aesKey: Bytes, iv: Bytes)
    requires Sound(wc) && |aesKey| == AesKeyBytes && |iv| == IvBytes
    requires var e := wc.gcmEncrypt(aesKey, iv, data);
             ParsedHeaderOf(wc, Some(kp), ParseEncryptedDataHeaderParams(env))
             == Success(ParseEncryptedDataHeaderResult(aesKey, iv, e[|data|..], e[..|data|]))
    ensures DecryptOf(wc, Some(kp), DecryptParams(env, None)) == Success(data)
  {
    var e := wc.gcmEncrypt(aesKey, iv, data);
    SplitOutputDecrypts(wc, aesKey, iv, data);
    HeaderModeDecrypts(wc, kp, env, ParseEncryptedDataHeaderResult(aesKey, iv, e[|data|..], e[..|data|]), data);
  }

  /** The GCM output cut after the payload's length and put back together
      decrypts to the payload. */
  lemma SplitOutputDecrypts(wc: Primitives, aesKey: Bytes, iv: Bytes, data: Bytes)
    requires Sound(wc) && |aesKey| == AesKeyBytes && |iv| == IvBytes
    ensures var e := wc.gcmEncrypt(aesKey, iv, data);
            |data| <= |e| && AesGcmDecrypt(wc, aesKey, iv, e[..|data|] + e[|data|..]) == Success(data)
  {
    var e := wc.gcmEncrypt(aesKey, iv, data);
    assert |e| == |data| + TagBytes;
    assert e[..|data|] + e[|data|..] == e;
    AesGcmRoundTrip(wc, aesKey, iv, data);
  }

  /** Header mode decrypts what the parsed header and ciphertext decrypt to. */
  lemma HeaderModeDecrypts(wc: Primitives, kp: KeyPair, env: Bytes, parsed: ParseEncryptedDataHeaderResult, data: Bytes)
    requires ParsedHeaderOf(wc, Some(kp), ParseEncryptedDataHeaderParams(env)) == Success(parsed)
    requires AesGcmDecrypt(wc, parsed.key, parsed.iv, parsed.ciphertext + parsed.authTag) == Success(data)
    ensures DecryptOf(wc, Some(kp), DecryptParams(env, None)) == Success(data)
  {
  }

  /** The round trip: a service holding a generated pair decrypts, in header
      mode, whatever `encrypt` produced for the public key it exports. */
  lemma DecryptEncrypted(wc: Primitives, kp: KeyPair, data: Bytes, aesKey: Bytes, iv: Bytes)
    requires Sound(wc) && wc.generated(kp)
    requires |aesKey| == AesKeyBytes && |iv| == IvBytes
    ensures var pem := PublicKeyPem(wc, Some(kp));
            && pem.Success?
            && var r := RSAEncryptionService.Encrypt(wc, EncryptParams(data, pem.value), aesKey, iv);
            && r.Success?
            && DecryptOf(wc, Some(kp), DecryptParams(r.value.encryptedData, None)) == Success(data)
  {
    ExportedPemImports(wc, kp);
    DecryptEnvelope(wc, kp, PublicKeyPem(wc, Some(kp)).value, data, aesKey, iv);
  }

  /** The explicit-key scenario: unwrap the key and IV named in an
      envelope's header, strip the header, and decrypt the remaining
      ciphertext with the tag appended in explicit-key mode; this needs no
      key pair and gives the payload back. */
  lemma ExplicitModeScenario(wc: Primitives, kp: KeyPair, pem: string, any: Option<KeyPair>,
                             data: Bytes, aesKey: Bytes, iv: Bytes)
    requires Sound(wc) && wc.generated(kp)
    requires RSAEncryptionService.ImportPublicKey(wc, pem) == Success(kp.publicKey)
    requires |aesKey| == AesKeyBytes && |iv| == IvBytes
    ensures var r := RSAEncryptionService.Encrypt(wc, EncryptParams(data, pem), aesKey, iv);
            && r.Success?
            && var env := r.value.encryptedData;
            && var header := HeaderJson.ParseHeader(JsBuffer.Slice(env, 4, EnvelopeHeaderLength + 4));
            && header.Some?
            && var key := UnwrapKeyOf(wc, Some(kp), UnwrapKeyParams(header.value.wrappedKey));
            && var ivText := UnwrapKeyOf(wc, Some(kp), UnwrapKeyParams(header.value.wrappedIV));
            && key.Success? && ivText.Success?
            && var body := JsBuffer.SliceFrom(env, EnvelopeHeaderLength + 4) + Base64.Decode(header.value.authTag);
            DecryptOf(wc, any, DecryptParams(body, Some(EncryptionKeyAndIV(key.value, ivText.value)))) == Success(data)
  {
    EnvelopeForRecipient(wc, kp, pem, data, aesKey, iv);
    var env := RSAEncryptionService.Encrypt(wc, EncryptParams(data, pem), aesKey, iv).value.encryptedData;
    var parsed := ParsedHeaderOf(wc, Some(kp), ParseEncryptedDataHeaderParams(env)).value;
    ScenarioHeader(wc, Some(kp), env, parsed);
    SplitOutputDecrypts(wc, aesKey, iv, data);
  }

  /** A header that parses exposes wrapped values that unwrap, and the
      ciphertext and tag `parseEncryptedDataHeader` returns. */
  lemma ScenarioHeader(wc: Primitives, kp: Option<KeyPair>, env: Bytes, parsed: ParseEncryptedDataHeaderResult)
    requires ParsedHeaderOf(wc, kp, ParseEncryptedDataHeaderParams(env)) == Success(parsed)
    requires JsBuffer.ReadUInt32BE(env) == Some(EnvelopeHeaderLength)
    ensures var header := HeaderJson.ParseHeader(JsBuffer.Slice(env, 4, EnvelopeHeaderLength + 4));
            && header.Some?
            && var key := UnwrapKeyOf(wc, kp, UnwrapKeyParams(header.value.wrappedKey));
            && var ivText := UnwrapKeyOf(wc, kp, UnwrapKeyParams(header.value.wrappedIV));
            && key.Success? && ivText.Success?
            && Base64.Decode(key.value) == parsed.key && Base64.Decode(ivText.value) == parsed.iv
            && Base64.Decode(header.value.authTag) == parsed.authTag
            && JsBuffer.SliceFrom(env, EnvelopeHeaderLength + 4) == parsed.ciphertext
  {
  }

  /** Fresh key material shows in the envelope: two encryptions for the
      same generated pair with a different AES key or IV never produce the
      same envelope bytes. */
  lemma FreshMaterialDistinguishes(wc: Primitives, kp: KeyPair, pem: string, data1: Bytes, key1: Bytes, iv1: Bytes,
                                   data2: Bytes, key2: Bytes, iv2: Bytes)
    requires Sound(wc) && wc.generated(kp)
    requires RSAEncryptionService.ImportPublicKey(wc, pem) == Success(kp.publicKey)
    requires |key1| == AesKeyBytes && |iv1| == IvBytes && |key2| == AesKeyBytes && |iv2| == IvBytes
    requires key1 != key2 || iv1 != iv2
    ensures RSAEncryptionService.Encrypt(wc, EncryptParams(data1, pem), key1, iv1)
         != RSAEncryptionService.Encrypt(wc, EncryptParams(data2, pem), key2, iv2)
  {
    EnvelopeForRecipient(wc, kp, pem, data1, key1, iv1);
    EnvelopeForRecipient(wc, kp, pem, data2, key2, iv2);
  }
}
