/** The hybrid envelope encryption of `RSAEncryptionService`: a browser-held
    RSA key pair, AES-GCM for the payload, the AES key and IV wrapped with
    RSA-OAEP under the recipient's public key, and the envelope
    `[4-byte big-endian header length][UTF-8 JSON header][ciphertext]` with
    the GCM tag carried in the header. */
module EncryptionService {
  import opened Prelude
  import JsBuffer
  import Base64
  import Pem
  import HeaderJson
  import opened WebCrypto

  /** What the operations throw. */
  datatype Error =
    | NotInitialized         // "Key pair not initialized"
    | MalformedKey           // importKey("spki") rejects the decoded bytes
    | WrapFailure            // RSA-OAEP encryption fails (message too long)
    | UnwrapFailure          // RSA-OAEP decryption fails
    | InvalidKey             // importKey("raw") rejects the AES key length
    | AuthenticationFailure  // AES-GCM decryption fails (tag, IV, short input)
    | MalformedEnvelope      // readUInt32BE's RangeError, or a header the compact-template parser rejects
    | HeaderTooLarge         // writeUInt32BE's RangeError

  // ----- the parameter and result records -----

  datatype EncryptionKeyAndIV = EncryptionKeyAndIV(key: string, iv: string)

  datatype WrapKeyParams = WrapKeyParams(keyToWrap: string, publicKey: string)

  datatype UnwrapKeyParams = UnwrapKeyParams(keyToUnwrap: string)

  datatype GetEncryptedDataHeaderParams =
    GetEncryptedDataHeaderParams(key: Bytes, iv: Bytes, authTag: Bytes, publicKey: string)

  datatype GetEncryptedDataHeaderResult = GetEncryptedDataHeaderResult(header: string, headerBuffer: Bytes)

  datatype ParseEncryptedDataHeaderParams = ParseEncryptedDataHeaderParams(encryptedData: Bytes)

  datatype ParseEncryptedDataHeaderResult =
    ParseEncryptedDataHeaderResult(key: Bytes, iv: Bytes, authTag: Bytes, ciphertext: Bytes)

  datatype EncryptParams = EncryptParams(data: Bytes, publicKey: string)

  datatype EncryptResult = EncryptResult(encryptedData: Bytes)

  /** `encryptionKeyAndIV` is optional: `None` selects header mode. */
  datatype DecryptParams = DecryptParams(encryptedData: Bytes, encryptionKeyAndIV: Option<EncryptionKeyAndIV>)

  // ----- what the instance methods compute, given the key-pair field -----

  /** `getPublicKey`: the SPKI export of the public key as PEM text. */
  function PublicKeyPem(wc: Primitives, keyPair: Option<KeyPair>): (r: Result<string, Error>)
    ensures r.Failure? <==> keyPair.None?
    ensures r.Failure? ==> r.error == NotInitialized
  {
    if keyPair.None? then Failure(NotInitialized)
    else Success(Pem.Armor(Base64.Encode(wc.exportSpki(keyPair.value.publicKey))))
  }

  /** `unwrapKey`: RSA-OAEP decryption of a base64 string, back to base64. */
  function UnwrapKeyOf(wc: Primitives, keyPair: Option<KeyPair>, params: UnwrapKeyParams): (r: Result<string, Error>)
    ensures keyPair.None? ==> r == Failure(NotInitialized)
    ensures r.Failure? ==> r.error == NotInitialized || r.error == UnwrapFailure
  {
    if keyPair.None? then Failure(NotInitialized)
    else
      match wc.oaepDecrypt(keyPair.value.privateKey, Base64.Decode(params.keyToUnwrap))
      case None => Failure(UnwrapFailure)
      case Some(unwrapped) => Success(Base64.Encode(unwrapped))
  }

  /** `parseEncryptedDataHeader`: length prefix, header JSON, the two
      unwraps, then the ciphertext after the header. */
  function ParsedHeaderOf(wc: Primitives, keyPair: Option<KeyPair>, params: ParseEncryptedDataHeaderParams)
    : (r: Result<ParseEncryptedDataHeaderResult, Error>)
    ensures r.Failure? ==> r.error in {MalformedEnvelope, NotInitialized, UnwrapFailure}
  {
    var data := params.encryptedData;
    match JsBuffer.ReadUInt32BE(data)
    case None => Failure(MalformedEnvelope)
    case Some(headerLength) =>
      ParsedFromHeader(wc, keyPair, data, headerLength, HeaderJson.ParseHeader(JsBuffer.Slice(data, 4, headerLength + 4)))
  }

  /** The stages of `parseEncryptedDataHeader` after the length prefix has
      been read as `headerLength` and the header parsed as `header`. */
  function ParsedFromHeader(wc: Primitives, keyPair: Option<KeyPair>, data: Bytes, headerLength: nat,
                            header: Option<HeaderJson.Header>)
    : Result<ParseEncryptedDataHeaderResult, Error>
  {
    match header
    case None => Failure(MalformedEnvelope)
    case Some(header) =>
      var key :- UnwrapKeyOf(wc, keyPair, UnwrapKeyParams(header.wrappedKey));
      var iv :- UnwrapKeyOf(wc, keyPair, UnwrapKeyParams(header.wrappedIV));
      Success(ParseEncryptedDataHeaderResult(
        Base64.Decode(key), Base64.Decode(iv), Base64.Decode(header.authTag),
        JsBuffer.SliceFrom(data, headerLength + 4)))
  }

  /** `importKey("raw", key, "AES-GCM")` followed by AES-GCM decryption with
      a 128-bit tag. Web Crypto rejects, before any tag check, an input
      shorter than the tag. */
  function AesGcmDecrypt(wc: Primitives, key: Bytes, iv: Bytes, data: Bytes): (r: Result<Bytes, Error>)
    ensures !IsAesKeyLength(|key|) ==> r == Failure(InvalidKey)
    ensures IsAesKeyLength(|key|) && |data| < TagBytes ==> r == Failure(AuthenticationFailure)
    ensures r.Failure? ==> r.error == InvalidKey || r.error == AuthenticationFailure
  {
    if !IsAesKeyLength(|key|) then Failure(InvalidKey)
    else if |data| < TagBytes then Failure(AuthenticationFailure)
    else
      match wc.gcmDecrypt(key, iv, data)
      case None => Failure(AuthenticationFailure)
      case Some(plaintext) => Success(plaintext)
  }

  /** `decrypt`: with explicit key and IV the whole input is `ciphertext ||
      tag`; otherwise the header supplies them and the tag is put back on
      the end of the ciphertext. */
  function DecryptOf(wc: Primitives, keyPair: Option<KeyPair>, params: DecryptParams): (r: Result<Bytes, Error>)
    ensures params.encryptionKeyAndIV.Some? && r.Failure? ==> r.error in {InvalidKey, AuthenticationFailure}
    ensures r.Failure? ==> r.error in {MalformedEnvelope, NotInitialized, UnwrapFailure, InvalidKey, AuthenticationFailure}
  {
    match params.encryptionKeyAndIV
    case Some(explicit) =>
      AesGcmDecrypt(wc, Base64.Decode(explicit.key), Base64.Decode(explicit.iv), params.encryptedData)
    case None =>
      match ParsedHeaderOf(wc, keyPair, ParseEncryptedDataHeaderParams(params.encryptedData))
      case Failure(e) => Failure(e)
      case Success(parsed) => AesGcmDecrypt(wc, parsed.key, parsed.iv, parsed.ciphertext + parsed.authTag)
  }

  lemma MultipleOfFour(k: nat)
    ensures (4 * k) % 4 == 0
  {
  }

  /** The service. Its one field is the ephemeral key pair; only `Init`
      writes it (every other method has no `modifies` clause). */
  class RSAEncryptionService {
    var keyPair: Option<KeyPair>

    constructor ()
      ensures keyPair == None
    {
      keyPair := None;
    }

    /** `init`: stores a key pair from `generateKey` (RSA-OAEP, 4096 bits,
        exponent 65537, SHA-256); the generator's output is the argument. */
    method Init(wc: Primitives, generated: KeyPair)
      requires wc.generated(generated)
      modifies this
      ensures keyPair == Some(generated)
    {
      keyPair := Some(generated);
    }

    /** `getPublicKey`, specified by `PublicKeyPem`. */
    method GetPublicKey(wc: Primitives) returns (r: Result<string, Error>)
      ensures r == PublicKeyPem(wc, keyPair)
      ensures r.Failure? <==> keyPair.None?
      ensures r.Failure? ==> r.error == NotInitialized
    {
      if keyPair.None? {
        return Failure(NotInitialized);
      }
      var exported := wc.exportSpki(keyPair.value.publicKey);
      var exportedAsBase64 := Base64.Encode(exported);
      var pemKey := Pem.Armor(exportedAsBase64);
      return Success(pemKey);
    }

    /** `importPublicKey`: strip header, footer and whitespace, decode the
        base64, import the SPKI bytes. */
    static function ImportPublicKey(wc: Primitives, pemKey: string): (r: Result<PublicKey, Error>)
      ensures r.Failure? ==> r.error == MalformedKey
    {
      match wc.importSpki(Base64.Decode(Pem.Strip(pemKey)))
      case None => Failure(MalformedKey)
      case Some(key) => Success(key)
    }

    /** `wrapKey`: RSA-OAEP encryption of the decoded key under the imported
        public key, as base64. */
    static function WrapKey(wc: Primitives, params: WrapKeyParams): (r: Result<string, Error>)
      ensures r.Failure? ==> r.error == MalformedKey || r.error == WrapFailure
      ensures r.Success? ==> |r.value| % 4 == 0
      ensures r.Success? ==> forall i :: 0 <= i < |r.value| ==> Base64.IsEncodedChar(r.value[i])
    {
      var publicKeyObject :- ImportPublicKey(wc, params.publicKey);
      match wc.oaepEncrypt(publicKeyObject, Base64.Decode(params.keyToWrap))
      case None => Failure(WrapFailure)
      case Some(wrapped) =>
        var text := Base64.Encode(wrapped);
        assert |text| % 4 == 0 by { MultipleOfFour((|wrapped| + 2) / 3); }
        Success(text)
    }

    /** `unwrapKey`, specified by `UnwrapKeyOf`. */
    method UnwrapKey(wc: Primitives, params: UnwrapKeyParams) returns (r: Result<string, Error>)
      ensures r == UnwrapKeyOf(wc, keyPair, params)
      ensures keyPair.None? ==> r == Failure(NotInitialized)
      ensures r.Success? ==> forall i :: 0 <= i < |r.value| ==> Base64.IsEncodedChar(r.value[i])
    {
      if keyPair.None? {
        return Failure(NotInitialized);
      }
      var wrappedKeyBuffer := Base64.Decode(params.keyToUnwrap);
      var unwrappedKey := wc.oaepDecrypt(keyPair.value.privateKey, wrappedKeyBuffer);
      if unwrappedKey.None? {
        return Failure(UnwrapFailure);
      }
      return Success(Base64.Encode(unwrappedKey.value));
    }

    /** `getEncryptedDataHeader`: the JSON header with the wrapped key and
        IV and the base64 tag, prefixed by its UTF-8 length. The prefix
        reads back as the byte length of the header, followed by exactly
        the header's bytes. */
    static function GetEncryptedDataHeader(wc: Primitives, params: GetEncryptedDataHeaderParams)
      : (r: Result<GetEncryptedDataHeaderResult, Error>)
      ensures r.Failure? ==> r.error in {MalformedKey, WrapFailure, HeaderTooLarge}
      ensures r.Success? ==>
        var headerBytes := JsBuffer.Utf8Encode(r.value.header);
        && |r.value.headerBuffer| == 4 + |headerBytes|
        && JsBuffer.ReadUInt32BE(r.value.headerBuffer) == Some(|headerBytes|)
        && r.value.headerBuffer[4..] == headerBytes
    {
      var wrappedKey :- WrapKey(wc, WrapKeyParams(Base64.Encode(params.key), params.publicKey));
      var wrappedIV :- WrapKey(wc, WrapKeyParams(Base64.Encode(params.iv), params.publicKey));
      var header := HeaderJson.Stringify(HeaderJson.Header(wrappedKey, wrappedIV, Base64.Encode(params.authTag)));
      var headerBytes := JsBuffer.Utf8Encode(header);
      match JsBuffer.WriteUInt32BE(|headerBytes|)
      case None => Failure(HeaderTooLarge)
      case Some(headerSizeBuffer) =>
        JsBuffer.ReadAfterWrite(|headerBytes|, headerBytes);
        Success(GetEncryptedDataHeaderResult(header, headerSizeBuffer + headerBytes))
    }

    /** `parseEncryptedDataHeader`, specified by `ParsedHeaderOf`. */
    method ParseEncryptedDataHeader(wc: Primitives, params: ParseEncryptedDataHeaderParams)
      returns (r: Result<ParseEncryptedDataHeaderResult, Error>)
      ensures r == ParsedHeaderOf(wc, keyPair, params)
      ensures JsBuffer.ReadUInt32BE(params.encryptedData).None? ==> r == Failure(MalformedEnvelope)
    {
      var encryptedData := params.encryptedData;
      var headerLength := JsBuffer.ReadUInt32BE(encryptedData);
      if headerLength.None? {
        return Failure(MalformedEnvelope);
      }
      var parsed := HeaderJson.ParseHeader(JsBuffer.Slice(encryptedData, 4, headerLength.value + 4));
      if parsed.None? {
        return Failure(MalformedEnvelope);
      }
      var key := UnwrapKey(wc, UnwrapKeyParams(parsed.value.wrappedKey));
      if key.Failure? {
        return Failure(key.error);
      }
      var iv := UnwrapKey(wc, UnwrapKeyParams(parsed.value.wrappedIV));
      if iv.Failure? {
        return Failure(iv.error);
      }
      var ciphertext := JsBuffer.SliceFrom(encryptedData, headerLength.value + 4);
      return Success(ParseEncryptedDataHeaderResult(
        Base64.Decode(key.value), Base64.Decode(iv.value), Base64.Decode(parsed.value.authTag), ciphertext));
    }

    /** `encrypt`: the fresh AES-256 key and 96-bit IV that `generateKey` and
        `getRandomValues` provide are arguments. The GCM output is cut 16
        bytes before its end into ciphertext and tag; the envelope is the
        header buffer followed by the ciphertext. */
    static function Encrypt(wc: Primitives, params: EncryptParams, aesKey: Bytes, iv: Bytes)
      : (r: Result<EncryptResult, Error>)
      requires |aesKey| == AesKeyBytes && |iv| == IvBytes
      ensures r.Failure? ==> r.error in {MalformedKey, WrapFailure, HeaderTooLarge}
      ensures r.Success? ==> JsBuffer.ReadUInt32BE(r.value.encryptedData).Some?
    {
      var encryptedData := wc.gcmEncrypt(aesKey, iv, params.data);
      var n := |encryptedData|;
      var authTag := JsBuffer.SliceFrom(encryptedData, n - TagBytes);
      var ciphertext := JsBuffer.Slice(encryptedData, 0, n - TagBytes);
      var h :- GetEncryptedDataHeader(wc, GetEncryptedDataHeaderParams(aesKey, iv, authTag, params.publicKey));
      Success(EncryptResult(h.headerBuffer + ciphertext))
    }

    /** `decrypt`: the locals `key`, `iv` and `dataToDecrypt` start from the
        explicit parameters (or the empty string) and are replaced from the
        parsed header when none were given. Specified by `DecryptOf`. */
    method Decrypt(wc: Primitives, params: DecryptParams) returns (r: Result<Bytes, Error>)
      ensures r == DecryptOf(wc, keyPair, params)
      ensures params.encryptionKeyAndIV.None? && keyPair.None? ==>
                r.Failure? && r.error in {NotInitialized, MalformedEnvelope}
    {
      var explicit := params.encryptionKeyAndIV;
      var key := Base64.Decode(if explicit.Some? then explicit.value.key else "");
      var iv := Base64.Decode(if explicit.Some? then explicit.value.iv else "");
      var dataToDecrypt := params.encryptedData;
      if explicit.None? {
        var parsedHeader := ParseEncryptedDataHeader(wc, ParseEncryptedDataHeaderParams(params.encryptedData));
        if parsedHeader.Failure? {
          return Failure(parsedHeader.error);
        }
        key := parsedHeader.value.key;
        iv := parsedHeader.value.iv;
        dataToDecrypt := parsedHeader.value.ciphertext + parsedHeader.value.authTag;
      }
      r := AesGcmDecrypt(wc, key, iv, dataToDecrypt);
    }
  }
}
