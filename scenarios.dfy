/** Two uses of the service object end to end: a payload encrypted for the
    key a fresh service exports and decrypted by that service in header
    mode, and the same envelope decrypted in explicit-key mode after its
    header has been read and unwrapped by hand. */
module Scenarios {
  import opened Prelude
  import JsBuffer
  import Base64
  import HeaderJson
  import opened WebCrypto
  import opened EncryptionService
  import opened EnvelopeProperties

  /** `Buffer.from("hello world")`. */
  const HelloWorld: Bytes := [0x68, 0x65, 0x6C, 0x6C, 0x6F, 0x20, 0x77, 0x6F, 0x72, 0x6C, 0x64]

  /** `Buffer.from("x")`. */
  const LetterX: Bytes := [0x78]

  const HelloWorldText: string := "hello world"

  /** The payload is the UTF-8 encoding of the text "hello world". */
  lemma HelloWorldIsUtf8()
    ensures JsBuffer.Utf8Encode(HelloWorldText) == HelloWorld
  {
    HelloWorldIsAscii();
    JsBuffer.Utf8EncodeAscii(HelloWorldText);
    HelloWorldCodes();
  }

  lemma HelloWorldIsAscii()
    ensures JsBuffer.IsAscii(HelloWorldText)
  {
  }

  lemma HelloWorldCodes()
    ensures JsBuffer.AsciiCodes(HelloWorldText) == HelloWorld
  {
  }

  /** Initialise a service, export its public key, encrypt "hello world" for
      it and decrypt the envelope with the service: the prefix reads 1437,
      the header is the three-field record, and the payload comes back. */
  method HelloWorldRoundTrip(wc: Primitives, generated: KeyPair, aesKey: Bytes, iv: Bytes)
    returns (headerLength: Option<nat>, header: Option<HeaderJson.Header>, decrypted: Result<Bytes, Error>)
    requires Sound(wc) && wc.generated(generated)
    requires |aesKey| == AesKeyBytes && |iv| == IvBytes
    ensures headerLength == Some(EnvelopeHeaderLength)
    ensures header.Some?
    ensures decrypted == Success(HelloWorld)
  {
    var service := new RSAEncryptionService();
    service.Init(wc, generated);
    var pem := service.GetPublicKey(wc);
    ExportedPemImports(wc, generated);
    DecryptEnvelope(wc, generated, pem.value, HelloWorld, aesKey, iv);
    EnvelopeForRecipient(wc, generated, pem.value, HelloWorld, aesKey, iv);
    var encrypted := RSAEncryptionService.Encrypt(wc, EncryptParams(HelloWorld, pem.value), aesKey, iv);
    var envelope := encrypted.value.encryptedData;
    ScenarioHeader(wc, Some(generated), envelope,
                   ParsedHeaderOf(wc, Some(generated), ParseEncryptedDataHeaderParams(envelope)).value);
    headerLength := JsBuffer.ReadUInt32BE(envelope);
    header := HeaderJson.ParseHeader(JsBuffer.Slice(envelope, 4, headerLength.value + 4));
    decrypted := service.Decrypt(wc, DecryptParams(envelope, None));
  }

  /** Encrypt "x" for a fresh service, read the header, unwrap the key and
      IV with the service, and decrypt the ciphertext followed by the tag in
      explicit-key mode. */
  method ExplicitKeyRoundTrip(wc: Primitives, generated: KeyPair, aesKey: Bytes, iv: Bytes)
    returns (decrypted: Result<Bytes, Error>)
    requires Sound(wc) && wc.generated(generated)
    requires |aesKey| == AesKeyBytes && |iv| == IvBytes
    ensures decrypted == Success(LetterX)
  {
    var service := new RSAEncryptionService();
    service.Init(wc, generated);
    var pem := service.GetPublicKey(wc);
    ExportedPemImports(wc, generated);
    ExplicitModeScenario(wc, generated, pem.value, Some(generated), LetterX, aesKey, iv);
    EnvelopeForRecipient(wc, generated, pem.value, LetterX, aesKey, iv);
    var encrypted := RSAEncryptionService.Encrypt(wc, EncryptParams(LetterX, pem.value), aesKey, iv);
    var envelope := encrypted.value.encryptedData;
    var headerLength := JsBuffer.ReadUInt32BE(envelope).value;
    var header := HeaderJson.ParseHeader(JsBuffer.Slice(envelope, 4, headerLength + 4)).value;
    var key := service.UnwrapKey(wc, UnwrapKeyParams(header.wrappedKey));
    var ivText := service.UnwrapKey(wc, UnwrapKeyParams(header.wrappedIV));
    var body := JsBuffer.SliceFrom(envelope, headerLength + 4) + Base64.Decode(header.authTag);
    decrypted := service.Decrypt(wc, DecryptParams(body, Some(EncryptionKeyAndIV(key.value, ivText.value))));
  }
}
