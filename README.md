# RSAEncryptionService, modelled in Dafny

This model covers the hybrid envelope encryption of the Polaris client, `RSAEncryptionService`. The service keeps one ephemeral RSA-OAEP key pair and publishes its public key as PEM text (SubjectPublicKeyInfo, section 13 of RFC 7468, over base64 from section 4 of RFC 4648). It encrypts a payload for a recipient's public key as follows:

- it uses a fresh AES-256-GCM key and a 96-bit IV;
- it cuts the 16-byte tag off the GCM output;
- it wraps the key and the IV with RSA-OAEP (SHA-256, section 7.1 of RFC 8017) under the recipient's key;
- it writes the envelope as `[4-byte big-endian header length][UTF-8 JSON header][ciphertext without tag]`. The header is `{"wrappedKey","wrappedIV","authTag"}`.

Decryption has two modes:

- **Header mode** parses the header, unwraps the key and IV with the service's private key, rejoins `ciphertext || tag` and decrypts.
- **Explicit-key mode** takes a base64 key and IV and decrypts the whole input as given.

## Modules

| file | module | contents |
|---|---|---|
| `prelude.dfy` | `Prelude` | bytes, `Option`, `Result` |
| `js_buffer.dfy` | `JsBuffer` | the Buffer/ArrayBuffer operations the service uses. These are `slice`/`subarray` with ECMAScript index clamping, `writeUInt32BE`/`readUInt32BE` (out of range is the RangeError as `None`), and UTF-8 encoding. |
| `base64.dfy` | `Base64` | padded encoding (`btoa`, `toString("base64")`) and the lenient decoder of `Buffer.from(s, "base64")` |
| `pem.dfy` | `Pem` | the armour `getPublicKey` builds (64-character lines) and the stripping `importPublicKey` does (first header, first footer, every JavaScript `\s`) |
| `header_json.dfy` | `HeaderJson` | `JSON.stringify` of the three-field record, with full string escaping, and `JSON.parse` of its compact form with JSON whitespace around it |
| `web_crypto.dfy` | `WebCrypto` | the Web Crypto primitives as an explicit capability value, with their correctness properties collected in `Sound` |
| `rsa_encryption_service.dfy` | `EncryptionService` | the record types of lines 5–79 and the class `RSAEncryptionService` |
| `envelope_properties.dfy` | `EnvelopeProperties` | layout, framing, round trips, the two modes, the uninitialised service, truncation and prefix corruption |
| `scenarios.dfy` | `Scenarios` | the "hello world" header-mode scenario and the "x" explicit-key scenario, written as methods over a service object |

### How the model represents the code

- **The key pair is the class's state.** `RSAEncryptionService` has the one field `keyPair: Option<KeyPair>`. `Init` is the only method with a `modifies` clause.
- **Methods where the code works step by step.** `getPublicKey`, `unwrapKey`, `parseEncryptedDataHeader` and `decrypt` are methods whose statements follow the code: early failures, then reassigned locals.
- **Pure code is a function.** The static operations `importPublicKey`, `wrapKey`, `getEncryptedDataHeader` and `encrypt` compute a value from their arguments, so they are functions.
- **Specification functions.** Each instance method is proved equal to a function of the key pair and the arguments: `PublicKeyPem`, `UnwrapKeyOf`, `ParsedHeaderOf` and `DecryptOf`. The properties are proved about these functions.
- **Asynchrony.** Every `await` is sequential composition.
- **Thrown errors are `Failure` values.**
  - `NotInitialized` is "Key pair not initialized".
  - `MalformedKey` is `importKey("spki")` rejecting the key.
  - `WrapFailure` and `UnwrapFailure` are RSA-OAEP encryption and decryption failing.
  - `InvalidKey` is `importKey("raw")` rejecting the key length.
  - `AuthenticationFailure` is AES-GCM failing.
  - `MalformedEnvelope` is the RangeError of `readUInt32BE`, or the header not parsing under the model's compact-template parser (see `HeaderJson.ParseHeader` under "## Left out").
  - `HeaderTooLarge` is the RangeError of `writeUInt32BE`.
- **Randomness is passed in.** The AES key, the IV and the generated key pair are parameters (`Encrypt`'s `aesKey`/`iv`, `Init`'s `generated`).
- **The primitives live in a `WebCrypto.Primitives` value.** The round-trip lemmas assume `Sound(wc)`:
  - an exported SPKI imports back;
  - OAEP under a generated pair encrypts every message of at most 446 bytes into 512 bytes, and the private key decrypts it back;
  - GCM output is the plaintext length plus 16 bytes, and it decrypts back under a 32-byte key and a 12-byte IV.

  The operations themselves never assume `Sound`.

### Observations about the code

- **Short or over-long envelopes.** `parseEncryptedDataHeader` checks the envelope's length only through `readUInt32BE`. That call throws a RangeError on fewer than 4 bytes, which the model calls `MalformedEnvelope`.
  - `subarray` clamps, so a length prefix larger than the buffer silently selects everything after the prefix as the header.
  - `JSON.parse` skips JSON whitespace (tab, line feed, carriage return, space) after the closing brace. If the bytes after the header hold any other byte, the selection is not a header and the envelope is rejected (`OversizedPrefixFails`).
  - If the ciphertext is empty, the oversized prefix goes unnoticed: the envelope parses exactly as with the honest prefix (`OversizedPrefixUnnoticed`).
  - If the ciphertext is all JSON whitespace, it is taken as padding after the header. The envelope then parses as the header alone with an honest prefix, and the ciphertext is lost (`OversizedPrefixWhitespace`).
  - An envelope cut short anywhere before the end of its header is rejected whenever the header's last byte is not whitespace (`TruncatedEnvelopeFails`). Every header `getEncryptedDataHeader` writes ends in `}` (`HeaderBytesEnd`).
- **Empty base64 in `getPublicKey`.** `match(/.{1,64}/g)` returns `null` on an empty string, so the PEM body becomes the word "undefined" (`Pem.StripArmorOfEmpty`). An SPKI export is never empty under `Sound`, so the round trip is unaffected.
- **Error names.** The code catches nothing: every error raised by Web Crypto or `Buffer` reaches the caller as is. The model names each of these by where it comes from:
  - `WrapFailure` is RSA-OAEP `encrypt` rejecting in `wrapKey`;
  - `InvalidKey` is `importKey("raw")` rejecting a key length in `decrypt`;
  - `HeaderTooLarge` is the RangeError `writeUInt32BE` throws for a header of 2^32 bytes or more.

## Model

| member | source | states |
|---|---|---|
| JsBuffer.Slice | polaris-client/lib/RSAEncryptionService.ts:239 | `subarray`/`slice` never fails and never grows the buffer; within bounds it is the plain subsequence |
| JsBuffer.SliceFrom | polaris-client/lib/RSAEncryptionService.ts:245 | from an in-range start it is the suffix; at or past the end it is empty |
| JsBuffer.SliceFromEnd | polaris-client/lib/RSAEncryptionService.ts:274 | a start `k` bytes before the end, written `len - k` or `-k`, selects the last `k` bytes; on a buffer shorter than `k`, `-k` selects all of it and `len - k` counts from the end a second time |
| JsBuffer.SliceSplit | polaris-client/lib/RSAEncryptionService.ts:274-275 | the two slices at one cut point, put together, are the original buffer, for every cut, negative or past the end included |
| JsBuffer.WriteUInt32BE | polaris-client/lib/RSAEncryptionService.ts:223-224 | defined exactly on [0, 2^32), and then four bytes |
| JsBuffer.ReadUInt32BE | polaris-client/lib/RSAEncryptionService.ts:238 | defined exactly when at least 4 bytes are present; the value is below 2^32 |
| JsBuffer.ReadAfterWrite | polaris-client/lib/RSAEncryptionService.ts:223-224 | reading the written prefix gives the written value, whatever follows |
| JsBuffer.WriteAfterRead | polaris-client/lib/RSAEncryptionService.ts:238 | writing the value read reproduces the first four bytes, so the prefix encoding is a bijection |
| JsBuffer.ReadUInt32BEPrefix | polaris-client/lib/RSAEncryptionService.ts:238 | only the first four bytes are read |
| JsBuffer.Utf8Char | polaris-client/lib/RSAEncryptionService.ts:227 | one character is 1 to 4 bytes, and exactly one byte (its code) when it is ASCII |
| JsBuffer.Utf8Encode | polaris-client/lib/RSAEncryptionService.ts:224-227 | `Buffer.byteLength` is between the length and four times it; ASCII text encodes to its codes |
| JsBuffer.Utf8EncodeAscii | polaris-client/lib/RSAEncryptionService.ts:227 | on ASCII text `Buffer.from` equals the character codes |
| JsBuffer.Utf8EncodeAppend | polaris-client/lib/RSAEncryptionService.ts:227 | encoding distributes over concatenation |
| Base64.CharOf | polaris-client/lib/RSAEncryptionService.ts:112 | each digit written is a standard digit that decodes to its value |
| Base64.Encode | polaris-client/lib/RSAEncryptionService.ts:112 | the output is 4·⌈n/3⌉ characters long, all from the alphabet or pad |
| Base64.Sextets | polaris-client/lib/RSAEncryptionService.ts:132 | the decoder's cleaning: digit values up to the first '=', non-digits dropped, never longer than the input; its properties are in `SextetsOfDigits` |
| Base64.FromSextets | polaris-client/lib/RSAEncryptionService.ts:132 | regrouping digits into bytes: 3·n/4 bytes (rounded down) from n digits; its properties are in `DecodeGroup` and `DecodePartialGroup` |
| Base64.Decode | polaris-client/lib/RSAEncryptionService.ts:132 | `Buffer.from(s, "base64")` (also at lines 160, 185, 242-243, 247, 300-301) never fails and gives at most one byte per character; its inverse property is `DecodeEncode` |
| Base64.SextetsOfDigits | polaris-client/lib/RSAEncryptionService.ts:132 | standard digits decode to their values, one each, in order |
| Base64.DecodeGroup | polaris-client/lib/RSAEncryptionService.ts:132 | a full group of four digits decodes to its three bytes, followed by the decoding of the rest |
| Base64.DecodePartialGroup | polaris-client/lib/RSAEncryptionService.ts:132 | a padded final group decodes to its one or two bytes |
| Base64.DecodeEncode | polaris-client/lib/RSAEncryptionService.ts:172 | `Buffer.from(toString("base64"), "base64")` is the identity on bytes |
| Pem.Chunks | polaris-client/lib/RSAEncryptionService.ts:113 | the lines put together are the input; every line has 1..64 characters and all but the last exactly 64; there are no lines only for the empty input |
| Pem.RemoveWhitespace | polaris-client/lib/RSAEncryptionService.ts:129 | the result holds no JavaScript whitespace and is no longer than the input |
| Pem.ReplaceFirst | polaris-client/lib/RSAEncryptionService.ts:129 | a string-pattern `replace` leaves the length alone or shortens it by exactly the pattern's length |
| Pem.ReplaceFirstAbsent | polaris-client/lib/RSAEncryptionService.ts:129 | when the pattern occurs nowhere, `replace` returns the string unchanged |
| Pem.ReplaceFirstRemovesFirst | polaris-client/lib/RSAEncryptionService.ts:129 | when the pattern first occurs at index i, `replace` removes exactly that occurrence and keeps everything before and after it |
| Pem.Armor | polaris-client/lib/RSAEncryptionService.ts:111-114 | definition of the PEM template; its properties are in `ArmorLayout` and `StripArmor` |
| Pem.Strip | polaris-client/lib/RSAEncryptionService.ts:129 | the text handed to the decoder is no longer than the PEM and holds no JavaScript whitespace; its inverse property is `StripArmor` |
| Pem.ArmorLayout | polaris-client/lib/RSAEncryptionService.ts:113-114 | the PEM text starts with the header line and a line feed, ends with a line feed and the footer line, and between them holds the 64-character lines joined by line feeds |
| Pem.ChunkCharsAreBase64 | polaris-client/lib/RSAEncryptionService.ts:113 | every character of every line is a base64 character (so no line holds a line feed of its own) |
| Pem.RemoveWhitespaceOfBody | polaris-client/lib/RSAEncryptionService.ts:129 | removing whitespace from the joined lines gives back the base64 string |
| Pem.BodyHasNoDash | polaris-client/lib/RSAEncryptionService.ts:128-129 | the body holds no '-', so the first footer occurrence is the real footer |
| Pem.StripArmor | polaris-client/lib/RSAEncryptionService.ts:111-129 | stripping as `importPublicKey` does returns exactly the non-empty base64 string `getPublicKey` armoured |
| Pem.StripArmorOfEmpty | polaris-client/lib/RSAEncryptionService.ts:113-114 | an empty base64 string is armoured around "undefined" and strips to "undefined" |
| HeaderJson.PlainSpan | polaris-client/lib/RSAEncryptionService.ts:239 | the run of escape-free characters the parser reads never passes the end of the input |
| HeaderJson.PlainSpanIsLeadingRun | polaris-client/lib/RSAEncryptionService.ts:239 | that run is the longest prefix of escape-free characters |
| HeaderJson.Chars | polaris-client/lib/RSAEncryptionService.ts:239 | `toString()` of single-byte characters gives one character per byte |
| HeaderJson.Stringify | polaris-client/lib/RSAEncryptionService.ts:216-220 | definition of `JSON.stringify` on the record; its properties are in `StringifyPlain` and `ParseHeaderBytes` |
| HeaderJson.ParseHeader | polaris-client/lib/RSAEncryptionService.ts:239 | definition of `JSON.parse` plus destructuring on the compact form (see "## Left out"); its properties are in `ParseHeaderBytes`, `ParseHeaderPadded`, `ParseHeaderExtension` and `ParseHeaderPrefix` |
| HeaderJson.EscapePlain | polaris-client/lib/RSAEncryptionService.ts:216-220 | `JSON.stringify` copies a printable string without quote or backslash unchanged |
| HeaderJson.StringifyPlain | polaris-client/lib/RSAEncryptionService.ts:216-220 | a header of plain values serialises to the fixed template with the values copied in |
| HeaderJson.HeaderBytesPieces | polaris-client/lib/RSAEncryptionService.ts:216-227 | its UTF-8 bytes are the template's bytes interleaved with the values' bytes |
| HeaderJson.HeaderBytesLength | polaris-client/lib/RSAEncryptionService.ts:224 | the header's byte length is 45 plus the three value lengths |
| HeaderJson.ReadFieldOfPlain | polaris-client/lib/RSAEncryptionService.ts:239 | a plain value followed by its closing delimiter reads back as itself, leaving the rest |
| HeaderJson.ReadFields | polaris-client/lib/RSAEncryptionService.ts:239 | reading the values of the header yields one value per delimiter |
| HeaderJson.ReadFieldsOfPlain | polaris-client/lib/RSAEncryptionService.ts:239 | a plain value and its delimiter in front of further fields add that value at the head of what is read |
| HeaderJson.ReadPlainFields | polaris-client/lib/RSAEncryptionService.ts:239 | three plain values, each followed by a delimiter starting with a quote, read back as themselves with nothing left over |
| HeaderJson.ParseFilledTemplate | polaris-client/lib/RSAEncryptionService.ts:239 | reading a template filled with plain values gives back the values |
| HeaderJson.ParseHeaderBytes | polaris-client/lib/RSAEncryptionService.ts:216-220 | `JSON.parse` of the bytes `JSON.stringify` wrote gives back the header (plain values) |
| HeaderJson.ReadFieldExtend | polaris-client/lib/RSAEncryptionService.ts:239 | bytes appended after a field leave its value alone and end up in the remainder |
| HeaderJson.ReadFieldsExtend | polaris-client/lib/RSAEncryptionService.ts:239 | bytes appended after the last delimiter leave all the values alone and end up in the remainder |
| HeaderJson.WhitespaceSpanExtend | polaris-client/lib/RSAEncryptionService.ts:239 | bytes appended after a non-whitespace byte do not change the leading whitespace `JSON.parse` skips |
| HeaderJson.WhitespaceSpanPadded | polaris-client/lib/RSAEncryptionService.ts:239 | whitespace put in front of bytes that start with a non-whitespace byte is exactly what is skipped |
| HeaderJson.AllWhitespaceAppend | polaris-client/lib/RSAEncryptionService.ts:239 | two byte strings together are whitespace exactly when each of them is |
| HeaderJson.TemplateExtension | polaris-client/lib/RSAEncryptionService.ts:239 | a parsed template followed by extra bytes parses to the same values when they are all whitespace, and fails otherwise |
| HeaderJson.ParseHeaderExtension | polaris-client/lib/RSAEncryptionService.ts:239 | a parseable header followed by whitespace parses the same; followed by anything else it is a SyntaxError |
| HeaderJson.ParseHeaderPadded | polaris-client/lib/RSAEncryptionService.ts:216-239 | a serialised plain header with whitespace before and after it parses to the same header |
| HeaderJson.ParseHeaderPrefix | polaris-client/lib/RSAEncryptionService.ts:239 | no proper prefix of a parseable header that ends in a non-whitespace byte parses |
| HeaderJson.HeaderBytesEnd | polaris-client/lib/RSAEncryptionService.ts:216-227 | the bytes of a serialised plain header end with the closing brace |
| HeaderJson.ParseHeaderTruncated | polaris-client/lib/RSAEncryptionService.ts:239 | a serialised header cut short does not parse |
| EncryptionService.PublicKeyPem | polaris-client/lib/RSAEncryptionService.ts:106-117 | `getPublicKey` fails exactly when there is no key pair, and then with NotInitialized; its inverse property is `ImportExported` |
| EncryptionService.UnwrapKeyOf | polaris-client/lib/RSAEncryptionService.ts:181-198 | `unwrapKey` without a key pair is NotInitialized; otherwise it fails only with UnwrapFailure; its inverse property is `WrapThenUnwrap` |
| EncryptionService.ParsedHeaderOf | polaris-client/lib/RSAEncryptionService.ts:235-248 | `parseEncryptedDataHeader` fails only with MalformedEnvelope, NotInitialized or UnwrapFailure; its properties are in `ParseFramed`, `UnparsedHeaderFails` and `TruncatedEnvelopeFails` |
| EncryptionService.AesGcmDecrypt | polaris-client/lib/RSAEncryptionService.ts:314-325 | a key of a length other than 16, 24 or 32 bytes is InvalidKey; an input shorter than the 16-byte tag is AuthenticationFailure; no other error; its inverse property is `AesGcmRoundTrip` |
| EncryptionService.DecryptOf | polaris-client/lib/RSAEncryptionService.ts:299-328 | `decrypt` fails only with the parser's errors, InvalidKey or AuthenticationFailure, and in explicit-key mode only with the last two; its inverse property is `DecryptEncrypted` |
| EncryptionService.RSAEncryptionService.constructor | polaris-client/lib/RSAEncryptionService.ts:83 | a new service holds no key pair |
| EncryptionService.RSAEncryptionService.Init | polaris-client/lib/RSAEncryptionService.ts:88-99 | the field becomes the generated pair; `init` is the only writer of the field |
| EncryptionService.RSAEncryptionService.GetPublicKey | polaris-client/lib/RSAEncryptionService.ts:106-117 | the PEM of the SPKI export; fails iff uninitialised, and then with NotInitialized |
| EncryptionService.RSAEncryptionService.ImportPublicKey | polaris-client/lib/RSAEncryptionService.ts:125-145 | the only failure is MalformedKey |
| EncryptionService.RSAEncryptionService.WrapKey | polaris-client/lib/RSAEncryptionService.ts:156-173 | fails only with MalformedKey or WrapFailure; a success is padded base64 (length a multiple of 4, alphabet only) |
| EncryptionService.RSAEncryptionService.UnwrapKey | polaris-client/lib/RSAEncryptionService.ts:181-198 | equals UnwrapKeyOf of the field; uninitialised gives NotInitialized; a success is base64 text |
| EncryptionService.RSAEncryptionService.GetEncryptedDataHeader | polaris-client/lib/RSAEncryptionService.ts:209-233 | fails only with MalformedKey, WrapFailure or HeaderTooLarge; the buffer is 4 + byteLength(header) long, its prefix reads byteLength(header), and the rest is exactly the header's UTF-8 bytes |
| EncryptionService.RSAEncryptionService.ParseEncryptedDataHeader | polaris-client/lib/RSAEncryptionService.ts:235-248 | equals ParsedHeaderOf of the field: prefix, header, two unwraps, then the rest as ciphertext; fewer than 4 bytes gives MalformedEnvelope |
| EncryptionService.RSAEncryptionService.Encrypt | polaris-client/lib/RSAEncryptionService.ts:258-288 | fails only with MalformedKey, WrapFailure or HeaderTooLarge; a success starts with a readable length prefix |
| EncryptionService.RSAEncryptionService.Decrypt | polaris-client/lib/RSAEncryptionService.ts:299-328 | equals DecryptOf of the field; header mode on an uninitialised service fails with NotInitialized or MalformedEnvelope |
| EnvelopeProperties.TagSplitLossless | polaris-client/lib/RSAEncryptionService.ts:274-275 | ciphertext ++ tag is the GCM output; on 16 bytes or more the tag is the last 16 bytes and the ciphertext the rest |
| EnvelopeProperties.FrameUnframe | polaris-client/lib/RSAEncryptionService.ts:238-245 | on prefix ++ header ++ ciphertext the reads of the parser give the header length, the header bytes and the ciphertext |
| EnvelopeProperties.ExplicitModeUsesWholeBuffer | polaris-client/lib/RSAEncryptionService.ts:300-305 | explicit-key mode does not depend on the key pair and passes the whole input unchanged to AES-GCM under the decoded key and IV |
| EnvelopeProperties.HeaderModeRejoinsTag | polaris-client/lib/RSAEncryptionService.ts:305-311 | header mode decrypts exactly ciphertext ++ tag under the unwrapped key and IV |
| EnvelopeProperties.UninitializedFails | polaris-client/lib/RSAEncryptionService.ts:107 | without a key pair `getPublicKey` and `unwrapKey` fail with NotInitialized and header-mode `decrypt` fails (NotInitialized, or MalformedEnvelope in the model, where the source may get to unwrapping first) |
| EnvelopeProperties.UnparsedHeaderFails | polaris-client/lib/RSAEncryptionService.ts:238-239 | an unreadable prefix or an unparseable header is MalformedEnvelope, in the parser and in header-mode `decrypt` |
| EnvelopeProperties.CutHeaderUnparsed | polaris-client/lib/RSAEncryptionService.ts:238-239 | cutting inside a header that ends in a non-whitespace byte keeps the prefix and leaves, where the parser looks, bytes that do not parse |
| EnvelopeProperties.CutEnvelope | polaris-client/lib/RSAEncryptionService.ts:238-239 | cutting inside the header keeps the prefix and leaves a proper prefix of the header where the parser looks |
| EnvelopeProperties.TruncatedEnvelopeFails | polaris-client/lib/RSAEncryptionService.ts:238-239 | an envelope whose header ends in a non-whitespace byte, cut anywhere before the end of that header, is MalformedEnvelope in the parser and in header-mode `decrypt` |
| EnvelopeProperties.OversizedPrefixFails | polaris-client/lib/RSAEncryptionService.ts:238-239 | a prefix raised beyond the buffer, with a ciphertext holding a non-whitespace byte, is MalformedEnvelope |
| EnvelopeProperties.OversizedPrefixWhitespace | polaris-client/lib/RSAEncryptionService.ts:238-245 | a prefix raised beyond the buffer, with a ciphertext of whitespace only, parses as the header alone with the honest prefix: the ciphertext is dropped |
| EnvelopeProperties.ClampedFrame | polaris-client/lib/RSAEncryptionService.ts:239-245 | a prefix at least as large as what follows selects all of it as the header and leaves no ciphertext |
| EnvelopeProperties.SameCiphertextSameResult | polaris-client/lib/RSAEncryptionService.ts:242-247 | after the header, the result depends on the buffer only through the bytes left for the ciphertext |
| EnvelopeProperties.OversizedPrefixUnnoticed | polaris-client/lib/RSAEncryptionService.ts:238-245 | with no ciphertext, any oversized prefix parses the same as the honest one |
| EnvelopeProperties.EncodedIsPlain | polaris-client/lib/RSAEncryptionService.ts:216-220 | base64 text needs no JSON escaping |
| EnvelopeProperties.ImportExported | polaris-client/lib/RSAEncryptionService.ts:106-145 | importing the PEM of an exported key gives the key back |
| EnvelopeProperties.ExportedPemImports | polaris-client/lib/RSAEncryptionService.ts:106-145 | `getPublicKey` on an initialised service succeeds, and its text imports to the stored public key |
| EnvelopeProperties.WrapAsOaep | polaris-client/lib/RSAEncryptionService.ts:156-173 | wrapping a short secret under an imported generated key is OAEP encryption of it, as base64 |
| EnvelopeProperties.WrappedTextLength | polaris-client/lib/RSAEncryptionService.ts:172 | the base64 of a 512-byte ciphertext is 684 characters |
| EnvelopeProperties.UnwrapOaep | polaris-client/lib/RSAEncryptionService.ts:181-198 | unwrapping an OAEP ciphertext with the matching private key gives the base64 of the message |
| EnvelopeProperties.WrapThenUnwrap | polaris-client/lib/RSAEncryptionService.ts:156-198 | wrap then unwrap is the identity on the base64 of a secret, and the wrapped text is 684 plain characters |
| EnvelopeProperties.HeaderOfWraps | polaris-client/lib/RSAEncryptionService.ts:216-227 | when both wraps succeed and the header fits 32 bits, the header is the serialised record |
| EnvelopeProperties.TagTextOfLength | polaris-client/lib/RSAEncryptionService.ts:219 | the base64 of the 16-byte tag is 24 characters |
| EnvelopeProperties.HeaderForRecipient | polaris-client/lib/RSAEncryptionService.ts:209-233 | for a generated recipient the header is 1437 bytes; it parses, and its fields unwrap to the AES key and IV; the tag field is the base64 of the tag |
| EnvelopeProperties.EncryptFrames | polaris-client/lib/RSAEncryptionService.ts:274-287 | the envelope is the header buffer for the cut-off tag followed by the ciphertext without the tag |
| EnvelopeProperties.UnframeHeaderBuffer | polaris-client/lib/RSAEncryptionService.ts:238-245 | a header buffer followed by ciphertext unframes into the header bytes and the ciphertext |
| EnvelopeProperties.UnwrapsSucceed | polaris-client/lib/RSAEncryptionService.ts:242-247 | after a parsed header, two successful unwraps give the decoded key, IV and tag and the remaining bytes |
| EnvelopeProperties.ParseFramed | polaris-client/lib/RSAEncryptionService.ts:235-248 | what the parser returns once prefix, header and both unwraps succeed |
| EnvelopeProperties.EnvelopeForRecipient | polaris-client/lib/RSAEncryptionService.ts:258-288 | `encrypt` succeeds for a generated recipient; the envelope is 4 + 1437 + len(data) bytes; the prefix reads 1437; after the header come exactly the GCM output's first len(data) bytes (the tag is only in the header); the recipient parses back the AES key, the IV, the tag and the ciphertext |
| EnvelopeProperties.FreshMaterialDistinguishes | polaris-client/lib/RSAEncryptionService.ts:259-261 | a different AES key or IV always gives a different envelope |
| EnvelopeProperties.AesGcmRoundTrip | polaris-client/lib/RSAEncryptionService.ts:264-271 | key import plus GCM decryption undoes the service's GCM encryption |
| EnvelopeProperties.SplitOutputDecrypts | polaris-client/lib/RSAEncryptionService.ts:274-275 | the GCM output cut after the payload and rejoined decrypts to the payload |
| EnvelopeProperties.HeaderModeDecrypts | polaris-client/lib/RSAEncryptionService.ts:305-327 | header mode returns what the parsed key, IV and ciphertext ++ tag decrypt to |
| EnvelopeProperties.DecryptParsedEnvelope | polaris-client/lib/RSAEncryptionService.ts:305-327 | an envelope whose header gives back the key, IV and split output decrypts to the payload |
| EnvelopeProperties.DecryptEnvelope | polaris-client/lib/RSAEncryptionService.ts:258-328 | for any text importing to a generated public key, header-mode `decrypt` of `encrypt`'s envelope with that pair returns the payload |
| EnvelopeProperties.DecryptEncrypted | polaris-client/lib/RSAEncryptionService.ts:106-328 | decrypt(encrypt(data, getPublicKey())) == data on the service holding the pair |
| EnvelopeProperties.ScenarioHeader | polaris-client/lib/RSAEncryptionService.ts:238-247 | a parsed envelope's header unwraps to the returned key and IV, and its tag field and remaining bytes are the returned tag and ciphertext |
| EnvelopeProperties.ExplicitModeScenario | polaris-client/lib/RSAEncryptionService.ts:299-327 | unwrapping the header by hand and decrypting ciphertext ++ tag in explicit-key mode (with any key pair or none) returns the payload |
| Scenarios.HelloWorldIsUtf8 | polaris-client/lib/RSAEncryptionService.ts:227 | the payload bytes are the UTF-8 encoding of "hello world" |
| Scenarios.HelloWorldRoundTrip | polaris-client/lib/RSAEncryptionService.ts:88-328 | a fresh service, initialised, exporting its key: "hello world" encrypted for it has prefix 1437, a three-field header, and header-mode decrypt returns the 11 bytes |
| Scenarios.ExplicitKeyRoundTrip | polaris-client/lib/RSAEncryptionService.ts:181-327 | "x" encrypted for a fresh service, its key and IV unwrapped by the service, decrypts in explicit-key mode to "x" |

## Left out

- Web Crypto (`generateKey`, `exportKey`, `importKey`, RSA-OAEP and AES-GCM `encrypt`/`decrypt`) is abstract. These are foreign calls, and `WebCrypto.Sound` states only the round-trip and length properties the envelope relies on.
- Randomness (`generateKey`, `getRandomValues`) is not modelled. Fresh material is a parameter, so "two encryptions differ" is proved only for different key or IV inputs (`FreshMaterialDistinguishes`). OAEP's own randomness is folded into the abstract `oaepEncrypt`.
- Tamper detection and wrong-key rejection are not proved. They are properties of AES-GCM and RSA-OAEP themselves, which the model does not have. The model does show that both failures surface as `AuthenticationFailure` and `UnwrapFailure`.
- EncryptionService.RSAEncryptionService.Encrypt: requires a 32-byte key and a 12-byte IV. These are the sizes the code's generators always produce; they are not a demand on callers.
- HeaderJson.ParseHeader: models `JSON.parse` and the destructuring only on the compact form `JSON.stringify` writes, with values of printable ASCII free of escapes, and with JSON whitespace allowed before and after the object. The model rejects, as `MalformedEnvelope`, headers that `JSON.parse` accepts: whitespace between tokens, other key orders, extra keys, missing keys (`{}` included), non-string values, escape sequences, and values holding DEL or non-ASCII characters. For such a header the source does not fail at line 239: destructuring leaves a missing field `undefined`, and the failure comes later, as "Key pair not initialized" from `unwrapKey` (line 182) on an uninitialised service, or as a TypeError from `Buffer.from` (line 185, or line 247 for `authTag`), or not at all when the values happen to be accepted. The headers the service writes are always of the compact form with base64 values.
- EnvelopeProperties.TruncatedEnvelopeFails: needs the header's last byte not to be whitespace. Cutting trailing whitespace off a parseable header leaves it parseable, so this case cannot be dropped; every header the service writes ends in `}`.
- `HeaderJson.HeaderBytes` of a header with non-ASCII characters is defined, but parsing it back is proved only for plain headers. The service only ever writes plain ones.
- `binaryDer.buffer` at line 137 is taken to be exactly the decoded bytes. The pooled `ArrayBuffer` a small `Buffer` may share is not modelled.
- `encryptFile` (lines 337–362) is left out: its FileReader, Blob and Promise callbacks are browser I/O around `encrypt`.
- Asynchrony is left out. Every `await` is modelled as sequential composition, and interleavings of calls on one service are not considered.
- The context files (`polaris-client/lib/encryption.ts`, `polaris-client/app/hooks/useContainerClient.tsx`, `polaris-client/app/api/attestationToken/route.ts`, `polaris-client/app/page.tsx`, `polaris-client/app/layout.tsx`, `anonymization-service/server.py`) are not part of this model. They are network, UI and third-party code around the service.
