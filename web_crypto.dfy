/** The Web Crypto primitives the service calls through `window.crypto.subtle`,
    taken as an explicit capability: RSA-OAEP with SHA-256 (section 7.1 of
    RFC 8017) over 4096-bit keys, AES-256-GCM with a 96-bit IV and a 128-bit
    tag (NIST SP 800-38D), and the SubjectPublicKeyInfo export and import of
    a public key. Nothing is said about how they compute; `Sound` collects
    the correctness properties the service relies on. */
module WebCrypto {
  import opened Prelude

  /** A public `CryptoKey` (RSA-OAEP, SHA-256). */
  type PublicKey(==, !new)

  /** A private `CryptoKey`; it is never exported. */
  type PrivateKey(==, !new)

  /** A `CryptoKeyPair`. */
  datatype KeyPair = KeyPair(publicKey: PublicKey, privateKey: PrivateKey)

  /** Byte length of a 4096-bit modulus, and so of every RSA ciphertext. */
  const ModulusBytes: nat := 512

  /** SHA-256 output length. */
  const HashBytes: nat := 32

  /** Longest message RSA-OAEP can encrypt under a 4096-bit key with
      SHA-256: k - 2 hLen - 2 (section 7.1.1 of RFC 8017). */
  const OaepMaxMessage: nat := ModulusBytes - 2 * HashBytes - 2

  /** Key and IV sizes the service generates, and the GCM tag length. */
  const AesKeyBytes: nat := 32
  const IvBytes: nat := 12
  const TagBytes: nat := 16

  /** `importKey("raw", …, "AES-GCM")` accepts 128-, 192- and 256-bit keys
      only; any other length is a DataError. */
  predicate IsAesKeyLength(n: nat)
  {
    n == 16 || n == 24 || n == 32
  }

  /** The capability object: one field per primitive.
      - `generated`: the key pairs `generateKey` can return (4096-bit
        modulus, exponent 65537);
      - `exportSpki` / `importSpki`: `exportKey("spki")` and
        `importKey("spki")`, the latter failing (`None`) on bytes that are
        not a SubjectPublicKeyInfo;
      - `oaepEncrypt` / `oaepDecrypt`: RSA-OAEP, `None` being the
        OperationError (message too long, or a ciphertext that does not
        decrypt);
      - `gcmEncrypt` / `gcmDecrypt`: AES-GCM with `tagLength` 128 under an
        imported raw key; the output of encryption ends with the tag, and
        decryption fails (`None`) when the tag does not verify. */
  datatype Primitives = Primitives(
    generated: KeyPair -> bool,
    exportSpki: PublicKey -> Bytes,
    importSpki: Bytes -> Option<PublicKey>,
    oaepEncrypt: (PublicKey, Bytes) -> Option<Bytes>,
    oaepDecrypt: (PrivateKey, Bytes) -> Option<Bytes>,
    gcmEncrypt: (Bytes, Bytes, Bytes) -> Bytes,
    gcmDecrypt: (Bytes, Bytes, Bytes) -> Option<Bytes>)

  /** The correctness of the primitives, as the standards promise it.
      Used only as an assumption of the end-to-end lemmas. */
  ghost predicate Sound(wc: Primitives)
  {
    // an exported key is a non-empty SPKI structure that imports back
    (forall pk: PublicKey :: |wc.exportSpki(pk)| > 0)
    && (forall pk: PublicKey :: wc.importSpki(wc.exportSpki(pk)) == Some(pk))
    // OAEP under a generated pair: short messages encrypt to a modulus-sized
    // ciphertext that the private key decrypts back
    && (forall kp: KeyPair, m: Bytes ::
          wc.generated(kp) && |m| <= OaepMaxMessage ==>
            wc.oaepEncrypt(kp.publicKey, m).Some?
            && |wc.oaepEncrypt(kp.publicKey, m).value| == ModulusBytes
            && wc.oaepDecrypt(kp.privateKey, wc.oaepEncrypt(kp.publicKey, m).value) == Some(m))
    // GCM: the output is the ciphertext (as long as the plaintext) plus the tag
    && (forall k: Bytes, iv: Bytes, p: Bytes :: |wc.gcmEncrypt(k, iv, p)| == |p| + TagBytes)
    && (forall k: Bytes, iv: Bytes, p: Bytes ::
          |k| == AesKeyBytes && |iv| == IvBytes ==> wc.gcmDecrypt(k, iv, wc.gcmEncrypt(k, iv, p)) == Some(p))
  }
}
