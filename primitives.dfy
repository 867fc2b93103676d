/**
 * The library calls that EncryptAPIKey makes, taken as opaque primitives.
 * A `Library` value bundles one implementation of each; the model is stated
 * for every such bundle, and `Conforms` collects the facts about them that the
 * standards fix (RFC 4648 for base64, RFC 8017 for RSAES-PKCS1-v1_5).
 */
module Primitives {
  import opened Wrappers

  newtype byte = x: int | 0 <= x < 256

  /** The random bytes drawn from the cryptographic random source for one call. */
  type RandomStream = seq<byte>

  /** Number of bits of `n` (`big.Int.BitLen`). */
  function BitLen(n: nat): (bits: nat)
    ensures n == 0 <==> bits == 0
  {
    if n == 0 then 0 else 1 + BitLen(n / 2)
  }

  /** An RSA public key: modulus `n` and public exponent `e`. */
  datatype RsaPublicKey = RsaPublicKey(n: nat, e: int) {
    /** The modulus length in octets, k in section 7.2.1 of RFC 8017 (`rsa.PublicKey.Size`). */
    function Size(): nat {
      (BitLen(n) + 7) / 8
    }
  }

  /**
   * What `x509.ParsePKIXPublicKey` can return on success: one of the key types
   * a SubjectPublicKeyInfo (section 4.1.2.7 of RFC 5280) may carry.
   */
  datatype ParsedKey =
    | RsaKey(rsa: RsaPublicKey)
    | DsaKey
    | EcdsaKey
    | Ed25519Key
    | EcdhKey

  /** Length of the padded StdEncoding of `n` bytes (section 4 of RFC 4648). */
  function EncodedLength(n: nat): (len: nat)
    ensures n > 0 ==> len > 0
  {
    4 * ((n + 2) / 3)
  }

  /**
   * One implementation of each library call. `None` stands for a non-nil Go
   * error; the error's text is only logged by the source, so it is not kept.
   */
  datatype Library = Library(
    decodeBase64: string -> Option<seq<byte>>,                            // base64.StdEncoding.DecodeString
    parsePKIX: seq<byte> -> Option<ParsedKey>,                            // x509.ParsePKIXPublicKey
    encryptPKCS1v15: (RandomStream, RsaPublicKey, seq<byte>) -> Option<seq<byte>>, // rsa.EncryptPKCS1v15
    encodeBase64: seq<byte> -> string,                                    // base64.StdEncoding.EncodeToString
    stringBytes: string -> seq<byte>                                      // the conversion []byte(s)
  )

  /**
   * The facts the standards fix about the opaque calls: a PKCS#1 v1.5
   * encryption that succeeds was given at most k - 11 message octets and yields
   * exactly k octets (section 7.2.1 of RFC 8017), and the padded base64 of n
   * bytes has 4 * ceil(n / 3) characters (section 4 of RFC 4648).
   */
  ghost predicate Conforms(lib: Library) {
    && (forall random, key, msg :: lib.encryptPKCS1v15(random, key, msg).Some? ==>
          |msg| <= key.Size() - 11 && |lib.encryptPKCS1v15(random, key, msg).value| == key.Size())
    && (forall bytes :: |lib.encodeBase64(bytes)| == EncodedLength(|bytes|))
  }
}
