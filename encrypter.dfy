/**
 * EncryptAPIKey: decode the configured key, parse it, check that it is an RSA
 * key, encrypt the API key with RSAES-PKCS1-v1_5 and base64 the ciphertext.
 * The source reports the outcome as a (value, error) pair of strings in which
 * "" means "absent"; `EncryptAPIKey` keeps that convention, and `Encrypt` is the
 * same cascade written as a tagged result, against which it is checked.
 */
module Encrypter {
  import opened Wrappers
  import opened Primitives

  const ErrDecode := "Error decoding base64-encoded public key"
  const ErrParse := "Error parsing public key"
  const ErrConvert := "Error converting to RSA public key"
  const ErrEncrypt := "Error encrypting access token"

  /** The stage at which the cascade stopped. */
  datatype EncryptError = DecodeError | ParseError | KeyTypeError | EncryptionError

  /** The fixed message the source returns for each failing stage. */
  function Message(e: EncryptError): (m: string)
    ensures m != ""
    ensures m in {ErrDecode, ErrParse, ErrConvert, ErrEncrypt}
  {
    match e
    case DecodeError => ErrDecode
    case ParseError => ErrParse
    case KeyTypeError => ErrConvert
    case EncryptionError => ErrEncrypt
  }

  /** Distinct stages give distinct messages, so the message names the stage. */
  lemma MessageInjective(e1: EncryptError, e2: EncryptError)
    requires Message(e1) == Message(e2)
    ensures e1 == e2
  {
  }

  /** The Go result pair `(encryptedKey, err)`. */
  datatype EncryptReturn = EncryptReturn(value: string, err: string)

  /** The type assertion `publicKey.(*rsa.PublicKey)`. */
  function AsRsa(key: ParsedKey): (r: Option<RsaPublicKey>)
    ensures r.Some? <==> key.RsaKey?
    ensures r.Some? ==> key == RsaKey(r.value)
  {
    if key.RsaKey? then Some(key.rsa) else None
  }

  /** The source's cascade, with an early return at each failing stage. */
  function EncryptAPIKey(lib: Library, envPublicKey: string, apiKey: string, random: RandomStream): (r: EncryptReturn)
    ensures r.value == "" || r.err == ""
    ensures r.err in {"", ErrDecode, ErrParse, ErrConvert, ErrEncrypt}
  {
    match lib.decodeBase64(envPublicKey)
    case None => EncryptReturn("", ErrDecode)
    case Some(publicKeyBytes) =>
      match lib.parsePKIX(publicKeyBytes)
      case None => EncryptReturn("", ErrParse)
      case Some(publicKey) =>
        match AsRsa(publicKey)
        case None => EncryptReturn("", ErrConvert)
        case Some(rsaPublicKey) =>
          match lib.encryptPKCS1v15(random, rsaPublicKey, lib.stringBytes(apiKey))
          case None => EncryptReturn("", ErrEncrypt)
          case Some(encryptedToken) =>
            var base64EncryptedToken := lib.encodeBase64(encryptedToken);
            // fmt.Sprintf("%v", s) of a string s is s itself
            var encryptedKey := base64EncryptedToken;
            EncryptReturn(encryptedKey, "")
  }

  /** The same four stages as a tagged result: the first failing stage is the error. */
  function Encrypt(lib: Library, envPublicKey: string, apiKey: string, random: RandomStream): (t: Result<string, EncryptError>)
    ensures t == Failure(DecodeError) <==> lib.decodeBase64(envPublicKey).None?
    ensures t.Success? ==>
      && lib.decodeBase64(envPublicKey).Some?
      && var publicKey := lib.parsePKIX(lib.decodeBase64(envPublicKey).value);
      && publicKey.Some? && publicKey.value.RsaKey?
      && var encrypted := lib.encryptPKCS1v15(random, publicKey.value.rsa, lib.stringBytes(apiKey));
      && encrypted.Some? && t.value == lib.encodeBase64(encrypted.value)
  {
    var publicKeyBytes :- lib.decodeBase64(envPublicKey).ToResult(DecodeError);
    var publicKey :- lib.parsePKIX(publicKeyBytes).ToResult(ParseError);
    var rsaPublicKey :- AsRsa(publicKey).ToResult(KeyTypeError);
    var encryptedToken :- lib.encryptPKCS1v15(random, rsaPublicKey, lib.stringBytes(apiKey)).ToResult(EncryptionError);
    Success(lib.encodeBase64(encryptedToken))
  }

  /**
   * The pair convention loses nothing: the error component is "" exactly when
   * every stage succeeded, then the value is the ciphertext's base64; otherwise
   * the value is "" and the error is the failing stage's message.
   */
  lemma PairMatchesTagged(lib: Library, envPublicKey: string, apiKey: string, random: RandomStream)
    ensures var r, t := EncryptAPIKey(lib, envPublicKey, apiKey, random), Encrypt(lib, envPublicKey, apiKey, random);
      && (t.Success? ==> r == EncryptReturn(t.value, ""))
      && (t.Failure? ==> r == EncryptReturn("", Message(t.error)))
  {
  }

  /**
   * Exactly one component of the pair is non-empty. A successful encryption
   * yields k >= 11 octets, whose base64 cannot be empty.
   */
  lemma ExactlyOneComponent(lib: Library, envPublicKey: string, apiKey: string, random: RandomStream)
    requires Conforms(lib)
    ensures var r := EncryptAPIKey(lib, envPublicKey, apiKey, random);
      (r.value == "") != (r.err == "")
  {
    var r := EncryptAPIKey(lib, envPublicKey, apiKey, random);
    var t := Encrypt(lib, envPublicKey, apiKey, random);
    PairMatchesTagged(lib, envPublicKey, apiKey, random);
    if t.Success? {
      var bytes := lib.decodeBase64(envPublicKey).value;
      var rsaPublicKey := lib.parsePKIX(bytes).value.rsa;
      var msg := lib.stringBytes(apiKey);
      var encryptedToken := lib.encryptPKCS1v15(random, rsaPublicKey, msg).value;
      assert |encryptedToken| == rsaPublicKey.Size() >= 11;
      assert |r.value| == EncodedLength(|encryptedToken|) > 0;
    }
  }

  /** The pair determines the tagged result, so the error string names the failing stage. */
  lemma PairDeterminesTagged(lib: Library, envPublicKey: string, apiKey: string, random: RandomStream, e: EncryptError)
    ensures var r, t := EncryptAPIKey(lib, envPublicKey, apiKey, random), Encrypt(lib, envPublicKey, apiKey, random);
      && (r.err == "" <==> t.Success?)
      && (r.err == Message(e) <==> t == Failure(e))
  {
    var t := Encrypt(lib, envPublicKey, apiKey, random);
    PairMatchesTagged(lib, envPublicKey, apiKey, random);
    if t.Failure? && Message(t.error) == Message(e) {
      MessageInjective(t.error, e);
    }
  }

  /**
   * An undecodable key gives the decode message, whatever the later stages,
   * the API key and the random source would have done: no later stage runs.
   */
  lemma DecodeFailureStops(lib: Library, other: Library, envPublicKey: string,
                           apiKey: string, otherApiKey: string, random: RandomStream, otherRandom: RandomStream)
    requires lib.decodeBase64(envPublicKey).None?
    requires other.decodeBase64(envPublicKey).None?
    ensures EncryptAPIKey(lib, envPublicKey, apiKey, random) == EncryptReturn("", ErrDecode)
    ensures EncryptAPIKey(other, envPublicKey, otherApiKey, otherRandom) == EncryptAPIKey(lib, envPublicKey, apiKey, random)
  {
  }

  /** Decoded bytes that do not parse give the parse message; type check and encryption do not run. */
  lemma ParseFailureStops(lib: Library, other: Library, envPublicKey: string,
                          apiKey: string, otherApiKey: string, random: RandomStream, otherRandom: RandomStream)
    requires lib.decodeBase64(envPublicKey).Some?
    requires lib.parsePKIX(lib.decodeBase64(envPublicKey).value).None?
    requires other.decodeBase64(envPublicKey) == lib.decodeBase64(envPublicKey)
    requires other.parsePKIX(lib.decodeBase64(envPublicKey).value).None?
    ensures EncryptAPIKey(lib, envPublicKey, apiKey, random) == EncryptReturn("", ErrParse)
    ensures EncryptAPIKey(other, envPublicKey, otherApiKey, otherRandom) == EncryptAPIKey(lib, envPublicKey, apiKey, random)
  {
  }

  /** A parsed key that is not RSA gives the conversion message; encryption does not run. */
  lemma KeyTypeFailureStops(lib: Library, other: Library, envPublicKey: string,
                            apiKey: string, otherApiKey: string, random: RandomStream, otherRandom: RandomStream)
    requires lib.decodeBase64(envPublicKey).Some?
    requires lib.parsePKIX(lib.decodeBase64(envPublicKey).value).Some?
    requires !lib.parsePKIX(lib.decodeBase64(envPublicKey).value).value.RsaKey?
    requires other.decodeBase64(envPublicKey) == lib.decodeBase64(envPublicKey)
    requires other.parsePKIX(lib.decodeBase64(envPublicKey).value) == lib.parsePKIX(lib.decodeBase64(envPublicKey).value)
    ensures EncryptAPIKey(lib, envPublicKey, apiKey, random) == EncryptReturn("", ErrConvert)
    ensures EncryptAPIKey(other, envPublicKey, otherApiKey, otherRandom) == EncryptAPIKey(lib, envPublicKey, apiKey, random)
  {
  }

  /** A failing encryption gives the encryption message; the ciphertext is never encoded. */
  lemma EncryptFailureStops(lib: Library, other: Library, envPublicKey: string, apiKey: string, random: RandomStream,
                            key: RsaPublicKey)
    requires lib.decodeBase64(envPublicKey).Some?
    requires lib.parsePKIX(lib.decodeBase64(envPublicKey).value) == Some(RsaKey(key))
    requires lib.encryptPKCS1v15(random, key, lib.stringBytes(apiKey)).None?
    requires other.decodeBase64(envPublicKey) == lib.decodeBase64(envPublicKey)
    requires other.parsePKIX(lib.decodeBase64(envPublicKey).value) == Some(RsaKey(key))
    requires other.stringBytes(apiKey) == lib.stringBytes(apiKey)
    requires other.encryptPKCS1v15(random, key, lib.stringBytes(apiKey)).None?
    ensures EncryptAPIKey(lib, envPublicKey, apiKey, random) == EncryptReturn("", ErrEncrypt)
    ensures EncryptAPIKey(other, envPublicKey, apiKey, random) == EncryptAPIKey(lib, envPublicKey, apiKey, random)
  {
  }

  /**
   * A plaintext longer than k - 11 bytes is refused by the RSA primitive, and
   * the source reports it with the same generic encryption message.
   */
  lemma MessageTooLongIsEncryptError(lib: Library, envPublicKey: string, apiKey: string, random: RandomStream,
                                     key: RsaPublicKey)
    requires Conforms(lib)
    requires lib.decodeBase64(envPublicKey).Some?
    requires lib.parsePKIX(lib.decodeBase64(envPublicKey).value) == Some(RsaKey(key))
    requires |lib.stringBytes(apiKey)| > key.Size() - 11
    ensures EncryptAPIKey(lib, envPublicKey, apiKey, random) == EncryptReturn("", ErrEncrypt)
  {
    assert lib.encryptPKCS1v15(random, key, lib.stringBytes(apiKey)).None?;
  }

  /**
   * When every stage succeeds the error is "" and the value is the base64 of
   * the ciphertext, of length 4 * ceil(k / 3) for a k-octet modulus.
   */
  lemma SuccessIsEncodedCiphertext(lib: Library, envPublicKey: string, apiKey: string, random: RandomStream,
                                   key: RsaPublicKey, ciphertext: seq<byte>)
    requires Conforms(lib)
    requires lib.decodeBase64(envPublicKey).Some?
    requires lib.parsePKIX(lib.decodeBase64(envPublicKey).value) == Some(RsaKey(key))
    requires lib.encryptPKCS1v15(random, key, lib.stringBytes(apiKey)) == Some(ciphertext)
    ensures EncryptAPIKey(lib, envPublicKey, apiKey, random) == EncryptReturn(lib.encodeBase64(ciphertext), "")
    ensures |lib.encodeBase64(ciphertext)| == EncodedLength(key.Size())
  {
    assert |ciphertext| == key.Size();
  }
}
