/**
 * The per-request decision of the /encrypt handler, on an already decoded
 * request: look the environment up, refuse an environment without a key, and
 * otherwise pass the encryption's error string or session key through to the
 * response body.
 */
module Handler {
  import opened Wrappers
  import opened Primitives
  import opened Encrypter
  import opened Registry

  /** The decoded request body `{ "env": ..., "apiKey": ... }`. */
  datatype OpenAPIRequest = OpenAPIRequest(env: string, apiKey: string)

  /** The two JSON bodies the handler writes: `{ "error": ... }` and `{ "sessionKey": ... }`. */
  datatype Response = OpenAPIErrorResponse(error: string) | OpenAPIResponse(sessionKey: string)

  const InvalidEnvironment := "Invalid environment"

  /** The handler's branches once the key is resolved. */
  function Decide(publicKey: string, lib: Library, apiKey: string, random: RandomStream): (resp: Response)
    ensures resp == OpenAPIErrorResponse(InvalidEnvironment) <==> publicKey == ""
    ensures resp.OpenAPIErrorResponse? ==> resp.error in {InvalidEnvironment, ErrDecode, ErrParse, ErrConvert, ErrEncrypt}
  {
    if publicKey == "" then OpenAPIErrorResponse(InvalidEnvironment)
    else
      var r := EncryptAPIKey(lib, publicKey, apiKey, random);
      if r.err != "" then OpenAPIErrorResponse(r.err)
      else OpenAPIResponse(r.value)
  }

  /** What the handler answers to `req` given the configured environments. */
  function Respond(envs: seq<EnvironmentConfig>, req: OpenAPIRequest, lib: Library, random: RandomStream): (resp: Response)
    ensures resp.OpenAPIResponse? ==> HasEntry(envs, req.env)
    ensures resp.OpenAPIErrorResponse? ==> resp.error in {InvalidEnvironment, ErrDecode, ErrParse, ErrConvert, ErrEncrypt}
  {
    Decide(Resolve(envs, req.env), lib, req.apiKey, random)
  }

  /** OpenAPIHandler from the environment lookup to the choice of response body. */
  method OpenAPIHandler(envs: seq<EnvironmentConfig>, req: OpenAPIRequest, lib: Library, random: RandomStream)
    returns (resp: Response)
    ensures resp == Respond(envs, req, lib, random)
    ensures resp == OpenAPIErrorResponse(InvalidEnvironment) <==> Resolve(envs, req.env) == ""
  {
    var publicKey := FindPublicKey(envs, req.env);
    resp := Decide(publicKey, lib, req.apiKey, random);
  }

  /**
   * An unknown environment is refused, and no library call is consulted:
   * any other library and random source give the same answer.
   */
  lemma UnknownEnvironmentRefused(envs: seq<EnvironmentConfig>, req: OpenAPIRequest,
                                  lib: Library, random: RandomStream, other: Library, otherRandom: RandomStream)
    requires !HasEntry(envs, req.env)
    ensures Respond(envs, req, lib, random) == OpenAPIErrorResponse(InvalidEnvironment)
    ensures Respond(envs, req, other, otherRandom) == Respond(envs, req, lib, random)
  {
    ResolveNoMatch(envs, req.env);
  }

  /** A matching entry whose key is "" is answered exactly as an unknown environment. */
  lemma EmptyKeyLikeUnknown(envs: seq<EnvironmentConfig>, req: OpenAPIRequest, i: int,
                            lib: Library, random: RandomStream)
    requires IsFirstMatch(envs, req.env, i)
    requires envs[i].publicKey == ""
    ensures Respond(envs, req, lib, random) == Respond([], req, lib, random)
    ensures Respond(envs, req, lib, random) == OpenAPIErrorResponse(InvalidEnvironment)
  {
    ResolveFirstMatch(envs, req.env, i);
  }

  /**
   * A first matching entry with a non-empty key is encrypted with, whatever
   * its name (including ""), and the pair is mapped to the body: a non-empty
   * error is sent verbatim, otherwise the value becomes the session key.
   */
  lemma MatchedKeyIsEncrypted(envs: seq<EnvironmentConfig>, req: OpenAPIRequest, i: int,
                              lib: Library, random: RandomStream)
    requires IsFirstMatch(envs, req.env, i)
    requires envs[i].publicKey != ""
    ensures var r := EncryptAPIKey(lib, envs[i].publicKey, req.apiKey, random);
      && (r.err != "" ==> Respond(envs, req, lib, random) == OpenAPIErrorResponse(r.err))
      && (r.err == "" ==> Respond(envs, req, lib, random) == OpenAPIResponse(r.value))
  {
    ResolveFirstMatch(envs, req.env, i);
  }

  /** Entries after the first one with the requested name never change the response. */
  lemma LaterEntriesIgnored(envs: seq<EnvironmentConfig>, later: seq<EnvironmentConfig>, req: OpenAPIRequest,
                            lib: Library, random: RandomStream)
    requires HasEntry(envs, req.env)
    ensures Respond(envs + later, req, lib, random) == Respond(envs, req, lib, random)
  {
    ResolveIgnoresLaterEntries(envs, later, req.env);
  }

  /**
   * With conforming primitives, the handler answers with a session key exactly
   * when the tagged cascade succeeds on the resolved key, and that key is non-empty.
   */
  lemma SessionKeyIffEncryptSucceeds(envs: seq<EnvironmentConfig>, req: OpenAPIRequest,
                                     lib: Library, random: RandomStream)
    requires Conforms(lib)
    ensures var publicKey := Resolve(envs, req.env);
      && (Respond(envs, req, lib, random).OpenAPIResponse? <==>
            publicKey != "" && Encrypt(lib, publicKey, req.apiKey, random).Success?)
      && (Respond(envs, req, lib, random).OpenAPIResponse? ==>
            Respond(envs, req, lib, random).sessionKey == Encrypt(lib, publicKey, req.apiKey, random).value != "")
  {
    var publicKey := Resolve(envs, req.env);
    if publicKey != "" {
      PairMatchesTagged(lib, publicKey, req.apiKey, random);
      ExactlyOneComponent(lib, publicKey, req.apiKey, random);
    }
  }

  /**
   * Request `{env: "staging", apiKey: "x"}` against a registry holding only
   * "prod" is answered `{"error": "Invalid environment"}`.
   */
  lemma UnregisteredStagingRefused(prodKey: string, lib: Library, random: RandomStream)
    ensures Respond([EnvironmentConfig("prod", prodKey)], OpenAPIRequest("staging", "x"), lib, random)
         == OpenAPIErrorResponse(InvalidEnvironment)
  {
    var envs := [EnvironmentConfig("prod", prodKey)];
    assert envs[0].name != "staging";
    ResolveNoMatch(envs, "staging");
  }

  /**
   * A "prod" environment holding a 2048-bit RSA key: a request that encrypts
   * gets a session key of 344 characters, the base64 of 256 octets.
   */
  lemma Prod2048SessionKeyLength(envs: seq<EnvironmentConfig>, i: int, lib: Library, random: RandomStream,
                                 key: RsaPublicKey, ciphertext: seq<byte>)
    requires Conforms(lib)
    requires IsFirstMatch(envs, "prod", i) && envs[i].publicKey != ""
    requires lib.decodeBase64(envs[i].publicKey).Some?
    requires lib.parsePKIX(lib.decodeBase64(envs[i].publicKey).value) == Some(RsaKey(key))
    requires key.Size() == 256
    requires lib.encryptPKCS1v15(random, key, lib.stringBytes("secret123")) == Some(ciphertext)
    ensures Respond(envs, OpenAPIRequest("prod", "secret123"), lib, random).OpenAPIResponse?
    ensures |Respond(envs, OpenAPIRequest("prod", "secret123"), lib, random).sessionKey| == 344
  {
    ResolveFirstMatch(envs, "prod", i);
    SuccessIsEncodedCiphertext(lib, envs[i].publicKey, "secret123", random, key, ciphertext);
  }
}
