# encrypter: the /encrypt request decision, in Dafny

The service holds a list of environments, each with a name and a base64-encoded
RSA public key. For `POST /encrypt` with body `{ "env", "apiKey" }` it finds the
requested environment's key. It then decodes the key, parses it as a
SubjectPublicKeyInfo, checks that it is an RSA key and encrypts the API key with
RSAES-PKCS1-v1_5. It answers `{ "sessionKey": <base64 ciphertext> }` or
`{ "error": <fixed message> }`.

This project models that per-request logic from `main.go`:

- `registry.dfy` (module `Registry`) holds the environment list and the lookup.
  `FindPublicKey` is the source's `for … range` loop with `break`. `Resolve` is
  the function that specifies it, and lemmas say what `Resolve` yields.
- `encrypter.dfy` (module `Encrypter`) holds `EncryptAPIKey`. It keeps the
  source's `(value, error)` string pair, where `""` means absent. `Encrypt` is
  the same four-stage cascade written as a tagged `Result`. Lemmas prove:
  - the pair and the tagged result agree;
  - exactly one component of the pair is non-empty;
  - each failure gives its own fixed message;
  - no later stage runs after a failure.
- `handler.dfy` (module `Handler`) holds the decision in `OpenAPIHandler`.
  With no key found it answers "Invalid environment". Otherwise it answers the
  encryption's error string verbatim, or the session key.
- `primitives.dfy` (module `Primitives`) stands in for the library calls. A
  `Library` value bundles base64 decode and encode, `x509.ParsePKIXPublicKey`,
  `rsa.EncryptPKCS1v15` and the `[]byte(s)` conversion as opaque functions.
  `Conforms` states what the standards fix about them: section 7.2.1 of RFC 8017
  (at most k - 11 message octets, k ciphertext octets) and section 4 of RFC 4648
  (the padded encoding of n bytes has 4 * ceil(n / 3) characters). Only the
  lemmas about the success path and exactly-one-component assume them:
  `ExactlyOneComponent`, `MessageTooLongIsEncryptError`,
  `SuccessIsEncodedCiphertext`, `SessionKeyIffEncryptSucceeds` and
  `Prod2048SessionKeyLength`.
- `wrappers.dfy` (module `Wrappers`) defines `Option` and `Result`.

Behaviour worth noting:

- The lookup takes the first entry with the name, so entry order matters.
- An entry named `""` is matched like any other name.
- A plaintext that is too long for the key is not a separate error. It gets the
  generic "Error encrypting access token".
- Failures are fixed strings, not distinct error kinds.

## Model

| member | source | states |
|---|---|---|
| Registry.FindPublicKey | main.go:84-91 | the loop returns the key of the first entry whose name equals the requested one (no earlier entry matches), or "" when no entry has that name; and it equals `Resolve` |
| Registry.Resolve | main.go:85-91 | the resolved key is "" or the key of some entry carrying the requested name |
| Registry.ResolveFirstMatch | main.go:86-90 | if entry i is the first with the name, the lookup yields exactly its key |
| Registry.ResolveNoMatch | main.go:85-91 | with no entry of that name the lookup yields "" |
| Registry.ResolveIgnoresLaterEntries | main.go:86-90 | entries appended after a matching one never change the lookup (the `break`) |
| Encrypter.Message | main.go:128-152 | each failing stage has a non-empty message, one of the four fixed strings |
| Encrypter.MessageInjective | main.go:128-152 | distinct stages have distinct messages, so an error string names its stage |
| Encrypter.AsRsa | main.go:141-145 | the RSA type assertion succeeds exactly for an RSA key and returns that key |
| Encrypter.EncryptAPIKey | main.go:126-161 | at most one of value and error is non-empty, and the error is "" or one of the four fixed messages |
| Encrypter.Encrypt | main.go:126-161 | the four stages in order as a tagged result: the decode error exactly when decoding fails, and success only when decode, parse, the RSA check and encryption all succeeded, with the base64 of that ciphertext as the value |
| Encrypter.PairMatchesTagged | main.go:126-161 | the pair is (base64 ciphertext, "") when every stage succeeds, else ("", message of the first failing stage, in the order decode, parse, type check, encrypt) |
| Encrypter.ExactlyOneComponent | main.go:126-161 | with conforming primitives exactly one of value and error is non-empty, since k >= 11 ciphertext octets have a non-empty base64 |
| Encrypter.PairDeterminesTagged | main.go:126-161 | for any primitives, the error is "" iff the cascade succeeds, and it is stage e's message iff e is the failing stage |
| Encrypter.DecodeFailureStops | main.go:128-132 | an invalid base64 key gives ("", "Error decoding base64-encoded public key") whatever parse, encrypt, encode, the API key and the randomness would do |
| Encrypter.ParseFailureStops | main.go:135-139 | bytes that fail to parse give ("", "Error parsing public key") regardless of the later stages |
| Encrypter.KeyTypeFailureStops | main.go:141-145 | a parsed non-RSA key gives ("", "Error converting to RSA public key") regardless of encryption and encoding |
| Encrypter.EncryptFailureStops | main.go:148-152 | an encryption error gives ("", "Error encrypting access token"), whatever the encoder would do |
| Encrypter.MessageTooLongIsEncryptError | main.go:148-152 | a plaintext longer than k - 11 bytes for an RSA key gives the same generic encryption error |
| Encrypter.SuccessIsEncodedCiphertext | main.go:155-160 | on success the error is "" and the value is the base64 of the ciphertext (the `%v` format is the identity), of length 4 * ceil(k / 3) |
| Handler.Decide | main.go:94-116 | the response is "Invalid environment" exactly when the resolved key is "", and every error body is one of the five fixed messages |
| Handler.Respond | main.go:84-116 | `Decide` applied to the lookup: a session key is only ever sent for an environment present in the list, and every error body is one of the five fixed messages |
| Handler.OpenAPIHandler | main.go:84-116 | the loop-then-decide handler gives `Respond`'s answer, and "Invalid environment" exactly when the lookup found no key |
| Handler.UnknownEnvironmentRefused | main.go:94-101 | an unknown environment gets "Invalid environment", and the answer is the same for every library and random source (EncryptAPIKey is not called) |
| Handler.EmptyKeyLikeUnknown | main.go:88-101 | a matching entry whose key is "" is answered exactly as an unknown environment |
| Handler.MatchedKeyIsEncrypted | main.go:104-116 | a first matching entry with a non-empty key (any name, "" included) is encrypted; a non-empty error is sent verbatim, otherwise the value is the session key |
| Handler.LaterEntriesIgnored | main.go:86-90 | entries after the first one with the requested name never change the response |
| Handler.SessionKeyIffEncryptSucceeds | main.go:104-116 | with conforming primitives a session key is sent iff a key was found and every stage succeeded, and it is the non-empty base64 ciphertext |
| Handler.UnregisteredStagingRefused | main.go:94-101 | a request for "staging" against a registry holding only "prod" gets "Invalid environment" |
| Handler.Prod2048SessionKeyLength | main.go:104-116 | in any registry whose first "prod" entry holds a 2048-bit RSA key, a request whose encryption succeeds gets a 344-character session key |

## Left out

- `main`: reading `config.json`, JSON unmarshalling, router setup and `ListenAndServe` are process startup and I/O. The environment list is an immutable input.
- `HelloHandler`: a static greeting with no logic.
- Decoding the request JSON ("Invalid request body"). The handler model starts from a decoded request.
- Writing the response: `json.Encoder` writes and their `http.Error` fallbacks, the Content-Type header, and status codes. The JSON error bodies go out with the default status; only the `http.Error` fallbacks and the request-decoding failure set 400/500. Only the body chosen is modelled.
- `fmt.Println` logging, and the library error texts that only it prints. A library failure is a plain `None`.
- The internals of base64, `x509.ParsePKIXPublicKey` and `rsa.EncryptPKCS1v15`. These are foreign library calls. They are opaque functions, constrained only by `Conforms`.
- The randomness of PKCS#1 v1.5 padding. The bytes drawn from `rand.Reader` are a parameter, so the model cannot say that repeated calls give different ciphertexts.
- Decryption round-trips. No decryption is part of this code.
- Concurrency between requests. The list is read-only after startup, and no state is shared within a call.
- Go strings are byte sequences; here they are `string`, and byte equality of names is `string` equality. `[]byte(apiKey)` is the opaque `stringBytes`.
