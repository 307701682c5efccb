# AppAuth-JS authorization request handler and PKCE utilities, modelled in Dafny

This project models two pieces of the client side of the OAuth 2.0
authorization code flow with PKCE (RFC 7636), as the JavaScript library
AppAuth-JS implements them:

- **The authorization request handler** (`built/authorization_request_handler.js`).
  `BuildRequestUrl` builds the request's parameter map. The map holds the five
  built-in parameters (`redirect_uri`, `client_id`, `response_type`, `state`,
  `scope`) plus every extra whose name is not built-in. The method then joins the
  stringified map to the authorization endpoint with `&` or `?`.
  `AuthorizationNotifier` is a single-slot listener registry.
  `CompleteAuthorizationRequestIfPossible` passes a completed result to the
  notifier when one is registered.
- **The PKCE utilities of the default crypto provider** (`built/crypto_utils.js`).
  `BufferToString` maps random bytes onto the 62-character `CHARSET`.
  `GenerateRandom` fills a buffer and maps it.
  `UrlSafe` rewrites a standard Base64 encoding into unpadded base64url.
  `DeriveChallenge` checks the verifier length, then the host's capabilities,
  and then computes the S256 challenge.

Files:

- `wrappers.dfy`: `Option` (for `null`/`undefined`) and `Result` (for a settled promise).
- `base64.dfy`: RFC 4648 Base64. Section 4 (standard alphabet, padded) stands in
  for the `base64-js` library. Section 5 (URL-safe alphabet, unpadded) is the
  reference that `urlSafe` is proved against.
- `crypto_utils.dfy`: module `CryptoUtils`.
- `authorization_request_handler.dfy`: module `AuthorizationHandler`. It holds the
  request, response and configuration datatypes, the `AuthorizationNotifier` and
  `AuthorizationRequestHandler` classes, and a client method
  (`LastListenerReceivesResultOnce`) that walks through a delivery scenario.

Collaborators the model cannot see are parameters:

- The secure random source is a function from index to byte.
- `Math.random()` is a function from call number to a real in [0, 1).
- `TextEncoder.encode` is a function from string to bytes.
- `crypto.subtle.digest('SHA-256', ·)` is a function from bytes to `Option` of bytes; `None` means the promise rejected.
- The query-string encoder's `stringify` is an uninterpreted function field of `QueryStringUtils`.
- The value that the abstract `completeAuthorizationRequest()` settles to is a parameter of `CompleteAuthorizationRequestIfPossible`.
- The environment flags `HAS_CRYPTO`, `HAS_SUBTLE_CRYPTO` and `HAS_TEXT_ENCODER` are derived from a `Host` value by the predicates of the same meaning.

Listener callbacks are known only by identity (`AuthorizationListener`). The
notifier's ghost fields `received` and `invocations` record what happens:
`received` logs every `OnAuthorizationComplete` call, and `invocations` logs
every call of the registered listener with its arguments.

Facts about the code that the model keeps:

- The alphabet is the 62-character `CHARSET` (crypto_utils.js line 21).
  `CryptoUtils.CHARSET` is defined as `Base64.ALPHANUMERIC`, the first 62
  characters of both Base64 alphabets.
- `buildRequestUrl` adds no `code_challenge` or `code_challenge_method`
  parameter (authorization_request_handler.js lines 57-82).
- The three guard rejections of `deriveChallenge` (lines 57-65) are
  `AppAuthError`s that differ only in their message. The model names each
  message with a `CryptoError` constructor. A rejection of the digest (line 70)
  is passed on unchanged, as the digest's own error. `DigestFailed` stands for
  it.
- The handler's `crypto` field is a `CryptoProvider`. Only the default provider
  is modelled, and it is known by its `Host`.

## Model

| member | source | states |
|---|---|---|
| `AuthorizationHandler.AuthorizationNotifier.constructor` | built/authorization_request_handler.js:22-24 | a fresh notifier has no listener and has delivered nothing |
| `AuthorizationHandler.AuthorizationNotifier.SetAuthorizationListener` | built/authorization_request_handler.js:25-27 | the slot holds exactly the new listener, whatever was there before (last registration wins); nothing is delivered |
| `AuthorizationHandler.AuthorizationNotifier.OnAuthorizationComplete` | built/authorization_request_handler.js:31-36 | with a listener, it records exactly one listener call with exactly (request, response, error); without one, it records no call and does not fail; the listener slot is unchanged |
| `AuthorizationHandler.BuiltIns` | built/authorization_request_handler.js:60-66 | the starting map has exactly the five names of `BUILT_IN_PARAMETERS` as keys, each holding the request's own field |
| `AuthorizationHandler.BuiltInNames` | built/authorization_request_handler.js:42 | `BUILT_IN_PARAMETERS` names five distinct parameters |
| `AuthorizationHandler.Copied` | built/authorization_request_handler.js:69-75 | the extras the loop has copied so far are among the request's extras and never carry a built-in name |
| `AuthorizationHandler.CopiedStep` | built/authorization_request_handler.js:69-75 | one more iteration of the loop over the extras copies that extra with its value when its name is not built-in, and otherwise copies nothing |
| `AuthorizationHandler.RequestMap` | built/authorization_request_handler.js:60-77 | the key set is the built-ins plus the extras' keys; the five built-ins hold the request's redirect URI, client id, response type, state and scope; every extra whose name is not built-in keeps its value |
| `AuthorizationHandler.ExtrasCannotOverride` | built/authorization_request_handler.js:68-77 | adding or changing an extra named like a built-in parameter leaves the parameter map unchanged |
| `AuthorizationHandler.NoExtrasGiveBuiltIns` | built/authorization_request_handler.js:60-68 | with absent or empty extras the map is exactly the five built-ins |
| `AuthorizationHandler.ClientIdExtraIsIgnored` | built/authorization_request_handler.js:68-77 | with extras `{prompt: login, client_id: evil}`, `client_id` keeps the request's value `abc` and `prompt` carries `login` |
| `AuthorizationHandler.AuthorizationRequestHandler.constructor` | built/authorization_request_handler.js:48-53 | a new handler keeps its utils and crypto and has no notifier |
| `AuthorizationHandler.AuthorizationRequestHandler.BuildRequestUrl` | built/authorization_request_handler.js:57-82 | the URL is the endpoint, then the separator, then `stringify` of the map that `RequestMap` characterises; the loop over the extras is proved to build that map; the endpoint is a prefix of the URL and the next character is `&` or `?` as the endpoint has a `?` or not |
| `AuthorizationHandler.AuthorizationRequestHandler.CompleteAuthorizationRequestIfPossible` | built/authorization_request_handler.js:86-102 | the notifier is called only when the result is non-null and a notifier is set, and then exactly once with the result's request, response and error; the registered listener, if any, therefore receives exactly that triple once; with a null result or no notifier nothing is delivered; the notifier field and its listener are unchanged |
| `AuthorizationHandler.AuthorizationRequestHandler.SetAuthorizationNotifier` | built/authorization_request_handler.js:106-109 | the notifier field is replaced by the argument and the handler itself is returned; utils and crypto are constants and cannot change |
| `CryptoUtils.CharFor` | built/crypto_utils.js:25-26 | a byte maps to a character of `CHARSET` |
| `CryptoUtils.ModuloBias` | built/crypto_utils.js:25 | reducing a byte modulo 62 picks each of the first eight characters with 5 of the 256 byte values and every other character with 4 |
| `CryptoUtils.BufferToString` | built/crypto_utils.js:22-29 | the string is as long as the buffer; character `i` is `CHARSET[buffer[i] % 62]`, so it depends only on byte `i`; every character is in `CHARSET` |
| `CryptoUtils.ToUint8` | built/crypto_utils.js:51 | storing a number in a `Uint8Array` truncates it; a value in [0, 256) becomes its floor |
| `CryptoUtils.FallbackByteAsWritten` | built/crypto_utils.js:51 | the byte that line 51 stores, `buffer[i] = Math.random()`, is 0 for every value `Math.random()` can return |
| `CryptoUtils.FallbackAsWrittenIsConstant` | built/crypto_utils.js:50-52 | as written, the fallback stores 0 whatever `Math.random()` returns, so every character is `A` |
| `CryptoUtils.FallbackByte` | built/crypto_utils.js:50-52 | the corrected fallback byte is the floor of the fraction scaled to [0, 256) |
| `CryptoUtils.FallbackByteUniform` | built/crypto_utils.js:50-52 | the corrected fallback gives byte `b` exactly for the fractions in [b/256, (b+1)/256), so every byte has an interval of the same width |
| `CryptoUtils.FallbackByteReachesEveryByte` | built/crypto_utils.js:50-52 | every byte value, and so every `CHARSET` character, comes out of the corrected fallback for some fraction |
| `CryptoUtils.GenerateRandom` | built/crypto_utils.js:43-55 | the result has exactly `size` characters, all from `CHARSET`, whatever the random source supplies; with `window.crypto`, character `i` is the `CHARSET` character of secure byte `i`; otherwise it is that of the corrected fallback byte `floor(256 * Math.random())`, not the 0 that line 51 stores as written (see "Left out" and "Findings") |
| `CryptoUtils.ReplaceAll` | built/crypto_utils.js:33 | a global replacement of a character that does not occur leaves the string unchanged |
| `CryptoUtils.ToUrlAlphabet` | built/crypto_utils.js:33 | the chain of three replacements leaves a string without `+`, `/` and `=` unchanged |
| `CryptoUtils.ReplaceAllRemoves` | built/crypto_utils.js:33 | a global single-character replacement: the result holds no occurrence of the replaced character (unless the replacement has one) and no character that was neither in the input nor in the replacement |
| `CryptoUtils.ToUrlAlphabetAppend` | built/crypto_utils.js:33 | the three replacements act character by character, so they distribute over concatenation |
| `CryptoUtils.ToUrlAlphabetClean` | built/crypto_utils.js:33 | the rewritten string holds no `+`, `/` or `=` |
| `CryptoUtils.UrlSafe` | built/crypto_utils.js:31-34 | the result holds no `+`, `/` or `=` |
| `CryptoUtils.UrlSafeIsBase64Url` | built/crypto_utils.js:31-34 | `urlSafe` of a buffer equals its unpadded RFC 4648 section 5 encoding (`+` to `-`, `/` to `_`, padding dropped, all else kept in order) and has `(4n + 2) / 3` characters for `n` bytes |
| `CryptoUtils.DeriveChallenge` | built/crypto_utils.js:56-72 | a verifier shorter than 43 or longer than 128 is rejected with the invalid-length error, whatever the host; a success means the digest resolved and the challenge is `urlSafe(SHA-256(UTF-8(code)))`, free of `+`, `/` and `=` |
| `CryptoUtils.HostFlagsInDeriveChallenge` | built/crypto_utils.js:18-20 | how the flags `HAS_CRYPTO`, `HAS_SUBTLE_CRYPTO` and `HAS_TEXT_ENCODER` steer `deriveChallenge`: with no `window`, a verifier of valid length is always rejected for missing subtle crypto; the TextEncoder rejection happens only on a host with `window`, `window.crypto` and `crypto.subtle` but no `TextEncoder`; the subtle-crypto rejection happens only for a valid length on a host missing one of those three |
| `CryptoUtils.CapabilityChecksInOrder` | built/crypto_utils.js:60-70 | with a valid length, missing subtle crypto is reported first, then a missing TextEncoder; only with both present is the digest taken, and its rejection is passed on |
| `CryptoUtils.GuardsPrecedeDigest` | built/crypto_utils.js:57-66 | a rejection by any of the three guards is the same for every encoder and digest: neither is consulted before the guards pass |
| `CryptoUtils.ChallengeIsBase64UrlOfDigest` | built/crypto_utils.js:66-70 | with a valid length, subtle crypto, a TextEncoder and a resolved digest, `deriveChallenge` succeeds with BASE64URL(SHA-256(verifier)) without padding (RFC 7636, section 4.2); a 32-byte digest gives 43 characters |
| `CryptoUtils.RandomStringIsVerifier` | built/crypto_utils.js:21 | a `CHARSET` string of 43 to 128 characters uses only the unreserved characters RFC 7636, section 4.1 allows in a code verifier |
| `Base64.EncodeWith` | built/crypto_utils.js:32 | a padded encoding of `n` bytes has `4 * ceil(n / 3)` characters from the alphabet or `=`; an unpadded one has `(4n + 2) / 3` characters, all from the alphabet |
| `Base64.Encode` | built/crypto_utils.js:32 | `fromByteArray` of `n` bytes, the padded RFC 4648 section 4 encoding, has `4 * ceil(n / 3)` characters |
| `Base64.AlphabetsAgree` | built/crypto_utils.js:33 | the standard and URL-safe alphabets agree on values 0 to 61, which are neither `+`, `/` nor `=`; value 62 is `+` or `-`, and 63 is `/` or `_` |

## Left out

- Logging (`logger_1.log`): it has no behavioural content.
- Promises: `deriveChallenge` returns a `Result` value instead of a promise.
  The digest's rejection is passed on as `DigestFailed`.
- CompleteAuthorizationRequestIfPossible: delivers in the same call. The source
  delivers in a `.then` callback after `completeAuthorizationRequest()` settles.
  A notifier replaced between the call and the settlement is not modelled.
- `performAuthorizationRequest` and `completeAuthorizationRequest`: both are
  abstract, with no bodies, and the navigation they stand for is platform I/O.
  The settled value of `completeAuthorizationRequest` is a parameter.
- `utils.stringify`: the query encoder is not part of this model. It is an
  uninterpreted function, so the model fixes nothing about the order or escaping of
  query parameters.
- Key order: the order in which `for…in` visits the extras and the key order of
  `requestMap` are not modelled. The map is an unordered Dafny `map`.
- Inherited properties: `hasOwnProperty` filtering is implicit, since a Dafny map
  has only its own keys. Special keys are not modelled. An extra named `__proto__` is one of them. So is an extra named `hasOwnProperty`: it shadows the method, line 70 then calls a string and throws a `TypeError`, and the model copies the key instead.
- `window.crypto.getRandomValues`: it is an index-to-byte function. Its
  `QuotaExceededError` for buffers over 65536 bytes is not modelled.
- `Math.random()`: it is a sequence of reals in [0, 1), not IEEE doubles.
- GenerateRandom: without `window.crypto` it stores the corrected fallback byte
  `FallbackByte(r)`, which is `floor(256 * r)`. Line 51 as written stores
  `Math.random()` itself, and that is always 0 (`FallbackAsWrittenIsConstant`).
  So for a host without `window.crypto` the source returns `size` copies of `A`.
  The model promises `CharFor(floor(256 * r))` for each character instead. For
  `r = 0.5`, the model gives byte 128 and so `CHARSET[128 % 62]`, which is `E`;
  the source gives `A`.
- GenerateRandom: `size` is a `nat`. The `RangeError` that `new Uint8Array`
  raises for a negative or too-large size is not modelled.
- SHA-256 and UTF-8 encoding: both are function parameters. No property of
  SHA-256 is used beyond its being a function, so the same verifier gives the
  same challenge.
- DeriveChallenge: counts the length in Dafny characters (Unicode scalar values).
  JavaScript counts UTF-16 code units. The two agree on the ASCII verifiers that
  `generateRandom` produces.
- The `base64-js` library is not part of this model. Its `fromByteArray` is
  modelled by the RFC 4648 section 4 definition in `base64.dfy`.
- Host detection of `window`, `window.crypto`, `crypto.subtle` and
  `TextEncoder`: it happens at module load and becomes a `Host` value. The
  `ReferenceError` that line 20 raises when `TextEncoder` is not declared at all
  is not modelled.
- built/authorization_service_configuration.d.ts holds only declarations.
  Its field shape is reused for `AuthorizationServiceConfiguration`, and
  `fetchFromIssuer` (HTTP) is not modelled.
- `state` is never checked against the response in the shown code, and the model checks nothing about it either.
- What a listener does when it is called, including throwing, is not modelled. Only the fact of the call and its arguments are recorded.

## Findings

| source | as written | input that shows it | evidently intended | confidence | as-written member | corrected member |
|---|---|---|---|---|---|---|
| built/crypto_utils.js:50-52 | without `window.crypto`, `buffer[i] = Math.random()` stores a fraction in a `Uint8Array`, which truncates it to 0 | any host without `window.crypto`, any `Math.random()` values: every byte is 0 and `generateRandom(n)` returns `n` copies of `A` | a uniformly distributed byte, e.g. `Math.floor(Math.random() * 256)` | not executed; high: the truncation follows from ECMAScript's ToUint8 | `CryptoUtils.FallbackAsWrittenIsConstant` | `CryptoUtils.FallbackByteUniform` |

`GenerateRandom` uses the corrected `FallbackByte`. `FallbackByteUniform` shows that each byte gets an interval of fractions of width 1/256, and `FallbackByteReachesEveryByte` names a fraction for each byte.
