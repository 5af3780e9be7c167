# passport-hmac: the HMAC strategy, modelled in Dafny

passport-hmac is a Passport strategy that authenticates an HTTP request by
checking the `Authorization` header:

```
<scheme> <public key>:<base64 signature>
```

The signature is the base64 HMAC-SHA1 of a four-line signing string:

- the request method;
- the hex MD5 of the body, or nothing;
- the `Content-Type` header, or nothing;
- the `Date` header.

The key is a private key. The application's verify callback looks that key up
from the public key.

This project models the whole of `lib/strategy.js` as pure functions. MD5 and
HMAC-SHA1 are parameters. The callback is a function from its arguments to
what it answered.

| file | module | what it models |
|---|---|---|
| `wrappers.dfy` | `Wrappers` | `Option` and `Result` |
| `strings.dfy` | `Strings` | first-occurrence search, split and join on one character |
| `hex.dfy` | `Hex` | lowercase hex rendering of bytes (`digest('hex')`, `WordArray.toString()`) and its inverse |
| `base64.dfy` | `Base64` | the token grammar of the header regex, base64 encoding as a client produces it, and the lenient decoding of `CryptoJS.enc.Base64.parse` |
| `header.dfy` | `Header` | the match of the `Authorization` header against the regex on line 66 |
| `signing.dfy` | `Signing` | `signedString`, the base64-to-hex normalisation on line 74, and the client side of the protocol |
| `strategy.dfy` | `Strategy` | the constructor, the `verified` continuation, and `authenticate` |

Each operation is paired with an independent definition and a lemma that links
the two:

- header parsing with the rendering `scheme + " " + key + ":" + token`, as a
  round trip and as an if-and-only-if;
- hex and base64 decoding with their encoders;
- the signing string with its split on newlines;
- the authentication decision with a client that signs the request.

## Behaviour of the code worth knowing

- The public key group of the regex on `lib/strategy.js:66` is `[^:]+`, so a
  key may contain spaces. Only the scheme stops at the first space.
- A header that does not match fails with status 400 (`lib/strategy.js:69`).
  The other two failures carry no status.
- The body digest is the MD5 of `request.body` exactly as the request holds it
  (`lib/strategy.js:16`).
- A missing `date` header is concatenated as the text `undefined`
  (`lib/strategy.js:18`). The request goes on to the signature check.
- The signatures are compared as hex strings with `!==` (`lib/strategy.js:87`).
- The token grammar admits the empty token. Decoding ignores the bits below a
  final `=` or `==`, so distinct tokens can decode to the same bytes; see
  `Base64.PaddingBitsIgnored`.

## Model

| member | source | states |
|---|---|---|
| Hex.Encode | lib/strategy.js:19 | a digest rendered as hex has two lowercase hex digits per byte |
| Hex.DecodeEncode | lib/strategy.js:19 | reading hex back recovers the digest bytes exactly |
| Hex.EncodeDecode | lib/strategy.js:74 | every readable hex string is the rendering of the bytes it reads as |
| Hex.DecodeDefined | lib/strategy.js:74 | hex text is readable exactly when it has even length and only lowercase hex digits |
| Hex.EncodeInjective | lib/strategy.js:87 | two byte strings have equal hex renderings exactly when they are equal, so the `!==` on line 87 compares bytes |
| Hex.DecodeIffEncode | lib/strategy.js:87 | a hex string reads as given bytes exactly when it is their rendering |
| Base64.TokenIsPadded | lib/strategy.js:66 | the group-wise token grammar of the third capture group accepts exactly the strings of length divisible by four, with alphabet characters and at most two trailing `=` |
| Base64.Encode | test/strategy_normal_test.js:32-41 | a client's token has length four times the number of started three-byte groups |
| Base64.EncodeIsToken | test/strategy_normal_test.js:32-43 | every token a client produces is accepted by the header grammar |
| Base64.GroupRoundTrip | lib/strategy.js:74 | one encoded group holds no padding and decodes back to its three bytes |
| Base64.DecodeChars | lib/strategy.js:74 | decoding yields three bytes per four characters and one or two for a shorter tail |
| Base64.DecodeEncode | lib/strategy.js:74 | parsing a client's token yields exactly the bytes that were encoded |
| Base64.DecodedLength | lib/strategy.js:66-74 | a grammar-accepted token carries at most two `=` and decodes to three bytes per group minus one per `=` |
| Base64.DecodeStopsAtPad | lib/strategy.js:74 | `Base64.Decode`, the model of CryptoJS's `Base64.parse`, reads only the characters before the first `=`, one byte per adjacent pair within a group |
| Base64.PaddingBitsIgnored | lib/strategy.js:66-74 | the distinct tokens `AB==` and `AA==` both pass the grammar and both decode to the single byte 0 |
| Base64.TwentyByteToken | lib/strategy.js:66-74 | only a 28-character token with exactly one `=` decodes to a twenty-byte HMAC-SHA1 tag |
| Header.Parse | lib/strategy.js:66-73 | a match is well formed (scheme without spaces, key without colons, base64 token) and reassembles into the header |
| Header.ParseRender | lib/strategy.js:64-66 | every well-formed triple rendered as a header is matched back to the same scheme, key and token |
| Header.ParseIff | lib/strategy.js:66 | a header matches with given parts exactly when the parts are well formed and render as the header |
| Header.RejectIff | lib/strategy.js:66-70 | a header is rejected exactly when no well-formed triple renders as it |
| Header.SchemeIgnored | lib/strategy.js:72-73 | any non-empty scheme without spaces is accepted, and the scheme does not change the key or the token |
| Header.MissingColonRejected | lib/strategy.js:66-70 | a header without a colon after the key, such as `Hmac bad_public_key`, is rejected |
| Header.SecondSpaceBelongsToKey | lib/strategy.js:64-66 | a second space becomes part of the public key rather than a reason to reject |
| Signing.BodyDigest | lib/strategy.js:16 | a falsy body contributes nothing, and a truthy one contributes the hex of its MD5, which holds no newline |
| Signing.SigningString | lib/strategy.js:13-18 | when method, content type and date hold no newline, the signing string splits on newlines into exactly those four fields, in that order |
| Signing.Signature | lib/strategy.js:13-19 | the server's signature is the hex of the HMAC-SHA1 of the signing string under the private key |
| Signing.Normalize | lib/strategy.js:74 | the normalised token is the hex of the bytes the token decodes to |
| Signing.NormalizeEncoded | lib/strategy.js:74 | normalising a client's token gives the hex of the signed bytes |
| Signing.SignatureMatches | lib/strategy.js:74-87 | the string comparison on line 87 succeeds exactly when the token decodes to the HMAC-SHA1 tag |
| Signing.SigningStringIgnoresOtherHeaders | lib/strategy.js:15-18 | headers other than `content-type` and `date` do not affect what is signed |
| Signing.BareRequest | lib/strategy.js:15-18 | a request with no body and no content type signs `method + "\n\n\n" + date` |
| Signing.MissingDateSignsUndefined | lib/strategy.js:18 | `Signing.DateField` turns an absent `date` header into the fourth field `undefined` |
| Signing.ClientSigningString | test/strategy_normal_test.js:32-41 | the string the test's client signs splits into the method, the hex MD5 of the body, the content type or `undefined`, and the date; it equals the server's signing string when body and content type are truthy |
| Signing.ClientHashesEmptyBody | test/strategy_normal_test.js:36 | for an empty body the test's client signs a digest where the server signs nothing, so the two strings differ |
| Signing.ClientSignsMissingContentType | test/strategy_normal_test.js:37 | without a content type the test's client signs `undefined` where the server signs nothing, so the two strings differ |
| Signing.Authorize | test/strategy_normal_test.js:32-43 | a client that signs the server's own signing string keeps that string and sends a header that matches as its scheme, key and base64 tag |
| Strategy.New | lib/strategy.js:31-45 | the constructor throws the missing-callback `TypeError` exactly when no callback is given; a callback in first position is the verify callback, without the request; otherwise `passReqToCallback` is taken from the options; the name is `hmac` |
| Strategy.Verified | lib/strategy.js:78-92 | an error wins; a missing user fails as bad credentials; otherwise success holds exactly when the supplied hex reads as the HMAC-SHA1 tag, and failure is a bad signature |
| Strategy.Authenticate | lib/strategy.js:59-103 | a status-400 failure happens exactly when the header does not match; a thrown exception or reported error is an error; a missing user, a mismatching tag and a matching tag give bad credentials, bad signature and success |
| Strategy.BadHeaderIgnoresCallback | lib/strategy.js:66-70 | a malformed header decides the outcome before the callback or the primitives are consulted |
| Strategy.NoUserIgnoresSignature | lib/strategy.js:82-84 | without a user the outcome is a bad-credentials failure, whatever the primitives compute |
| Strategy.FailureMessages | lib/strategy.js:68-89 | every failure is one of the three, each with its message, and only the bad header carries a status |
| Strategy.OverrideReplacesMessages | lib/strategy.js:69-88 | a truthy `badRequestMessage` becomes the message of every failure |
| Strategy.DefaultMessages | lib/strategy.js:69-88 | without an override the failures carry `Bad authorization header` with status 400, `Bad credentials` or `Bad signature` |
| Strategy.ClientRoundTrip | test/strategy_normal_test.js:6-56 | a request carrying the base64 HMAC of the server's own signing string under the private key succeeds with the callback's user and info when the callback returns that key |
| Strategy.SuccessNeedsFullToken | lib/strategy.js:66-91 | with twenty-byte HMAC tags, success requires a 28-character token that ends in one `=` |

## Left out

- MD5 and HMAC-SHA1: they are the `md5` and `hmacSha1` fields of
  `Signing.Crypto`, and any total functions may be supplied. Their internals are
  not part of this model.
- UTF-8: strings are sequences of characters, and the primitives take them as
  given. The encoding Node applies before hashing is part of the primitives.
- The decoder of `crypto-js`: its source is not part of this model.
  `Base64.Decode` follows the code of its `parse` routine, not its
  documentation. It reads up to the first `=` and turns each run of two to four
  characters into one to three bytes. It gives a non-alphabet character the
  value 0, as the reverse-map lookup of newer releases does. The header grammar
  lets no such character through.
- Signing.Authorize: it signs the server's `SigningString`, not the string of
  the client in test/strategy_normal_test.js:32-41. That client differs in three
  ways. It hashes a falsy body (`Signing.ClientHashesEmptyBody`). It writes
  `undefined` for an absent content type
  (`Signing.ClientSignsMissingContentType`). It UTF-8-encodes the text before
  CryptoJS encodes it again, which changes non-ASCII text. The first two are in
  `Signing.ClientSigningString`. The double encoding is not modelled, because
  strings reach the primitives as characters. `Strategy.ClientRoundTrip`
  therefore covers the test's client only for a truthy body, a truthy content
  type and ASCII text.
- Signing.ClientSigningString: it requires a body. The test's client always
  sets one, and what `CryptoJS.MD5` does with an absent body is not modelled.
- Non-string request bodies: `Request.body` is a string. An object body, which
  `createHash(...).update` would reject, is not modelled.
- Strategy.Authenticate: a request without an `Authorization` header is
  excluded by its precondition. The source throws a `TypeError` on line 66
  outside the `try`, so `authenticate` has no outcome for it.
- Strategy.Authenticate: the callback calling `done` more than once, calling it
  asynchronously, or throwing after calling it is not modelled. One answer is
  one outcome.
- Strategy.Verified: a user returned without a private key is modelled with
  the key as a string. In the source, `createHmac` would throw inside
  `verified`. That throw is caught by the `try` only when `done` is called
  synchronously.
- JavaScript truthiness: it is modelled with `Option`. `None` or the empty
  string is falsy for strings. For the `err` and `user` values of `done`, `None`
  is falsy.
- Strategy.New: the form `new Strategy(undefined, verify)`, which throws on the
  property access of line 44, is not modelled. The first argument is always an
  options object or a callback.
- Passport itself: the `fail`, `error` and `success` actions, the prototype
  chain, and the unused `info` handling are left out. `authenticate` returns the
  action it would take as an `Outcome`.
- Timing: the comparison is modelled as equality. Its running time is outside
  the model.
