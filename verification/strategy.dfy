/**
  The passport strategy of lib/strategy.js: its constructor (lines 31-45) and the
  decision `authenticate` makes for one request (lines 59-103), as a pure function
  from the request and the verify callback's answer to one outcome.
 */
module Strategy {
  import opened Wrappers
  import Header
  import Base64
  import Hex
  import Signing

  const Name := "hmac"
  const MissingCallbackMessage := "HMAC Strategy requires a verify callback"
  const BadHeaderMessage := "Bad authorization header"
  const BadCredentialsMessage := "Bad credentials"
  const BadSignatureMessage := "Bad signature"
  const BadRequestStatus := 400

  /** The arguments the strategy passes to the verify callback, besides `done`. */
  datatype Call =
    | KeyOnly(publicKey: string)
    | WithRequest(request: Signing.Request, publicKey: string)

  /**
    What the verify callback did: threw synchronously, or called
    `done(err, user, privateKey, info)`. A falsy `err` or `user` is `None`.
   */
  datatype Answer<E, U, I> =
    | Threw(exception: E)
    | Done(err: Option<E>, user: Option<U>, privateKey: string, info: I)

  /** The one passport action taken: `fail(challenge, status)`, `error(e)` or `success(user, info)`. */
  datatype Outcome<E, U, I> =
    | Fail(message: string, status: Option<int>)
    | Error(cause: E)
    | Success(user: U, info: I)

  /** A constructed strategy: its name, the verify callback, and whether the request is passed to it. */
  datatype Strategy<E, U, I> = Strategy(name: string, verify: Call -> Answer<E, U, I>, passReqToCallback: bool)

  /** The first constructor argument: an options object, or the callback itself when options are left out. */
  datatype FirstArgument<E, U, I> =
    | OptionsObject(passReqToCallback: bool)
    | Callback(callback: Call -> Answer<E, U, I>)

  /** The `options` argument of `authenticate`; only `badRequestMessage` is read. */
  datatype Options = Options(badRequestMessage: Option<string>)

  /**
    `new Strategy(options, verify)`: a callback in first position is the verify callback
    and the options are empty; without a callback the constructor throws a `TypeError`.
   */
  function New<E, U, I>(options: FirstArgument<E, U, I>, verify: Option<Call -> Answer<E, U, I>>)
    : (r: Result<Strategy<E, U, I>, string>)
    ensures r.Err? <==> options.OptionsObject? && verify.None?
    ensures r.Err? ==> r.error == MissingCallbackMessage
    ensures r.Ok? ==> r.value.name == Name
    ensures options.Callback? ==>
      && r.Ok? && !r.value.passReqToCallback
      && forall call :: r.value.verify(call) == options.callback(call)
    ensures options.OptionsObject? && verify.Some? ==>
      && r.Ok? && r.value.passReqToCallback == options.passReqToCallback
      && forall call :: r.value.verify(call) == verify.value(call)
  {
    match options
    case Callback(f) => Ok(Strategy(Name, f, false))
    case OptionsObject(passReq) =>
      if verify.None? then Err(MissingCallbackMessage)
      else Ok(Strategy(Name, verify.value, passReq))
  }

  /** `options.badRequestMessage || fallback`. */
  function Message(options: Options, fallback: string): string {
    if Signing.IsTruthy(options.badRequestMessage) then options.badRequestMessage.value else fallback
  }

  /** The arguments the verify callback receives for a public key. */
  function CallFor<E, U, I>(s: Strategy<E, U, I>, req: Signing.Request, publicKey: string): Call {
    if s.passReqToCallback then WithRequest(req, publicKey) else KeyOnly(publicKey)
  }

  /**
    The `verified` continuation (lib/strategy.js:78-92): an error wins, then a missing user
    fails, then the signature decides. `supplied` is the normalised hex of the token.
   */
  function Verified<E, U, I>(
    c: Signing.Crypto, req: Signing.Request, options: Options, supplied: string,
    err: Option<E>, user: Option<U>, privateKey: string, info: I): (r: Outcome<E, U, I>)
    ensures err.Some? ==> r == Error(err.value)
    ensures err.None? && user.None? ==> r == Fail(Message(options, BadCredentialsMessage), None)
    ensures err.None? && user.Some? ==>
      var mac := c.hmacSha1(privateKey, Signing.SigningString(c, req));
      (r == Success(user.value, info) <==> Hex.Decode(supplied) == Some(mac))
    ensures err.None? && user.Some? && Hex.Decode(supplied) != Some(c.hmacSha1(privateKey, Signing.SigningString(c, req)))
      ==> r == Fail(Message(options, BadSignatureMessage), None)
  {
    if err.Some? then Error(err.value)
    else if user.None? then Fail(Message(options, BadCredentialsMessage), None)
    else if Signing.Signature(c, req, privateKey) != supplied then
      Hex.DecodeIffEncode(supplied, c.hmacSha1(privateKey, Signing.SigningString(c, req)));
      Fail(Message(options, BadSignatureMessage), None)
    else Success(user.value, info)
  }

  /** The answer the verify callback gives for a parsed header. */
  function AnswerFor<E, U, I>(s: Strategy<E, U, I>, req: Signing.Request, h: Header.Authorization): Answer<E, U, I> {
    s.verify(CallFor(s, req, h.publicKey))
  }

  /**
    `Strategy.prototype.authenticate`. A header that does not match the grammar fails with
    status 400 before the callback is consulted; a thrown exception or a reported error is
    an error; a missing user fails; otherwise the request succeeds exactly when the token
    decodes to the HMAC-SHA1 of the signing string under the returned private key.
   */
  function Authenticate<E, U, I>(s: Strategy<E, U, I>, c: Signing.Crypto, req: Signing.Request, options: Options)
    : (r: Outcome<E, U, I>)
    requires "authorization" in req.headers
    ensures (r.Fail? && r.status.Some?) <==> Header.Parse(req.headers["authorization"]).None?
    ensures r.Fail? && r.status.Some? ==> r == Fail(Message(options, BadHeaderMessage), Some(BadRequestStatus))
    ensures Header.Parse(req.headers["authorization"]).Some? ==>
      var h := Header.Parse(req.headers["authorization"]).value;
      match AnswerFor(s, req, h)
      case Threw(e) => r == Error(e)
      case Done(err, user, key, info) =>
        if err.Some? then r == Error(err.value)
        else if user.None? then r == Fail(Message(options, BadCredentialsMessage), None)
        else if c.hmacSha1(key, Signing.SigningString(c, req)) == Base64.Decode(h.signature) then
          r == Success(user.value, info)
        else r == Fail(Message(options, BadSignatureMessage), None)
  {
    match Header.Parse(req.headers["authorization"])
    case None => Fail(Message(options, BadHeaderMessage), Some(BadRequestStatus))
    case Some(h) =>
      match AnswerFor(s, req, h)
      case Threw(e) => Error(e)
      case Done(err, user, key, info) =>
        Signing.SignatureMatches(c, req, key, h.signature);
        Verified(c, req, options, Signing.Normalize(h.signature), err, user, key, info)
  }

  /** A malformed header decides the outcome alone: neither the callback nor the primitives are consulted. */
  lemma BadHeaderIgnoresCallback<E, U, I>(
    s1: Strategy<E, U, I>, s2: Strategy<E, U, I>, c1: Signing.Crypto, c2: Signing.Crypto,
    req: Signing.Request, options: Options)
    requires "authorization" in req.headers
    requires Header.Parse(req.headers["authorization"]).None?
    ensures Authenticate(s1, c1, req, options) == Authenticate(s2, c2, req, options)
  {
  }

  /** Without a user no signature is computed: the outcome does not depend on the primitives or the key. */
  lemma NoUserIgnoresSignature<E, U, I>(
    s: Strategy<E, U, I>, c1: Signing.Crypto, c2: Signing.Crypto, req: Signing.Request, options: Options)
    requires "authorization" in req.headers
    requires Header.Parse(req.headers["authorization"]).Some?
    requires var a := AnswerFor(s, req, Header.Parse(req.headers["authorization"]).value);
      a.Done? && a.err.None? && a.user.None?
    ensures Authenticate(s, c1, req, options) == Authenticate(s, c2, req, options)
    ensures Authenticate(s, c1, req, options) == Fail(Message(options, BadCredentialsMessage), None)
  {
  }

  /** Every failure is one of the three, each with its message and only the first with a status. */
  lemma FailureMessages<E, U, I>(s: Strategy<E, U, I>, c: Signing.Crypto, req: Signing.Request, options: Options)
    requires "authorization" in req.headers
    ensures var r := Authenticate(s, c, req, options);
      r.Fail? ==>
        || r == Fail(Message(options, BadHeaderMessage), Some(BadRequestStatus))
        || r == Fail(Message(options, BadCredentialsMessage), None)
        || r == Fail(Message(options, BadSignatureMessage), None)
  {
    match Header.Parse(req.headers["authorization"])
    case None =>
    case Some(h) =>
      match AnswerFor(s, req, h)
      case Threw(e) =>
      case Done(err, user, key, info) =>
  }

  /** A truthy `badRequestMessage` replaces the message of every failure. */
  lemma OverrideReplacesMessages<E, U, I>(s: Strategy<E, U, I>, c: Signing.Crypto, req: Signing.Request, options: Options)
    requires "authorization" in req.headers
    requires Signing.IsTruthy(options.badRequestMessage)
    ensures var r := Authenticate(s, c, req, options);
      r.Fail? ==> r.message == options.badRequestMessage.value
  {
    FailureMessages(s, c, req, options);
  }

  /** Without an override the three failures carry their own messages, and only a bad header carries a status. */
  lemma DefaultMessages<E, U, I>(s: Strategy<E, U, I>, c: Signing.Crypto, req: Signing.Request)
    requires "authorization" in req.headers
    ensures var r := Authenticate(s, c, req, Options(None));
      r.Fail? ==>
        || r == Fail(BadHeaderMessage, Some(BadRequestStatus))
        || r == Fail(BadCredentialsMessage, None)
        || r == Fail(BadSignatureMessage, None)
  {
    FailureMessages(s, c, req, Options(None));
  }

  /**
    A request signed by a client holding the private key is accepted, provided the
    callback returns that key and a user for the public key (test/strategy_normal_test.js).
   */
  lemma ClientRoundTrip<E, U, I>(
    s: Strategy<E, U, I>, c: Signing.Crypto, req: Signing.Request, options: Options,
    scheme: string, publicKey: string, privateKey: string, user: U, info: I)
    requires Header.IsScheme(scheme) && Header.IsPublicKey(publicKey)
    requires var signed := Signing.Authorize(c, req, scheme, publicKey, privateKey);
      s.verify(CallFor(s, signed, publicKey)) == Done(None, Some(user), privateKey, info)
    ensures Authenticate(s, c, Signing.Authorize(c, req, scheme, publicKey, privateKey), options) == Success(user, info)
  {
    Base64.DecodeEncode(c.hmacSha1(privateKey, Signing.SigningString(c, req)));
  }

  /**
    With a primitive that yields twenty-byte tags, as HMAC-SHA1 does, only a 28-character
    token ending in a single `=` can succeed; the empty token the grammar admits never does.
   */
  lemma SuccessNeedsFullToken<E, U, I>(s: Strategy<E, U, I>, c: Signing.Crypto, req: Signing.Request, options: Options)
    requires "authorization" in req.headers
    requires forall key, msg :: |c.hmacSha1(key, msg)| == 20
    requires Authenticate(s, c, req, options).Success?
    ensures Header.Parse(req.headers["authorization"]).Some?
    ensures var token := Header.Parse(req.headers["authorization"]).value.signature;
      |token| == 28 && Base64.PadCount(token) == 1
  {
    var h := Header.Parse(req.headers["authorization"]).value;
    var a := AnswerFor(s, req, h);
    assert |c.hmacSha1(a.privateKey, Signing.SigningString(c, req))| == 20;
    Base64.TwentyByteToken(h.signature);
  }
}
