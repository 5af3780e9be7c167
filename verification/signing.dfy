/**
  The canonical signing string and the signature of lib/strategy.js:7-20, and the
  normalisation of a supplied base64 signature to lower-case hex (lib/strategy.js:74).
 */
module Signing {
  import opened Wrappers
  import Strings
  import Hex
  import Base64
  import Header

  /**
    The two primitives, supplied from outside: Node's `crypto.createHash('md5')` over a
    body and `crypto.createHmac('sha1', key)` over a message, each returning the raw digest.
   */
  datatype Crypto = Crypto(md5: string -> seq<Hex.byte>, hmacSha1: (string, string) -> seq<Hex.byte>)

  /** What the strategy reads of an inbound request; header names are lower-case, as Node delivers them. */
  datatype Request = Request(httpMethod: string, body: Option<string>, headers: map<string, string>)

  const NewLine: char := '\n'

  /** JavaScript truthiness of an optional string: absent and empty are both falsy. */
  predicate IsTruthy(s: Option<string>) {
    s.Some? && s.value != ""
  }

  /** A header's value when it is present, or nothing. */
  function HeaderValue(req: Request, name: string): Option<string> {
    if name in req.headers then Some(req.headers[name]) else None
  }

  /** Second field: the hex MD5 of a truthy body, and the empty string otherwise. */
  function BodyDigest(c: Crypto, body: Option<string>): (d: string)
    ensures !IsTruthy(body) ==> d == ""
    ensures IsTruthy(body) ==> Hex.Decode(d) == Some(c.md5(body.value))
    ensures NewLine !in d
  {
    if IsTruthy(body) then
      Hex.DecodeEncode(c.md5(body.value));
      Hex.Encode(c.md5(body.value))
    else ""
  }

  /** Third field: a truthy `content-type` header verbatim, and the empty string otherwise. */
  function ContentTypeField(req: Request): string {
    var h := HeaderValue(req, "content-type");
    if IsTruthy(h) then h.value else ""
  }

  /**
    Fourth field: the `date` header verbatim. An absent header is `undefined`, which string
    concatenation spells as the nine characters `undefined`.
   */
  function DateField(req: Request): string {
    match HeaderValue(req, "date")
    case Some(d) => d
    case None => "undefined"
  }

  /**
    The string the MAC is computed over (lib/strategy.js:15-18): method, body digest,
    content type and date, joined by single newlines and without a trailing one. When
    the method, content type and date carry no newline of their own, splitting the
    string at newlines recovers exactly those four fields.
   */
  function SigningString(c: Crypto, req: Request): (s: string)
    ensures NewLine !in req.httpMethod && NewLine !in ContentTypeField(req) && NewLine !in DateField(req)
      ==> Strings.Split(s, NewLine) == [req.httpMethod, BodyDigest(c, req.body), ContentTypeField(req), DateField(req)]
  {
    var digest, ct, date := BodyDigest(c, req.body), ContentTypeField(req), DateField(req);
    var s := req.httpMethod + [NewLine] + digest + [NewLine] + ct + [NewLine] + date;
    if NewLine !in req.httpMethod && NewLine !in ct && NewLine !in date then
      Strings.JoinFour(req.httpMethod, digest, ct, date, NewLine);
      Strings.SplitJoin([req.httpMethod, digest, ct, date], NewLine);
      s
    else s
  }

  /** The server's signature: the lower-case hex of the HMAC-SHA1 of the signing string under the private key. */
  function Signature(c: Crypto, req: Request, privateKey: string): (sig: string)
    ensures Hex.Decode(sig) == Some(c.hmacSha1(privateKey, SigningString(c, req)))
    ensures |sig| == 2 * |c.hmacSha1(privateKey, SigningString(c, req))|
  {
    var mac := c.hmacSha1(privateKey, SigningString(c, req));
    Hex.DecodeEncode(mac);
    Hex.Encode(mac)
  }

  /** The supplied signature token, decoded from base64 and re-rendered as lower-case hex. */
  function Normalize(token: string): (hex: string)
    ensures Hex.Decode(hex) == Some(Base64.Decode(token))
    ensures |hex| == 2 * |Base64.Decode(token)|
  {
    var bytes := Base64.Decode(token);
    Hex.DecodeEncode(bytes);
    Hex.Encode(bytes)
  }

  /** A client's base64 encoding normalises to the hex rendering of the same bytes. */
  lemma NormalizeEncoded(bytes: seq<Hex.byte>)
    ensures Normalize(Base64.Encode(bytes)) == Hex.Encode(bytes)
    ensures |Normalize(Base64.Encode(bytes))| == 2 * |bytes|
  {
    Base64.DecodeEncode(bytes);
  }

  /** Comparing hex strings compares bytes: the server's signature matches exactly when the token decodes to the MAC. */
  lemma SignatureMatches(c: Crypto, req: Request, privateKey: string, token: string)
    ensures Signature(c, req, privateKey) == Normalize(token)
        <==> c.hmacSha1(privateKey, SigningString(c, req)) == Base64.Decode(token)
  {
    Hex.EncodeInjective(c.hmacSha1(privateKey, SigningString(c, req)), Base64.Decode(token));
  }

  /** The signing string reads neither the `authorization` header nor any other header besides `content-type` and `date`. */
  lemma SigningStringIgnoresOtherHeaders(c: Crypto, req: Request, name: string, value: string)
    requires name != "content-type" && name != "date"
    ensures SigningString(c, req.(headers := req.headers[name := value])) == SigningString(c, req)
  {
    var req' := req.(headers := req.headers[name := value]);
    assert HeaderValue(req', "content-type") == HeaderValue(req, "content-type");
    assert HeaderValue(req', "date") == HeaderValue(req, "date");
  }

  /** A request without body or content type signs `METHOD\n\n\n<date>`. */
  lemma BareRequest(c: Crypto, httpMethod: string, date: string, others: map<string, string>)
    requires "content-type" !in others
    ensures SigningString(c, Request(httpMethod, None, others["date" := date]))
         == httpMethod + "\n\n\n" + date
  {
  }

  /** A request without a `date` header signs the word `undefined` as its fourth field. */
  lemma MissingDateSignsUndefined(c: Crypto, req: Request)
    requires "date" !in req.headers
    requires NewLine !in req.httpMethod && NewLine !in ContentTypeField(req)
    ensures Strings.Split(SigningString(c, req), NewLine)[3] == "undefined"
  {
  }

  /** Third field as the test suite's client writes it: the header verbatim, and `undefined` when it is absent. */
  function ClientContentTypeField(req: Request): string {
    match HeaderValue(req, "content-type")
    case Some(v) => v
    case None => "undefined"
  }

  /**
    The string the client of test/strategy_normal_test.js:32-41 signs. It hashes the body
    whatever its value and concatenates the content type even when it is absent, so it
    agrees with the server's signing string only for a truthy body and content type.
   */
  function ClientSigningString(c: Crypto, req: Request): (s: string)
    requires req.body.Some?
    ensures IsTruthy(req.body) && IsTruthy(HeaderValue(req, "content-type")) ==> s == SigningString(c, req)
    ensures NewLine !in req.httpMethod && NewLine !in ClientContentTypeField(req) && NewLine !in DateField(req)
      ==> Strings.Split(s, NewLine)
          == [req.httpMethod, Hex.Encode(c.md5(req.body.value)), ClientContentTypeField(req), DateField(req)]
  {
    var digest, ct, date := Hex.Encode(c.md5(req.body.value)), ClientContentTypeField(req), DateField(req);
    var s := req.httpMethod + [NewLine] + digest + [NewLine] + ct + [NewLine] + date;
    if NewLine !in req.httpMethod && NewLine !in ct && NewLine !in date then
      Strings.JoinFour(req.httpMethod, digest, ct, date, NewLine);
      Strings.SplitJoin([req.httpMethod, digest, ct, date], NewLine);
      s
    else s
  }

  /** For an empty body the test's client signs the hex of an MD5 where the server signs nothing. */
  lemma ClientHashesEmptyBody(c: Crypto, req: Request)
    requires req.body == Some("")
    requires |c.md5("")| > 0
    requires NewLine !in req.httpMethod && NewLine !in DateField(req)
    requires NewLine !in ClientContentTypeField(req) && NewLine !in ContentTypeField(req)
    ensures ClientSigningString(c, req) != SigningString(c, req)
  {
    var client := Strings.Split(ClientSigningString(c, req), NewLine);
    var server := Strings.Split(SigningString(c, req), NewLine);
    assert |client[1]| == 2 * |c.md5("")|;
    assert server[1] == "";
  }

  /** Without a `content-type` header the test's client signs `undefined` where the server signs nothing. */
  lemma ClientSignsMissingContentType(c: Crypto, req: Request)
    requires req.body.Some? && "content-type" !in req.headers
    requires NewLine !in req.httpMethod && NewLine !in DateField(req)
    ensures ClientSigningString(c, req) != SigningString(c, req)
  {
    var client := Strings.Split(ClientSigningString(c, req), NewLine);
    var server := Strings.Split(SigningString(c, req), NewLine);
    assert client[2] == "undefined";
    assert server[2] == "";
  }

  /**
    A client that signs the server's own signing string with the private key, encodes the
    MAC in base64 and sends it in the `authorization` header. For a truthy body and content
    type this is the client of test/strategy_normal_test.js:32-43 (see `ClientSigningString`).
   */
  function Authorize(c: Crypto, req: Request, scheme: string, publicKey: string, privateKey: string): (signed: Request)
    requires Header.IsScheme(scheme) && Header.IsPublicKey(publicKey)
    ensures SigningString(c, signed) == SigningString(c, req)
    ensures "authorization" in signed.headers
    ensures Header.Parse(signed.headers["authorization"])
         == Some(Header.Authorization(scheme, publicKey, Base64.Encode(c.hmacSha1(privateKey, SigningString(c, req)))))
  {
    var token := Base64.Encode(c.hmacSha1(privateKey, SigningString(c, req)));
    var a := Header.Authorization(scheme, publicKey, token);
    Base64.EncodeIsToken(c.hmacSha1(privateKey, SigningString(c, req)));
    Header.ParseRender(a);
    SigningStringIgnoresOtherHeaders(c, req, "authorization", Header.Render(a));
    req.(headers := req.headers["authorization" := Header.Render(a)])
  }
}
