/**
  The `Authorization` header grammar of lib/strategy.js:
  `^([^ ]+) ([^:]+):(<standard base64>)$` — a scheme, one space, a public key, a colon
  and a base64 signature token.
 */
module Header {
  import opened Wrappers
  import Strings
  import Base64

  /** The three captured groups of a matching header. */
  datatype Authorization = Authorization(scheme: string, publicKey: string, signature: string)

  /** `[^ ]+`: one or more characters, none of them a space. */
  predicate IsScheme(s: string) {
    |s| > 0 && ' ' !in s
  }

  /** `[^:]+`: one or more characters, none of them a colon. Spaces are allowed. */
  predicate IsPublicKey(s: string) {
    |s| > 0 && ':' !in s
  }

  /** All three groups match their parts of the regular expression. */
  predicate WellFormed(a: Authorization) {
    IsScheme(a.scheme) && IsPublicKey(a.publicKey) && Base64.IsToken(a.signature)
  }

  /** The header text a client sends for the three parts. */
  function Render(a: Authorization): string {
    a.scheme + " " + a.publicKey + ":" + a.signature
  }

  /**
    The match of lib/strategy.js:66, written as a recogniser: the scheme runs to the first
    space, the public key from there to the next colon, and the rest must be a base64 token.
   */
  function Parse(header: string): (r: Option<Authorization>)
    ensures r.Some? ==> WellFormed(r.value) && Render(r.value) == header
  {
    var i := Strings.IndexOf(header, ' ');
    if i == 0 || i == |header| then None
    else
      var rest := header[i + 1..];
      var j := Strings.IndexOf(rest, ':');
      if j == 0 || j == |rest| || !Base64.IsToken(rest[j + 1..]) then None
      else
        assert header == header[..i] + " " + rest[..j] + ":" + rest[j + 1..] by {
          assert header == header[..i] + [header[i]] + rest;
          assert rest == rest[..j] + [rest[j]] + rest[j + 1..];
        }
        Some(Authorization(header[..i], rest[..j], rest[j + 1..]))
  }

  /** Every well-formed header parses back into its parts. */
  lemma ParseRender(a: Authorization)
    requires WellFormed(a)
    ensures Parse(Render(a)) == Some(a)
  {
    var header := Render(a);
    var tail := a.publicKey + ":" + a.signature;
    assert header == a.scheme + [' '] + tail;
    Strings.IndexOfSplit(a.scheme, ' ', tail);
    Strings.IndexOfSplit(a.publicKey, ':', a.signature);
  }

  /** A header parses to `a` exactly when `a` is well formed and renders as the header. */
  lemma ParseIff(header: string, a: Authorization)
    ensures Parse(header) == Some(a) <==> WellFormed(a) && Render(a) == header
  {
    if WellFormed(a) && Render(a) == header {
      ParseRender(a);
    }
  }

  /** A header is rejected exactly when it has no decomposition the grammar accepts. */
  lemma RejectIff(header: string)
    ensures Parse(header).None? <==> forall a :: !(WellFormed(a) && Render(a) == header)
  {
    if a :| WellFormed(a) && Render(a) == header {
      ParseRender(a);
    }
  }

  /** The scheme is not interpreted: any two schemes in front of the same text give the same key and token. */
  lemma SchemeIgnored(s1: string, s2: string, rest: string)
    requires IsScheme(s1) && IsScheme(s2)
    ensures Parse(s1 + " " + rest).Some? <==> Parse(s2 + " " + rest).Some?
    ensures Parse(s1 + " " + rest).Some? ==>
      && Parse(s1 + " " + rest).value.publicKey == Parse(s2 + " " + rest).value.publicKey
      && Parse(s1 + " " + rest).value.signature == Parse(s2 + " " + rest).value.signature
  {
    Strings.IndexOfAppend(s1, " " + rest, ' ');
    Strings.IndexOfAppend(s2, " " + rest, ' ');
    assert s1 + " " + rest == s1 + (" " + rest);
    assert s2 + " " + rest == s2 + (" " + rest);
    assert (s1 + " " + rest)[|s1| + 1..] == rest;
    assert (s2 + " " + rest)[|s2| + 1..] == rest;
  }

  /** A header without a colon after the scheme is rejected (`Hmac bad_public_key`). */
  lemma MissingColonRejected()
    ensures Parse("Hmac bad_public_key").None?
  {
    assert "Hmac bad_public_key" == "Hmac" + [' '] + "bad_public_key";
    Strings.IndexOfSplit("Hmac", ' ', "bad_public_key");
    Strings.IndexOfAbsent("bad_public_key", ':');
  }

  /** The key may start with a space: only the first space ends the scheme. */
  lemma SecondSpaceBelongsToKey()
    ensures Parse("Hmac  key:") == Some(Authorization("Hmac", " key", ""))
  {
    ParseRender(Authorization("Hmac", " key", ""));
    assert Render(Authorization("Hmac", " key", "")) == "Hmac  key:";
  }
}
