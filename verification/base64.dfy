/**
  Standard base64 (section 4 of RFC 4648): the alphabet `A-Z a-z 0-9 + /`, groups of
  four characters for three bytes, and `=` padding in the last group only.
 */
module Base64 {
  import Strings
  import Hex

  type byte = Hex.byte

  /** Six bits, the value of one base64 character. */
  type sextet = x: int | 0 <= x < 64

  /** The padding character. */
  const Pad: char := '='

  /** The character class `[A-Za-z0-9+/]`. */
  predicate IsAlphabetChar(c: char) {
    'A' <= c <= 'Z' || 'a' <= c <= 'z' || '0' <= c <= '9' || c == '+' || c == '/'
  }

  /**
    The value CryptoJS's reverse map gives a character. A character outside the
    alphabet has no entry, and `undefined` shifted by JavaScript's bit operators is 0.
   */
  function SextetValue(c: char): sextet {
    if 'A' <= c <= 'Z' then c as int - 'A' as int
    else if 'a' <= c <= 'z' then c as int - 'a' as int + 26
    else if '0' <= c <= '9' then c as int - '0' as int + 52
    else if c == '+' then 62
    else if c == '/' then 63
    else 0
  }

  /** The alphabet character that stands for a sextet. */
  function SextetChar(v: sextet): (c: char)
    ensures IsAlphabetChar(c)
    ensures SextetValue(c) == v
  {
    if v < 26 then ('A' as int + v) as char
    else if v < 52 then ('a' as int + v - 26) as char
    else if v < 62 then ('0' as int + v - 52) as char
    else if v == 62 then '+'
    else '/'
  }

  /** A group of four alphabet characters: `[A-Za-z0-9+/]{4}`. */
  predicate IsFullGroup(g: string)
    requires |g| == 4
  {
    IsAlphabetChar(g[0]) && IsAlphabetChar(g[1]) && IsAlphabetChar(g[2]) && IsAlphabetChar(g[3])
  }

  /** The group that may end a token: a full group, `[A-Za-z0-9+/]{2}==` or `[A-Za-z0-9+/]{3}=`. */
  predicate IsLastGroup(g: string)
    requires |g| == 4
  {
    IsAlphabetChar(g[0]) && IsAlphabetChar(g[1])
    && ((IsAlphabetChar(g[2]) && (IsAlphabetChar(g[3]) || g[3] == Pad))
        || (g[2] == Pad && g[3] == Pad))
  }

  /**
    The signature part of the header grammar, group by group as the regular expression
    `(?:[A-Za-z0-9+/]{4})*(?:[A-Za-z0-9+/]{2}==|[A-Za-z0-9+/]{3}=)?` reads it, anchored at
    both ends. The empty token is accepted.
   */
  predicate IsToken(t: string)
    decreases |t|
  {
    if |t| == 0 then true
    else if |t| < 4 then false
    else if |t| == 4 then IsLastGroup(t[..4])
    else IsFullGroup(t[..4]) && IsToken(t[4..])
  }

  /**
    The same language stated position by position: a length that is a multiple of four,
    and alphabet characters everywhere except for one `=` at the end or two `=` at the end.
   */
  predicate IsPadded(t: string) {
    && |t| % 4 == 0
    && forall i :: 0 <= i < |t| ==>
         IsAlphabetChar(t[i]) || (t[i] == Pad && (i == |t| - 1 || (i == |t| - 2 && t[|t| - 1] == Pad)))
  }

  /** The group-by-group recogniser accepts exactly the padded strings. */
  lemma {:induction false} TokenIsPadded(t: string)
    ensures IsToken(t) <==> IsPadded(t)
    decreases |t|
  {
    if |t| > 4 {
      var u := t[4..];
      TokenIsPadded(u);
      assert forall i :: 4 <= i < |t| ==> t[i] == u[i - 4];
      if IsPadded(t) {
        assert IsFullGroup(t[..4]) by {
          assert forall i :: 0 <= i < 4 ==> t[..4][i] == t[i];
        }
        assert IsPadded(u) by {
          forall i | 0 <= i < |u|
            ensures IsAlphabetChar(u[i]) || (u[i] == Pad && (i == |u| - 1 || (i == |u| - 2 && u[|u| - 1] == Pad)))
          {
            assert u[i] == t[i + 4];
          }
        }
      }
      if IsToken(t) {
        assert IsPadded(t) by {
          forall i | 0 <= i < |t|
            ensures IsAlphabetChar(t[i]) || (t[i] == Pad && (i == |t| - 1 || (i == |t| - 2 && t[|t| - 1] == Pad)))
          {
            if i < 4 {
              assert t[i] == t[..4][i];
            } else {
              assert t[i] == u[i - 4];
            }
          }
        }
      }
    } else if |t| == 4 {
      assert forall i :: 0 <= i < 4 ==> t[..4][i] == t[i];
    }
  }

  /** The four characters of a whole group: the 24 bits of three bytes, six at a time. */
  function EncodeGroup(b0: byte, b1: byte, b2: byte): (g: string)
    ensures |g| == 4
  {
    [SextetChar(b0 / 4), SextetChar(b0 % 4 * 16 + b1 / 16),
     SextetChar(b1 % 16 * 4 + b2 / 64), SextetChar(b2 % 64)]
  }

  /** The standard encoding with padding, three bytes to a group of four characters. */
  function Encode(bytes: seq<byte>): (t: string)
    ensures |t| == 4 * ((|bytes| + 2) / 3)
    decreases |bytes|
  {
    if |bytes| == 0 then ""
    else if |bytes| == 1 then
      [SextetChar(bytes[0] / 4), SextetChar(bytes[0] % 4 * 16), Pad, Pad]
    else if |bytes| == 2 then
      [SextetChar(bytes[0] / 4), SextetChar(bytes[0] % 4 * 16 + bytes[1] / 16),
       SextetChar(bytes[1] % 16 * 4), Pad]
    else EncodeGroup(bytes[0], bytes[1], bytes[2]) + Encode(bytes[3..])
  }

  /**
    The byte that CryptoJS's `Base64.parse` forms from two adjacent characters of a group:
    the first from characters 0 and 1, the second from 1 and 2, the third from 2 and 3.
    Each is the low eight bits of the earlier sextet shifted left OR'd with the later one
    shifted right.
   */
  function FirstByte(a: char, b: char): byte {
    SextetValue(a) * 4 + SextetValue(b) / 16
  }

  function SecondByte(b: char, c: char): byte {
    SextetValue(b) * 16 % 256 + SextetValue(c) / 4
  }

  function ThirdByte(c: char, d: char): byte {
    SextetValue(c) * 64 % 256 + SextetValue(d)
  }

  /** The bytes of the characters before the padding: one per adjacent pair within a group. */
  function DecodeChars(s: string): (bytes: seq<byte>)
    ensures |bytes| == 3 * (|s| / 4) + (if |s| % 4 == 0 then 0 else |s| % 4 - 1)
    decreases |s|
  {
    if |s| < 2 then []
    else if |s| == 2 then [FirstByte(s[0], s[1])]
    else if |s| == 3 then [FirstByte(s[0], s[1]), SecondByte(s[1], s[2])]
    else [FirstByte(s[0], s[1]), SecondByte(s[1], s[2]), ThirdByte(s[2], s[3])] + DecodeChars(s[4..])
  }

  /** CryptoJS's `Base64.parse`: everything from the first `=` on is ignored. */
  function Decode(t: string): seq<byte> {
    DecodeChars(t[..Strings.IndexOf(t, Pad)])
  }

  /** Decoding reads only the characters before the first `=`: whatever follows it is ignored. */
  lemma {:induction false} DecodeStopsAtPad(s: string, rest: string)
    requires Pad !in s
    ensures Decode(s + [Pad] + rest) == Decode(s) == DecodeChars(s)
  {
    var t := s + [Pad] + rest;
    Strings.IndexOfSplit(s, Pad, rest);
    assert t[..Strings.IndexOf(t, Pad)] == s;
    Strings.IndexOfAbsent(s, Pad);
    assert s[..Strings.IndexOf(s, Pad)] == s;
  }

  /** The bits below the padding are dropped, so distinct tokens of the grammar decode to the same bytes. */
  lemma PaddingBitsIgnored()
    ensures IsToken("AB==") && IsToken("AA==")
    ensures Decode("AB==") == Decode("AA==") == [0]
  {
    assert "AB==" == "AB" + [Pad] + "=";
    assert "AA==" == "AA" + [Pad] + "=";
    DecodeStopsAtPad("AB", "=");
    DecodeStopsAtPad("AA", "=");
    TokenIsPadded("AB==");
    TokenIsPadded("AA==");
  }

  /** A group of three bytes encodes to four alphabet characters that decode back to those bytes. */
  lemma GroupRoundTrip(b0: byte, b1: byte, b2: byte)
    ensures var g := EncodeGroup(b0, b1, b2);
      && Pad !in g
      && FirstByte(g[0], g[1]) == b0
      && SecondByte(g[1], g[2]) == b1
      && ThirdByte(g[2], g[3]) == b2
  {
    var s1 := b0 % 4 * 16 + b1 / 16;
    var s2 := b1 % 16 * 4 + b2 / 64;
    assert s1 * 16 % 256 == b1 / 16 * 16;
    assert s2 * 64 % 256 == b2 / 64 * 64;
  }

  /** Decoding a whole group contributes its three bytes ahead of the rest. */
  lemma DecodeCharsGroup(g: string, s: string)
    requires |g| == 4
    ensures DecodeChars(g + s)
         == [FirstByte(g[0], g[1]), SecondByte(g[1], g[2]), ThirdByte(g[2], g[3])] + DecodeChars(s)
  {
    assert (g + s)[4..] == s;
  }

  /** One byte encodes to a group ending in `==` that decodes back to it. */
  lemma DecodeEncodeOne(b0: byte)
    ensures Decode(Encode([b0])) == [b0]
  {
    var c0, c1 := SextetChar(b0 / 4), SextetChar(b0 % 4 * 16);
    var t := [c0, c1, Pad, Pad];
    assert Encode([b0]) == t;
    Strings.IndexOfAt(t, Pad, 2);
    assert t[..2] == [c0, c1];
    GroupRoundTrip(b0, 0, 0);
  }

  /** Two bytes encode to a group ending in `=` that decodes back to them. */
  lemma DecodeEncodeTwo(b0: byte, b1: byte)
    ensures Decode(Encode([b0, b1])) == [b0, b1]
  {
    var c0, c1, c2 := SextetChar(b0 / 4), SextetChar(b0 % 4 * 16 + b1 / 16), SextetChar(b1 % 16 * 4);
    var t := [c0, c1, c2, Pad];
    assert Encode([b0, b1]) == t;
    Strings.IndexOfAt(t, Pad, 3);
    assert t[..3] == [c0, c1, c2];
    GroupRoundTrip(b0, b1, 0);
  }

  /** The first three elements of a sequence, as a display. */
  lemma FirstThree<T>(s: seq<T>)
    requires |s| >= 3
    ensures s[..3] == [s[0], s[1], s[2]]
  {
  }

  /** A string that starts with a group free of padding decodes to that group's three bytes, then the rest. */
  lemma DecodeAfterGroup(g: string, rest: string)
    requires |g| == 4 && Pad !in g
    ensures Decode(g + rest)
         == [FirstByte(g[0], g[1]), SecondByte(g[1], g[2]), ThirdByte(g[2], g[3])] + Decode(rest)
  {
    var k := Strings.IndexOf(rest, Pad);
    Strings.IndexOfAppend(g, rest, Pad);
    assert (g + rest)[..4 + k] == g + rest[..k];
    DecodeCharsGroup(g, rest[..k]);
  }

  /** Three or more bytes: the first group decodes to the first three bytes, ahead of the rest. */
  lemma DecodeEncodeGroup(bytes: seq<byte>)
    requires |bytes| >= 3
    ensures Decode(Encode(bytes)) == bytes[..3] + Decode(Encode(bytes[3..]))
  {
    var g := EncodeGroup(bytes[0], bytes[1], bytes[2]);
    assert Encode(bytes) == g + Encode(bytes[3..]);
    GroupRoundTrip(bytes[0], bytes[1], bytes[2]);
    DecodeAfterGroup(g, Encode(bytes[3..]));
    FirstThree(bytes);
  }

  /** Decoding inverts the encoding (CryptoJS's `Base64.parse` of `Base64.stringify`). */
  lemma {:induction false} DecodeEncode(bytes: seq<byte>)
    ensures Decode(Encode(bytes)) == bytes
    decreases |bytes|
  {
    if |bytes| == 0 {
      assert Encode(bytes) == "";
    } else if |bytes| == 1 {
      DecodeEncodeOne(bytes[0]);
      assert bytes == [bytes[0]];
    } else if |bytes| == 2 {
      DecodeEncodeTwo(bytes[0], bytes[1]);
      assert bytes == [bytes[0], bytes[1]];
    } else {
      DecodeEncodeGroup(bytes);
      DecodeEncode(bytes[3..]);
      assert bytes == bytes[..3] + bytes[3..];
    }
  }

  /** Every encoding is a token of the header grammar. */
  lemma {:induction false} EncodeIsToken(bytes: seq<byte>)
    ensures IsToken(Encode(bytes))
    decreases |bytes|
  {
    var t := Encode(bytes);
    if |bytes| == 1 || |bytes| == 2 {
      assert t[..4] == t;
    } else if |bytes| > 2 {
      EncodeIsToken(bytes[3..]);
      GroupRoundTrip(bytes[0], bytes[1], bytes[2]);
      assert t[..4] == EncodeGroup(bytes[0], bytes[1], bytes[2]);
      assert t[4..] == Encode(bytes[3..]);
    }
  }

  /** How many `=` characters end a token. */
  function PadCount(t: string): nat {
    |t| - Strings.IndexOf(t, Pad)
  }

  /** A token carries at most two padding characters and decodes to three bytes per group less one per `=`. */
  lemma DecodedLength(t: string)
    requires IsToken(t)
    ensures PadCount(t) <= 2
    ensures |Decode(t)| == 3 * (|t| / 4) - PadCount(t)
  {
    TokenIsPadded(t);
    var p := Strings.IndexOf(t, Pad);
    assert p == |t| || p == |t| - 1 || p == |t| - 2;
    assert |t[..p]| == p;
  }

  /** A token that decodes to the twenty bytes of an HMAC-SHA1 tag has 28 characters, the last of them the only `=`. */
  lemma TwentyByteToken(t: string)
    requires IsToken(t)
    requires |Decode(t)| == 20
    ensures |t| == 28 && PadCount(t) == 1
  {
    DecodedLength(t);
    TokenIsPadded(t);
  }
}
