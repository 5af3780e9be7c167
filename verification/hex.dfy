/**
  Lower-case hexadecimal rendering of bytes: what Node's `digest('hex')` and
  CryptoJS's `WordArray.toString()` produce, two digits per byte, high nibble first.
 */
module Hex {
  import opened Wrappers

  /** One octet of a digest, a MAC or a decoded signature. */
  type byte = x: int | 0 <= x < 256

  /** A half-octet, the value of one hexadecimal digit. */
  type nibble = x: int | 0 <= x < 16

  /** The sixteen digits the rendering uses: `0`-`9` and lower-case `a`-`f`. */
  predicate IsDigit(c: char) {
    '0' <= c <= '9' || 'a' <= c <= 'f'
  }

  /** The value of a lower-case hexadecimal digit, and nothing for any other character. */
  function DigitValue(c: char): (r: Option<nibble>)
    ensures r.Some? <==> IsDigit(c)
  {
    if '0' <= c <= '9' then Some(c as int - '0' as int)
    else if 'a' <= c <= 'f' then Some(c as int - 'a' as int + 10)
    else None
  }

  /** The digit that stands for a nibble. */
  function DigitChar(n: nibble): (c: char)
    ensures IsDigit(c)
    ensures DigitValue(c) == Some(n)
  {
    if n < 10 then ('0' as int + n) as char
    else ('a' as int + n - 10) as char
  }

  /** Every digit is the rendering of its own value. */
  lemma DigitCharOfValue(c: char)
    requires IsDigit(c)
    ensures DigitChar(DigitValue(c).value) == c
  {
  }

  /** The hexadecimal rendering of a byte sequence. */
  function Encode(bytes: seq<byte>): (s: string)
    ensures |s| == 2 * |bytes|
    ensures forall i :: 0 <= i < |s| ==> IsDigit(s[i])
    decreases |bytes|
  {
    if |bytes| == 0 then []
    else [DigitChar(bytes[0] / 16), DigitChar(bytes[0] % 16)] + Encode(bytes[1..])
  }

  /** The byte a pair of digits spells, high nibble first. */
  function PairValue(hi: char, lo: char): byte
    requires IsDigit(hi) && IsDigit(lo)
  {
    DigitValue(hi).value * 16 + DigitValue(lo).value
  }

  /** Reads an even-length run of lower-case digit pairs back into bytes. */
  function Decode(s: string): (r: Option<seq<byte>>)
    ensures r.Some? ==> 2 * |r.value| == |s|
    decreases |s|
  {
    if |s| == 0 then Some([])
    else if |s| == 1 || !IsDigit(s[0]) || !IsDigit(s[1]) then None
    else
      match Decode(s[2..])
      case None => None
      case Some(rest) => Some([PairValue(s[0], s[1])] + rest)
  }

  /** The rendering of a byte followed by more bytes. */
  lemma EncodeCons(b: byte, rest: seq<byte>)
    ensures Encode([b] + rest) == [DigitChar(b / 16), DigitChar(b % 16)] + Encode(rest)
  {
    assert ([b] + rest)[1..] == rest;
  }

  /** The digits of the byte a pair spells are that pair. */
  lemma ByteOfPair(hi: char, lo: char)
    requires IsDigit(hi) && IsDigit(lo)
    ensures DigitChar(PairValue(hi, lo) / 16) == hi
    ensures DigitChar(PairValue(hi, lo) % 16) == lo
  {
    DigitCharOfValue(hi);
    DigitCharOfValue(lo);
  }

  /** Decoding inverts the rendering. */
  lemma {:induction false} DecodeEncode(bytes: seq<byte>)
    ensures Decode(Encode(bytes)) == Some(bytes)
    decreases |bytes|
  {
    if |bytes| > 0 {
      var s := Encode(bytes);
      assert s[2..] == Encode(bytes[1..]);
      DecodeEncode(bytes[1..]);
      assert bytes == [bytes[0]] + bytes[1..];
    }
  }

  /** The rendering inverts decoding: the only accepted spelling of a byte sequence is its rendering. */
  lemma {:induction false} EncodeDecode(s: string)
    requires Decode(s).Some?
    ensures Encode(Decode(s).value) == s
    decreases |s|
  {
    if |s| >= 2 {
      var b := PairValue(s[0], s[1]);
      var rest := Decode(s[2..]).value;
      assert Decode(s).value == [b] + rest;
      assert Encode([b] + rest) == [s[0], s[1]] + Encode(rest) by {
        EncodeCons(b, rest);
        ByteOfPair(s[0], s[1]);
      }
      assert Encode(rest) == s[2..] by {
        EncodeDecode(s[2..]);
      }
      assert s == [s[0], s[1]] + s[2..];
    } else {
      assert s == [];
    }
  }

  /** Decoding accepts exactly the even-length strings of lower-case digits. */
  lemma {:induction false} DecodeDefined(s: string)
    ensures Decode(s).Some? <==> |s| % 2 == 0 && forall i :: 0 <= i < |s| ==> IsDigit(s[i])
    decreases |s|
  {
    if |s| >= 2 {
      DecodeDefined(s[2..]);
      assert forall i :: 2 <= i < |s| ==> s[i] == s[2..][i - 2];
    }
  }

  /** Distinct byte sequences render differently, so comparing renderings compares bytes. */
  lemma EncodeInjective(a: seq<byte>, b: seq<byte>)
    ensures Encode(a) == Encode(b) <==> a == b
  {
    DecodeEncode(a);
    DecodeEncode(b);
  }

  /** A string decodes to a byte sequence exactly when it is that sequence's rendering. */
  lemma DecodeIffEncode(s: string, bytes: seq<byte>)
    ensures Decode(s) == Some(bytes) <==> s == Encode(bytes)
  {
    DecodeEncode(bytes);
    if Decode(s) == Some(bytes) {
      EncodeDecode(s);
    }
  }
}
