/**
 * The Base64 token of a split: `java.util.Base64.getEncoder()` (RFC 4648
 * section 4, standard alphabet, padded with '=') and the lenient decoding of
 * `java.util.Base64.getDecoder()`, which also accepts an unpadded final unit
 * of two or three characters and ignores the unused low bits of that unit.
 */
module Base64 {
  import opened Common

  /** An unsigned byte, as the encoder reads `b & 0xff`. */
  type Octet = x: int | 0 <= x < 256

  /** One Base64 digit. */
  type Sextet = x: int | 0 <= x < 64

  /** The RFC 4648 table 1 character of a digit. */
  function CharOf(i: Sextet): (c: char)
    ensures c != '='
  {
    if i < 26 then (65 + i) as char
    else if i < 52 then (97 + i - 26) as char
    else if i < 62 then (48 + i - 52) as char
    else if i == 62 then '+'
    else '/'
  }

  /** The digit a character stands for, or None outside the alphabet (including '='). */
  function IndexOf(c: char): (r: Option<Sextet>)
    ensures r.Some? ==> CharOf(r.value) == c
  {
    if 'A' <= c <= 'Z' then Some(c as int - 65)
    else if 'a' <= c <= 'z' then Some(c as int - 97 + 26)
    else if '0' <= c <= '9' then Some(c as int - 48 + 52)
    else if c == '+' then Some(62)
    else if c == '/' then Some(63)
    else None
  }

  lemma IndexOfCharOf(i: Sextet)
    ensures IndexOf(CharOf(i)) == Some(i)
  {
  }

  /** Three octets as four digits: 24 bits read most significant first. */
  function EncodeUnit(b0: Octet, b1: Octet, b2: Octet): (s: string)
    ensures |s| == 4
  {
    [CharOf(b0 / 4), CharOf((b0 % 4) * 16 + b1 / 16), CharOf((b1 % 16) * 4 + b2 / 64), CharOf(b2 % 64)]
  }

  /** `Base64.getEncoder().encodeToString(bytes)`. */
  function Encode(bytes: seq<Octet>): (s: string)
    ensures |s| == 4 * ((|bytes| + 2) / 3)
    ensures forall k :: 0 <= k < |s| && s[k] == '=' ==> |s| - 2 <= k
  {
    if |bytes| == 0 then []
    else if |bytes| == 1 then
      [CharOf(bytes[0] / 4), CharOf((bytes[0] % 4) * 16), '=', '=']
    else if |bytes| == 2 then
      [CharOf(bytes[0] / 4), CharOf((bytes[0] % 4) * 16 + bytes[1] / 16), CharOf((bytes[1] % 16) * 4), '=']
    else
      EncodeUnit(bytes[0], bytes[1], bytes[2]) + Encode(bytes[3..])
  }

  function Octet0(c0: Sextet, c1: Sextet): Octet { c0 * 4 + c1 / 16 }
  function Octet1(c1: Sextet, c2: Sextet): Octet { (c1 % 16) * 16 + c2 / 4 }
  function Octet2(c2: Sextet, c3: Sextet): Octet { (c2 % 4) * 64 + c3 }

  /**
   * `Base64.getDecoder().decode(s)`; None is the IllegalArgumentException it
   * throws: a character outside the alphabet, a final unit of one character,
   * a single '=' after two digits, or anything after the padding.
   */
  function Decode(s: string): (r: Option<seq<Octet>>)
    decreases |s|, 1
  {
    if |s| == 0 then Some([]) else DecodeUnits(s)
  }

  /** The first unit of a non-empty text, then the units after it. */
  function DecodeUnits(s: string): (r: Option<seq<Octet>>)
    requires |s| > 0
    decreases |s|, 0
  {
    if |s| == 1 then None
    else
      match (IndexOf(s[0]), IndexOf(s[1]))
      case (Some(c0), Some(c1)) =>
        if |s| == 2 then Some([Octet0(c0, c1)])
        else if s[2] == '=' then
          if |s| == 4 && s[3] == '=' then Some([Octet0(c0, c1)]) else None
        else
          (match IndexOf(s[2])
           case None => None
           case Some(c2) =>
             if |s| == 3 then Some([Octet0(c0, c1), Octet1(c1, c2)])
             else if s[3] == '=' then
               if |s| == 4 then Some([Octet0(c0, c1), Octet1(c1, c2)]) else None
             else
               (match (IndexOf(s[3]), Decode(s[4..]))
                case (Some(c3), Some(rest)) => Some([Octet0(c0, c1), Octet1(c1, c2), Octet2(c2, c3)] + rest)
                case _ => None))
      case _ => None
  }

  lemma DivMod16(a: int, x: int)
    requires 0 <= x < 16
    ensures (a * 16 + x) / 16 == a && (a * 16 + x) % 16 == x
  {
  }

  lemma DivMod4(a: int, x: int)
    requires 0 <= x < 4
    ensures (a * 4 + x) / 4 == a && (a * 4 + x) % 4 == x
  {
  }

  /** Splitting three octets into digits and joining them back is the identity. */
  lemma UnitRoundTrip(b0: Octet, b1: Octet, b2: Octet)
    ensures Octet0(b0 / 4, (b0 % 4) * 16 + b1 / 16) == b0
    ensures Octet1((b0 % 4) * 16 + b1 / 16, (b1 % 16) * 4 + b2 / 64) == b1
    ensures Octet2((b1 % 16) * 4 + b2 / 64, b2 % 64) == b2
  {
    DivMod16(b0 % 4, b1 / 16);
    DivMod4(b1 % 16, b2 / 64);
  }

  /** A full unit in front of any text decodes to its three octets in front of that text's decoding. */
  lemma DecodeUnitThen(b0: Octet, b1: Octet, b2: Octet, rest: string)
    ensures Decode(EncodeUnit(b0, b1, b2) + rest) ==
      match Decode(rest)
      case Some(r) => Some([b0, b1, b2] + r)
      case None => None
  {
    var s := EncodeUnit(b0, b1, b2) + rest;
    assert s[4..] == rest;
    IndexOfCharOf(b0 / 4);
    IndexOfCharOf((b0 % 4) * 16 + b1 / 16);
    IndexOfCharOf((b1 % 16) * 4 + b2 / 64);
    IndexOfCharOf(b2 % 64);
    UnitRoundTrip(b0, b1, b2);
  }

  /** The padded final unit of one or two octets decodes to those octets. */
  lemma DecodeFinalUnit(b0: Octet, b1: Octet, two: bool)
    requires !two ==> b1 == 0
    ensures !two ==> Decode([CharOf(b0 / 4), CharOf((b0 % 4) * 16), '=', '=']) == Some([b0])
    ensures two ==> Decode([CharOf(b0 / 4), CharOf((b0 % 4) * 16 + b1 / 16), CharOf((b1 % 16) * 4), '=']) == Some([b0, b1])
  {
    var c0, c1, c2 := b0 / 4, (b0 % 4) * 16 + b1 / 16, (b1 % 16) * 4;
    IndexOfCharOf(c0);
    IndexOfCharOf(c1);
    IndexOfCharOf(c2);
    UnitRoundTrip(b0, b1, 0);
    if two {
      var s := [CharOf(c0), CharOf(c1), CharOf(c2), '='];
      assert s[2] != '=' && s[3] == '=' && |s| == 4;
    } else {
      var s := [CharOf(c0), CharOf(c1), '=', '='];
      assert s[2] == '=' && s[3] == '=' && |s| == 4;
    }
  }

  /** The round trip for one byte: one unit padded with two '='. */
  lemma DecodeEncodeOne(bytes: seq<Octet>)
    requires |bytes| == 1
    ensures Decode(Encode(bytes)) == Some(bytes)
  {
    DecodeFinalUnit(bytes[0], 0, false);
    assert bytes == [bytes[0]];
  }

  /** The round trip for two bytes: one unit padded with one '='. */
  lemma DecodeEncodeTwo(bytes: seq<Octet>)
    requires |bytes| == 2
    ensures Decode(Encode(bytes)) == Some(bytes)
  {
    DecodeFinalUnit(bytes[0], bytes[1], true);
    assert bytes == [bytes[0], bytes[1]];
  }

  /** Decoding what the encoder produced gives back exactly the encoded bytes. */
  lemma {:induction false} DecodeEncode(bytes: seq<Octet>)
    ensures Decode(Encode(bytes)) == Some(bytes)
    decreases |bytes|
  {
    if |bytes| == 1 {
      DecodeEncodeOne(bytes);
    } else if |bytes| == 2 {
      DecodeEncodeTwo(bytes);
    } else if |bytes| >= 3 {
      assert Encode(bytes) == EncodeUnit(bytes[0], bytes[1], bytes[2]) + Encode(bytes[3..]);
      DecodeEncode(bytes[3..]);
      DecodeUnitThen(bytes[0], bytes[1], bytes[2], Encode(bytes[3..]));
      assert bytes == [bytes[0], bytes[1], bytes[2]] + bytes[3..];
    }
  }

  /** A string the encoder can produce: groups of four digits, the last one possibly padded. */
  lemma EncodedOutputIsCanonical(bytes: seq<Octet>)
    ensures |Encode(bytes)| % 4 == 0
    ensures |bytes| % 3 == 0 ==> forall k :: 0 <= k < |Encode(bytes)| ==> IndexOf(Encode(bytes)[k]).Some?
  {
    var units := (|bytes| + 2) / 3;
    assert |Encode(bytes)| == units * 4;
    DivMod4(units, 0);
    EncodedAlphabet(bytes);
  }

  /** The four digits of a unit are all in the alphabet. */
  lemma UnitAlphabet(b0: Octet, b1: Octet, b2: Octet)
    ensures forall k :: 0 <= k < 4 ==> IndexOf(EncodeUnit(b0, b1, b2)[k]).Some?
  {
    IndexOfCharOf(b0 / 4);
    IndexOfCharOf((b0 % 4) * 16 + b1 / 16);
    IndexOfCharOf((b1 % 16) * 4 + b2 / 64);
    IndexOfCharOf(b2 % 64);
  }

  lemma {:induction false} EncodedAlphabet(bytes: seq<Octet>)
    ensures |bytes| % 3 == 0 ==> forall k :: 0 <= k < |Encode(bytes)| ==> IndexOf(Encode(bytes)[k]).Some?
    decreases |bytes|
  {
    if |bytes| >= 3 && |bytes| % 3 == 0 {
      EncodedAlphabet(bytes[3..]);
      var u := EncodeUnit(bytes[0], bytes[1], bytes[2]);
      var rest := Encode(bytes[3..]);
      assert Encode(bytes) == u + rest;
      UnitAlphabet(bytes[0], bytes[1], bytes[2]);
      forall k | 0 <= k < |u + rest|
        ensures IndexOf((u + rest)[k]).Some?
      {
        if k >= 4 {
          assert (u + rest)[k] == rest[k - 4];
        }
      }
    }
  }
}
