/*
 * The share text format "<x>:<base64 of the share bytes>":
 * encode_share (src/sss_tool.py:207-219) and decode_share
 * (src/sss_tool.py:222-240).  The x-coordinate is written as a decimal
 * integer, the bytes in the base64 of section 4 of RFC 4648 (standard
 * alphabet, '=' padding).
 */
module ShareCodec {
  import opened Errors
  import opened GF256

  // ---------------------------------------------------------------------
  // Decimal integers
  // ---------------------------------------------------------------------

  predicate IsDigit(c: char)
  {
    '0' <= c <= '9'
  }

  predicate AllDigits(s: string)
  {
    forall i :: 0 <= i < |s| ==> IsDigit(s[i])
  }

  function DigitChar(d: int): (c: char)
    requires 0 <= d < 10
    ensures IsDigit(c) && c as int - '0' as int == d
  {
    ('0' as int + d) as char
  }

  /** The decimal digits of n, most significant first, without leading zeros. */
  function NatToDecimal(n: nat): (s: string)
    ensures |s| > 0 && AllDigits(s)
    decreases n
  {
    if n < 10 then [DigitChar(n)] else NatToDecimal(n / 10) + [DigitChar(n % 10)]
  }

  /** x as Python's str writes it: a '-' before the digits of a negative number. */
  function IntToDecimal(x: int): string
  {
    if x < 0 then ['-'] + NatToDecimal(-x) else NatToDecimal(x)
  }

  /** The value of a string of digits, read most significant first. */
  function DigitsValue(s: string): nat
    requires AllDigits(s)
  {
    if |s| == 0 then 0 else DigitsValue(s[..|s| - 1]) * 10 + (s[|s| - 1] as int - '0' as int)
  }

  /**
   * A decimal integer: an optional sign, then one or more digits; anything
   * else is an invalid coordinate.
   */
  function ParseInt(s: string): (r: Result<int>)
    ensures r.Err? ==> r == Err(ShareDecodeError(InvalidCoordinate))
    ensures |s| > 0 && AllDigits(s) ==> r == Ok(DigitsValue(s))
    ensures |s| > 1 && (s[0] == '-' || s[0] == '+') && AllDigits(s[1..]) ==>
      r == Ok(if s[0] == '-' then -(DigitsValue(s[1..]) as int) else DigitsValue(s[1..]))
    ensures r.Ok? ==>
      (|s| > 0 && AllDigits(s)) || (|s| > 1 && (s[0] == '-' || s[0] == '+') && AllDigits(s[1..]))
  {
    if |s| > 0 && (s[0] == '-' || s[0] == '+') then
      if |s| > 1 && AllDigits(s[1..]) then
        var magnitude: int := DigitsValue(s[1..]);
        Ok(if s[0] == '-' then -magnitude else magnitude)
      else Err(ShareDecodeError(InvalidCoordinate))
    else if |s| > 0 && AllDigits(s) then Ok(DigitsValue(s))
    else Err(ShareDecodeError(InvalidCoordinate))
  }

  /** Reading the digits of n gives back n. */
  lemma {:induction false} NatDecimalRoundTrip(n: nat)
    ensures DigitsValue(NatToDecimal(n)) == n
    decreases n
  {
    if n >= 10 {
      NatDecimalRoundTrip(n / 10);
      var s := NatToDecimal(n);
      assert s[..|s| - 1] == NatToDecimal(n / 10);
    }
  }

  /** Parsing the decimal text of x gives back x, for every integer x. */
  lemma IntDecimalRoundTrip(x: int)
    ensures ParseInt(IntToDecimal(x)) == Ok(x)
  {
    if x < 0 {
      NatDecimalRoundTrip(-x);
      assert IntToDecimal(x)[1..] == NatToDecimal(-x);
    } else {
      NatDecimalRoundTrip(x);
    }
  }

  // ---------------------------------------------------------------------
  // Base64 (section 4 of RFC 4648)
  // ---------------------------------------------------------------------

  /** The character for the 6-bit value i: A-Z, a-z, 0-9, '+', '/'. */
  function Alphabet(i: int): char
    requires 0 <= i < 64
  {
    if i < 26 then ('A' as int + i) as char
    else if i < 52 then ('a' as int + (i - 26)) as char
    else if i < 62 then ('0' as int + (i - 52)) as char
    else if i == 62 then '+'
    else '/'
  }

  /** The 6-bit value of an alphabet character, or -1 for any other character ('=' included). */
  function SextetOf(c: char): (v: int)
    ensures -1 <= v < 64
  {
    if 'A' <= c <= 'Z' then c as int - 'A' as int
    else if 'a' <= c <= 'z' then c as int - 'a' as int + 26
    else if '0' <= c <= '9' then c as int - '0' as int + 52
    else if c == '+' then 62
    else if c == '/' then 63
    else -1
  }

  /** SextetOf inverts the alphabet on 0..63, whose characters are neither ':' nor '='. */
  lemma AlphabetInverse(i: int)
    requires 0 <= i < 64
    ensures SextetOf(Alphabet(i)) == i
    ensures Alphabet(i) != ':' && Alphabet(i) != '='
  {
  }

  /** The alphabet inverts SextetOf on the characters it accepts: the alphabet is a bijection. */
  lemma SextetInverse(c: char)
    requires SextetOf(c) >= 0
    ensures Alphabet(SextetOf(c)) == c
  {
  }

  /** The four characters of three bytes: each carries six bits, most significant first. */
  function EncodeGroup(b0: bv8, b1: bv8, b2: bv8): (cs: seq<char>)
    ensures |cs| == 4
  {
    [Alphabet((b0 >> 2) as int),
     Alphabet((((b0 & 0x03) << 4) | (b1 >> 4)) as int),
     Alphabet((((b1 & 0x0F) << 2) | (b2 >> 6)) as int),
     Alphabet((b2 & 0x3F) as int)]
  }

  /**
   * The base64 text of b: a group of four characters per three bytes;
   * a last group of one or two bytes is filled with zero bits and padded
   * with '=' to four characters.
   */
  function Base64Encode(b: seq<bv8>): (s: string)
    ensures |s| == 4 * ((|b| + 2) / 3)
    decreases |b|
  {
    if |b| == 0 then []
    else if |b| == 1 then EncodeGroup(b[0], 0, 0)[..2] + ['=', '=']
    else if |b| == 2 then EncodeGroup(b[0], b[1], 0)[..3] + ['=']
    else EncodeGroup(b[0], b[1], b[2]) + Base64Encode(b[3..])
  }

  /** The byte with the 6-bit value of an alphabet character. */
  function SextetByte(c: char): bv8
    requires SextetOf(c) >= 0
  {
    ByteOf(SextetOf(c))
  }

  /** The three bytes whose 24 bits are the four 6-bit values, most significant first. */
  function Bytes(s0: bv8, s1: bv8, s2: bv8, s3: bv8): (b: seq<bv8>)
    ensures |b| == 3
  {
    [(s0 << 2) | (s1 >> 4), (s1 << 4) | (s2 >> 2), (s2 << 6) | s3]
  }

  /** A group of four alphabet characters, not the last one: no padding allowed. */
  function DecodeGroup(c0: char, c1: char, c2: char, c3: char): Result<seq<bv8>>
  {
    if SextetOf(c0) < 0 || SextetOf(c1) < 0 || SextetOf(c2) < 0 || SextetOf(c3) < 0 then
      Err(ShareDecodeError(InvalidBase64))
    else Ok(Bytes(SextetByte(c0), SextetByte(c1), SextetByte(c2), SextetByte(c3)))
  }

  /**
   * The last group: "xx==" holds one byte, "xxx=" two, "xxxx" three; the
   * bits past the last byte are ignored.
   */
  function DecodeLastGroup(c0: char, c1: char, c2: char, c3: char): Result<seq<bv8>>
  {
    if SextetOf(c0) < 0 || SextetOf(c1) < 0 then Err(ShareDecodeError(InvalidBase64))
    else if c2 == '=' && c3 == '=' then Ok(Bytes(SextetByte(c0), SextetByte(c1), 0, 0)[..1])
    else if SextetOf(c2) < 0 then Err(ShareDecodeError(InvalidBase64))
    else if c3 == '=' then Ok(Bytes(SextetByte(c0), SextetByte(c1), SextetByte(c2), 0)[..2])
    else if SextetOf(c3) < 0 then Err(ShareDecodeError(InvalidBase64))
    else Ok(Bytes(SextetByte(c0), SextetByte(c1), SextetByte(c2), SextetByte(c3)))
  }

  /**
   * The bytes of a base64 text: whole groups of four characters, padding
   * only in the last group, nothing but alphabet characters elsewhere.
   */
  function Base64Decode(s: string): (r: Result<seq<bv8>>)
    ensures r.Err? ==> r == Err(ShareDecodeError(InvalidBase64))
    decreases |s|
  {
    if |s| == 0 then Ok([])
    else if |s| < 4 then Err(ShareDecodeError(InvalidBase64))
    else if |s| == 4 then DecodeLastGroup(s[0], s[1], s[2], s[3])
    else
      match DecodeGroup(s[0], s[1], s[2], s[3])
      case Err(e) => Err(e)
      case Ok(head) =>
        match Base64Decode(s[4..])
        case Err(e) => Err(e)
        case Ok(tail) => Ok(head + tail)
  }

  /** Base64 text holds no ':', so a ':' after the coordinate is the first one. */
  lemma {:induction false} Base64NoColon(b: seq<bv8>)
    ensures forall i :: 0 <= i < |Base64Encode(b)| ==> Base64Encode(b)[i] != ':'
    decreases |b|
  {
    if |b| > 0 {
      GroupCharacters(b[0], if |b| > 1 then b[1] else 0, if |b| > 2 then b[2] else 0);
      if |b| > 2 {
        Base64NoColon(b[3..]);
      }
    }
  }

  /** A 6-bit value survives the trip through its character, which is neither ':' nor '='. */
  lemma SextetRoundTrip(e: bv8)
    requires e < 64
    ensures e as int < 64
    ensures SextetOf(Alphabet(e as int)) == e as int && SextetByte(Alphabet(e as int)) == e
    ensures Alphabet(e as int) != ':' && Alphabet(e as int) != '='
  {
    AlphabetInverse(e as int);
    ByteOfInverse(e);
  }

  /** The four values a group is cut into each fit in six bits. */
  lemma GroupBounds(b0: bv8, b1: bv8, b2: bv8)
    ensures b0 >> 2 < 64
    ensures ((b0 & 0x03) << 4) | (b1 >> 4) < 64
    ensures ((b1 & 0x0F) << 2) | (b2 >> 6) < 64
    ensures b2 & 0x3F < 64
  {
  }

  /** Every character of a group is an alphabet character, so neither ':' nor '='. */
  lemma GroupCharacters(b0: bv8, b1: bv8, b2: bv8)
    ensures forall i :: 0 <= i < 4 ==>
      SextetOf(EncodeGroup(b0, b1, b2)[i]) >= 0 &&
      EncodeGroup(b0, b1, b2)[i] != ':' && EncodeGroup(b0, b1, b2)[i] != '='
  {
    GroupSextets(b0, b1, b2);
  }

  /** The 6-bit values a group's characters stand for are the ones it was built from. */
  lemma GroupSextets(b0: bv8, b1: bv8, b2: bv8)
    ensures forall i :: 0 <= i < 4 ==>
      SextetOf(EncodeGroup(b0, b1, b2)[i]) >= 0 &&
      EncodeGroup(b0, b1, b2)[i] != ':' && EncodeGroup(b0, b1, b2)[i] != '='
    ensures SextetByte(EncodeGroup(b0, b1, b2)[0]) == b0 >> 2
    ensures SextetByte(EncodeGroup(b0, b1, b2)[1]) == ((b0 & 0x03) << 4) | (b1 >> 4)
    ensures SextetByte(EncodeGroup(b0, b1, b2)[2]) == ((b1 & 0x0F) << 2) | (b2 >> 6)
    ensures SextetByte(EncodeGroup(b0, b1, b2)[3]) == b2 & 0x3F
  {
    GroupBounds(b0, b1, b2);
    SextetRoundTrip(b0 >> 2);
    SextetRoundTrip(((b0 & 0x03) << 4) | (b1 >> 4));
    SextetRoundTrip(((b1 & 0x0F) << 2) | (b2 >> 6));
    SextetRoundTrip(b2 & 0x3F);
  }

  /** Regrouping the 24 bits of three bytes into four 6-bit values and back gives the bytes. */
  lemma BitsRoundTrip(b0: bv8, b1: bv8, b2: bv8)
    ensures Bytes(b0 >> 2, ((b0 & 0x03) << 4) | (b1 >> 4), ((b1 & 0x0F) << 2) | (b2 >> 6), b2 & 0x3F) == [b0, b1, b2]
  {
    assert ((b0 >> 2) << 2) | ((((b0 & 0x03) << 4) | (b1 >> 4)) >> 4) == b0;
    assert ((((b0 & 0x03) << 4) | (b1 >> 4)) << 4) | ((((b1 & 0x0F) << 2) | (b2 >> 6)) >> 2) == b1;
    assert ((((b1 & 0x0F) << 2) | (b2 >> 6)) << 6) | (b2 & 0x3F) == b2;
  }

  /** A group of three bytes decodes back to them. */
  lemma GroupRoundTrip(b0: bv8, b1: bv8, b2: bv8)
    ensures DecodeGroup(EncodeGroup(b0, b1, b2)[0], EncodeGroup(b0, b1, b2)[1],
                        EncodeGroup(b0, b1, b2)[2], EncodeGroup(b0, b1, b2)[3]) == Ok([b0, b1, b2])
    ensures DecodeLastGroup(EncodeGroup(b0, b1, b2)[0], EncodeGroup(b0, b1, b2)[1],
                            EncodeGroup(b0, b1, b2)[2], EncodeGroup(b0, b1, b2)[3]) == Ok([b0, b1, b2])
  {
    GroupSextets(b0, b1, b2);
    BitsRoundTrip(b0, b1, b2);
  }

  /** A last group of two bytes, "xxx=", decodes back to them. */
  lemma PairRoundTrip(b0: bv8, b1: bv8)
    ensures DecodeLastGroup(EncodeGroup(b0, b1, 0)[0], EncodeGroup(b0, b1, 0)[1], EncodeGroup(b0, b1, 0)[2], '=')
      == Ok([b0, b1])
  {
    var g := EncodeGroup(b0, b1, 0);
    GroupSextets(b0, b1, 0);
    assert SextetOf(g[0]) >= 0 && SextetOf(g[1]) >= 0 && SextetOf(g[2]) >= 0 && g[2] != '=';
    BitsRoundTrip(b0, b1, 0);
    var full := Bytes(SextetByte(g[0]), SextetByte(g[1]), SextetByte(g[2]), 0);
    assert full == [b0, b1, 0];
    assert full[..2] == [b0, b1];
  }

  /** A last group of one byte, "xx==", decodes back to it. */
  lemma SingleRoundTrip(b0: bv8)
    ensures DecodeLastGroup(EncodeGroup(b0, 0, 0)[0], EncodeGroup(b0, 0, 0)[1], '=', '=') == Ok([b0])
  {
    var g := EncodeGroup(b0, 0, 0);
    GroupSextets(b0, 0, 0);
    assert SextetOf(g[0]) >= 0 && SextetOf(g[1]) >= 0;
    BitsRoundTrip(b0, 0, 0);
    var full := Bytes(SextetByte(g[0]), SextetByte(g[1]), 0, 0);
    assert full[0] == b0;
    assert full[..1] == [b0];
  }

  /** One byte encodes to "xx==" and decodes back. */
  lemma OneByteRoundTrip(b: seq<bv8>)
    requires |b| == 1
    ensures Base64Decode(Base64Encode(b)) == Ok(b)
  {
    var g := EncodeGroup(b[0], 0, 0);
    SingleRoundTrip(b[0]);
    assert Base64Encode(b) == [g[0], g[1], '=', '='];
    assert b == [b[0]];
  }

  /** Two bytes encode to "xxx=" and decode back. */
  lemma TwoBytesRoundTrip(b: seq<bv8>)
    requires |b| == 2
    ensures Base64Decode(Base64Encode(b)) == Ok(b)
  {
    var g := EncodeGroup(b[0], b[1], 0);
    PairRoundTrip(b[0], b[1]);
    assert Base64Encode(b) == [g[0], g[1], g[2], '='];
    assert b == [b[0], b[1]];
  }

  /** Three bytes encode to one unpadded group and decode back. */
  lemma ThreeBytesRoundTrip(b: seq<bv8>)
    requires |b| == 3
    ensures Base64Decode(Base64Encode(b)) == Ok(b)
  {
    var g := EncodeGroup(b[0], b[1], b[2]);
    GroupRoundTrip(b[0], b[1], b[2]);
    assert b[3..] == [];
    assert Base64Encode(b) == [g[0], g[1], g[2], g[3]];
    assert b == [b[0], b[1], b[2]];
  }

  /** Decoding the base64 text of any bytes gives back those bytes. */
  lemma {:induction false} Base64RoundTrip(b: seq<bv8>)
    ensures Base64Decode(Base64Encode(b)) == Ok(b)
    decreases |b|
  {
    if |b| == 1 {
      OneByteRoundTrip(b);
    } else if |b| == 2 {
      TwoBytesRoundTrip(b);
    } else if |b| == 3 {
      ThreeBytesRoundTrip(b);
    } else if |b| > 3 {
      var s := Base64Encode(b);
      GroupRoundTrip(b[0], b[1], b[2]);
      Base64RoundTrip(b[3..]);
      assert s[4..] == Base64Encode(b[3..]);
      assert b == [b[0], b[1], b[2]] + b[3..];
    }
  }

  /** Only whole groups of four decode, each holding one to three bytes. */
  lemma {:induction false} Base64DecodeLength(s: string)
    requires Base64Decode(s).Ok?
    ensures |s| % 4 == 0
    ensures 3 * (|s| / 4) - 2 <= |Base64Decode(s).value| <= 3 * (|s| / 4) || |s| == 0
    ensures |s| == 0 ==> Base64Decode(s).value == []
    decreases |s|
  {
    if |s| > 4 {
      Base64DecodeLength(s[4..]);
    }
  }

  // ---------------------------------------------------------------------
  // encode_share / decode_share
  // ---------------------------------------------------------------------

  /** The position of the first ':' in s, or |s| when there is none. */
  function FirstColon(s: string): (i: nat)
    ensures i <= |s|
    ensures i < |s| ==> s[i] == ':'
    ensures forall j :: 0 <= j < i ==> s[j] != ':'
  {
    if |s| == 0 then 0
    else if s[0] == ':' then 0
    else 1 + FirstColon(s[1..])
  }

  /** No ':' in the decimal text of an integer. */
  lemma DecimalNoColon(x: int)
    ensures forall j :: 0 <= j < |IntToDecimal(x)| ==> IntToDecimal(x)[j] != ':'
  {
    var digits := if x < 0 then NatToDecimal(-x) else NatToDecimal(x);
    assert forall j :: 0 <= j < |digits| ==> IsDigit(digits[j]);
  }

  /** The first ':' of d + ":" + t, where d has none, is the one after d. */
  lemma SeparatorIsFirstColon(d: string, t: string)
    requires forall j :: 0 <= j < |d| ==> d[j] != ':'
    ensures FirstColon(d + [':'] + t) == |d|
  {
    var s := d + [':'] + t;
    assert forall j :: 0 <= j < |d| ==> s[j] == d[j];
    assert s[|d|] == ':';
  }

  /**
   * encode_share: the decimal x-coordinate, a ':', and the base64 of the
   * share's bytes; the separator is the text's first ':'.
   */
  function EncodeShare(x: int, bytes: seq<bv8>): (s: string)
    ensures FirstColon(s) == |IntToDecimal(x)|
    ensures |s| == |IntToDecimal(x)| + 1 + 4 * ((|bytes| + 2) / 3)
  {
    DecimalNoColon(x);
    SeparatorIsFirstColon(IntToDecimal(x), Base64Encode(bytes));
    IntToDecimal(x) + [':'] + Base64Encode(bytes)
  }

  /**
   * decode_share: split at the first ':', read the left part as a decimal
   * integer and the right part as base64; every failure is reported as a
   * share decoding error with its cause.
   */
  function DecodeShare(encoded: string): (r: Result<(int, seq<bv8>)>)
    ensures r.Err? ==> r.error.ShareDecodeError?
    ensures r.Ok? ==> FirstColon(encoded) < |encoded|
  {
    var i := FirstColon(encoded);
    if i == |encoded| then Err(ShareDecodeError(MissingSeparator))
    else
      match ParseInt(encoded[..i])
      case Err(e) => Err(e)
      case Ok(x) =>
        match Base64Decode(encoded[i + 1..])
        case Err(e) => Err(e)
        case Ok(bytes) => Ok((x, bytes))
  }

  /** Decoding an encoded share gives back its x-coordinate and its bytes. */
  lemma ShareRoundTrip(x: int, bytes: seq<bv8>)
    ensures DecodeShare(EncodeShare(x, bytes)) == Ok((x, bytes))
  {
    var d := IntToDecimal(x);
    var s := EncodeShare(x, bytes);
    assert s[..|d|] == d;
    assert s[|d| + 1..] == Base64Encode(bytes);
    IntDecimalRoundTrip(x);
    Base64RoundTrip(bytes);
  }

  /** A string fails for want of a separator exactly when it contains no ':'. */
  lemma MissingSeparatorFails(encoded: string)
    ensures DecodeShare(encoded) == Err(ShareDecodeError(MissingSeparator)) <==>
      forall j :: 0 <= j < |encoded| ==> encoded[j] != ':'
  {
  }

  // ---------------------------------------------------------------------
  // The test vectors of section 10 of RFC 4648
  // ---------------------------------------------------------------------

  /** "f", "fo", "foo" and "foobar" encode as in the standard. */
  lemma Base64Vectors()
    ensures Base64Encode([]) == ""
    ensures Base64Encode([0x66]) == "Zg=="
    ensures Base64Encode([0x66, 0x6F]) == "Zm8="
    ensures Base64Encode([0x66, 0x6F, 0x6F]) == "Zm9v"
    ensures Base64Encode([0x66, 0x6F, 0x6F, 0x62, 0x61, 0x72]) == "Zm9vYmFy"
  {
    var foobar: seq<bv8> := [0x66, 0x6F, 0x6F, 0x62, 0x61, 0x72];
    assert foobar[3..] == [0x62, 0x61, 0x72];
  }
}
