/** UTF-8 as section 3 of RFC 3629 lays it out, read back. */
module Utf8Reader {
  import opened Octets
  import opened JsonSyntax

  datatype Char = Char(codePoint: nat, rest: Bytes) | Malformed

  predicate Follows(b: Byte) {
    0x80 <= b < 0xC0
  }

  /** The first code point of a text: only shortest forms, up to 0x10FFFF. */
  function FirstChar(s: Bytes): Char {
    if s == [] then Malformed
    else if s[0] < 0x80 then Char(s[0], s[1..])
    else if 0xC0 <= s[0] < 0xE0 && |s| >= 2 && Follows(s[1]) then
      Shortest(0x80, (s[0] - 0xC0) as int * 64 + (s[1] - 0x80) as int, s[2..])
    else if 0xE0 <= s[0] < 0xF0 && |s| >= 3 && Follows(s[1]) && Follows(s[2]) then
      Shortest(0x800, ((s[0] - 0xE0) as int * 64 + (s[1] - 0x80) as int) * 64 + (s[2] - 0x80) as int, s[3..])
    else if 0xF0 <= s[0] < 0xF8 && |s| >= 4 && Follows(s[1]) && Follows(s[2]) && Follows(s[3]) then
      Shortest(0x10000,
        (((s[0] - 0xF0) as int * 64 + (s[1] - 0x80) as int) * 64 + (s[2] - 0x80) as int) * 64 + (s[3] - 0x80) as int,
         s[4..])
    else Malformed
  }

  function Shortest(least: nat, cp: nat, rest: Bytes): Char {
    if least <= cp <= 0x10FFFF then Char(cp, rest) else Malformed
  }

  lemma ShortReadsBack(cp: nat, r: Bytes)
    requires cp <= 0x7FF
    ensures FirstChar(Utf8(cp) + r) == Char(cp, r)
  {
    assert (Utf8(cp) + r)[|Utf8(cp)|..] == r;
  }

  lemma ThreeReadBack(cp: nat, r: Bytes)
    requires 0x7FF < cp <= 0xFFFF
    ensures FirstChar(Utf8(cp) + r) == Char(cp, r)
  {
    assert (Utf8(cp) + r)[3..] == r;
    assert cp == cp / 4096 * 4096 + cp / 64 % 64 * 64 + cp % 64;
  }

  lemma Quotients(n: nat)
    ensures n / 4096 == n / 64 / 64 && n / 262144 == n / 64 / 64 / 64
  {
    var a, b := n / 64, n / 64 / 64;
    assert n == b * 4096 + (a % 64 * 64 + n % 64);
    assert n == b / 64 * 262144 + (b % 64 * 4096 + a % 64 * 64 + n % 64);
  }

  /** Three digits to base 64 and what is above them. */
  lemma Base64(n: nat)
    ensures n == n / 262144 * 262144 + n / 4096 % 64 * 4096 + n / 64 % 64 * 64 + n % 64
  {
    Quotients(n);
  }

  lemma FourReadBack(cp: nat, r: Bytes)
    requires 0xFFFF < cp <= 0x10FFFF
    ensures FirstChar(Utf8(cp) + r) == Char(cp, r)
  {
    assert (Utf8(cp) + r)[4..] == r;
    Base64(cp);
  }

  /** Every code point the reader writes into the pool reads back as itself, whatever follows it. */
  lemma Utf8ReadsBack(cp: nat, r: Bytes)
    requires cp <= 0x10FFFF
    ensures FirstChar(Utf8(cp) + r) == Char(cp, r)
  {
    if cp <= 0x7FF {
      ShortReadsBack(cp, r);
    } else if cp <= 0xFFFF {
      ThreeReadBack(cp, r);
    } else {
      FourReadBack(cp, r);
    }
  }

  /** A surrogate pair stands for a code point past 0xFFFF, and each such code point has one pair. */
  lemma PairsCoverTheRest(cp: nat)
    requires 0x10000 <= cp <= 0x10FFFF
    ensures exists high, low :: IsHigh(high) && IsLow(low) && PairMeaning(high, low) == Utf8(cp)
    ensures forall high, low :: IsHigh(high) && IsLow(low) && PairMeaning(high, low) == Utf8(cp) ==>
              high == 0xD800 + (cp - 0x10000) / 1024 && low == 0xDC00 + (cp - 0x10000) % 1024
  {
    var h, l := 0xD800 + (cp - 0x10000) / 1024, 0xDC00 + (cp - 0x10000) % 1024;
    assert IsHigh(h) && IsLow(l) && PairMeaning(h, l) == Utf8(cp);
    forall high, low | IsHigh(high) && IsLow(low) && PairMeaning(high, low) == Utf8(cp)
      ensures high == h && low == l
    {
      var other := 0x10000 + (high - 0xD800) * 1024 + (low - 0xDC00);
      Utf8ReadsBack(cp, []);
      Utf8ReadsBack(other, []);
      assert other == cp;
    }
  }

  // --- escapes ---

  /** A hex digit, in either case. */
  function HexChar(v: nat, upper: bool): Byte
    requires v < 16
  {
    if upper then Ascii("0123456789ABCDEF")[v] else Ascii("0123456789abcdef")[v]
  }

  lemma HexCharIs(v: nat, upper: bool)
    requires v < 16
    ensures IsHex(HexChar(v, upper)) && HexValue(HexChar(v, upper)) == v
  {
  }

  function HexText(unit: nat, a: bool, b: bool, c: bool, d: bool): (digits: Bytes)
    requires unit < 0x10000
    ensures |digits| == 4
  {
    [HexChar(unit / 4096, a), HexChar(unit / 256 % 16, b), HexChar(unit / 16 % 16, c), HexChar(unit % 16, d)]
  }

  lemma HexDigits(unit: nat)
    requires unit < 0x10000
    ensures ((unit / 4096 * 16 + unit / 256 % 16) * 16 + unit / 16 % 16) * 16 + unit % 16 == unit
  {
  }

  /** Four hex digits spell their code unit, in any mixture of cases. */
  lemma HexReadsBack(unit: nat, a: bool, b: bool, c: bool, d: bool)
    requires unit < 0x10000
    ensures LegalItem(Hex(HexText(unit, a, b, c, d))) && CodeUnit(HexText(unit, a, b, c, d)) == unit
  {
    HexCharIs(unit / 4096, a);
    HexCharIs(unit / 256 % 16, b);
    HexCharIs(unit / 16 % 16, c);
    HexCharIs(unit % 16, d);
    HexDigits(unit);
  }

  /** An escape of four hex digits stands for its code point, and for U+FFFD when it is half of a pair. */
  lemma EscapeStandsFor(digits: Bytes, r: Bytes)
    ensures var unit := CodeUnit(digits);
            FirstChar(ItemMeaning(Hex(digits)) + r) == Char(if 0xD800 <= unit < 0xE000 then 0xFFFD else unit, r)
  {
    Utf8ReadsBack(Scalar(CodeUnit(digits)), r);
  }

  /** The escapes of one letter, and what they stand for. */
  lemma ShortEscapesAre(e: Byte)
    ensures IsShortEscape(e) <==> e in Ascii("\"\\/bfnrt")
    ensures ShortMeaning(34) == 34 && ShortMeaning(92) == 92 && ShortMeaning(47) == 47
    ensures ShortMeaning('b' as int) == 8 && ShortMeaning('f' as int) == 12 && ShortMeaning('n' as int) == 10
    ensures ShortMeaning('r' as int) == 13 && ShortMeaning('t' as int) == 9
  {
    var all := Ascii("\"\\/bfnrt");
    assert all == [34, 92, 47, 98, 102, 110, 114, 116];
  }

  /** The characters that count as space and as digits. */
  lemma CharactersAre(b: Byte)
    ensures IsSpace(b) <==> b in Ascii(" \t\n\r")
    ensures IsDigit(b) <==> b in Ascii("0123456789")
    ensures IsHex(b) <==> b in Ascii("0123456789abcdefABCDEF")
  {
    assert Ascii(" \t\n\r") == [32, 9, 10, 13];
    assert Ascii("0123456789") == [48, 49, 50, 51, 52, 53, 54, 55, 56, 57];
    assert Ascii("0123456789abcdefABCDEF") ==
           Ascii("0123456789") + [97, 98, 99, 100, 101, 102, 65, 66, 67, 68, 69, 70];
  }
}
