/** The tables of RFC 8259 section 7 and RFC 3629 section 3 that deps/cJSON.c goes by. */
module JsonTables {
  import opened Bytes
  import opened Options
  import opened JsonStrings

  /** The codes of ASCII characters */
  function Ascii(s: string): (b: seq<byte>)
    requires forall i :: 0 <= i < |s| ==> s[i] as int < 0x80
    ensures |b| == |s|
  {
    seq(|s|, i requires 0 <= i < |s| => s[i] as int as byte)
  }

  // ---- Escapes -----------------------------------------------------------------

  lemma ShortEscapes(letter: byte)
    ensures var letters, meanings := Ascii("\"\\/bfnrt"), [0x22, 0x5C, 0x2F, 8, 12, 10, 13, 9];
      && (forall i :: 0 <= i < 8 ==> ShortMeaning(letters[i]) == Some(meanings[i]))
      && (ShortMeaning(letter).Some? <==> letter in letters)
  {
    assert Ascii("\"\\/bfnrt") == [0x22, 0x5C, 0x2F, 0x62, 0x66, 0x6E, 0x72, 0x74];
  }

  lemma HexDigits(d: byte)
    ensures forall i :: 0 <= i < 16 ==> HexValue(Ascii("0123456789abcdef")[i]) == i
    ensures forall i :: 0 <= i < 16 ==> HexValue(Ascii("0123456789ABCDEF")[i]) == i
    ensures HexValue(d) < 16 <==> d in Ascii("0123456789abcdef") || d in Ascii("0123456789ABCDEF")
  {
    forall i | 0 <= i < 16
      ensures Ascii("0123456789abcdef")[i] as int == if i < 10 then 0x30 + i else 0x57 + i
      ensures Ascii("0123456789ABCDEF")[i] as int == if i < 10 then 0x30 + i else 0x37 + i
    {
    }
    if HexValue(d) < 16 {
      assert d == Ascii("0123456789abcdef")[HexValue(d)] || d == Ascii("0123456789ABCDEF")[HexValue(d)];
    }
  }

  /** Four digits are a number in base 16, the first one highest. */
  lemma Hex4Is(s: seq<byte>)
    requires IsHex(s)
    ensures Hex4(s) == 0x1000 * HexValue(s[0]) + 0x100 * HexValue(s[1]) + 0x10 * HexValue(s[2]) + HexValue(s[3])
  {
  }

  // ---- UTF-8 -----------------------------------------------------------------------------

  /** Section 3: the length goes by the range of the code point, the first byte has as many leading ones as there are
      bytes, and the free bits, six in each byte behind it, make up the code point. */
  lemma Utf8Is(cp: nat)
    requires cp <= 0x10FFFF
    ensures var s := Utf8(cp);
      && |s| == (if cp < 0x80 then 1 else if cp < 0x800 then 2 else if cp < 0x1_0000 then 3 else 4)
      && (forall i :: 0 < i < |s| ==> 0x80 <= s[i] < 0xC0)
      && match |s|
         case 1 => s[0] as nat == cp
         case 2 => 0xC0 <= s[0] < 0xE0 && Free(s[0], 0xC0) * 0x40 + Free(s[1], 0x80) == cp
         case 3 =>
           0xE0 <= s[0] < 0xF0 && Free(s[0], 0xE0) * 0x1000 + Free(s[1], 0x80) * 0x40 + Free(s[2], 0x80) == cp
         case _ =>
           && 0xF0 <= s[0] < 0xF8
           && Free(s[0], 0xF0) * 0x4_0000 + Free(s[1], 0x80) * 0x1000 + Free(s[2], 0x80) * 0x40 + Free(s[3], 0x80) == cp
  {
    Sixes(cp);
  }

  lemma Sixes(cp: nat)
    ensures cp == cp / 0x40 * 0x40 + cp % 0x40
    ensures cp / 0x40 == cp / 0x1000 * 0x40 + cp / 0x40 % 0x40
    ensures cp / 0x1000 == cp / 0x4_0000 * 0x40 + cp / 0x1000 % 0x40
  {
    assert cp / 0x1000 == cp / 0x40 / 0x40;
    assert cp / 0x4_0000 == cp / 0x1000 / 0x40;
  }

  function Free(b: byte, mark: int): int {
    b as int - mark
  }

  /** The codes 0xD800 to 0xDFFF are the surrogates, and every code point above 0xFFFF has a pair of them. */
  lemma Surrogates(code: nat, cp: nat)
    requires 0x1_0000 <= cp <= 0x10_FFFF
    ensures IsHigh(code) || IsLow(code) <==> 0xD800 <= code <= 0xDFFF
    ensures !(IsHigh(code) && IsLow(code))
    ensures var high, low := 0xD800 + (cp - 0x1_0000) / 0x400, 0xDC00 + (cp - 0x1_0000) % 0x400;
      IsHigh(high) && IsLow(low) && Paired(high, low) == cp
  {
  }
}
