/** deps/cJSON.c: what printing a string and parsing a string literal compute, against RFC 8259 section 7 and
    RFC 3629 section 3. */
module JsonStrings {
  import opened Bytes
  import opened Options

  const QUOTE: byte := 0x22
  const BACKSLASH: byte := 0x5C
  const LETTER_U: byte := 0x75

  /** What a C string is read as: the bytes before the first zero. */
  function CString(s: seq<byte>): (r: seq<byte>)
    ensures r <= s && 0 !in r
    ensures |r| < |s| ==> s[|r|] == 0
  {
    if s == [] || s[0] == 0 then [] else [s[0]] + CString(s[1..])
  }

  lemma {:induction false} WholeCString(s: seq<byte>)
    ensures CString(s) == s <==> 0 !in s
  {
    if s != [] {
      WholeCString(s[1..]);
      assert s == [s[0]] + s[1..];
    }
  }

  // ---- Printing -----------------------------------------------------------------------------------------

  function HexDigit(n: nat): (d: byte)
    requires n < 16
  {
    if n < 10 then 0x30 + n as byte else 0x57 + n as byte
  }

  /** The letter of a short escape, or 0 */
  function ShortEscape(b: byte): byte {
    if b == QUOTE || b == BACKSLASH then b
    else if b == 8 then 0x62 else if b == 12 then 0x66 else if b == 10 then 0x6E
    else if b == 13 then 0x72 else if b == 9 then 0x74 else 0
  }

  function EscapeByte(b: byte): (s: seq<byte>)
    ensures 1 <= |s| <= 6
  {
    if ShortEscape(b) != 0 then [BACKSLASH, ShortEscape(b)]
    else if b < 32 then [BACKSLASH, LETTER_U, 0x30, 0x30, HexDigit(b as nat / 16), HexDigit(b as nat % 16)]
    else [b]
  }

  function Escaped(s: seq<byte>): seq<byte> {
    if s == [] then [] else EscapeByte(s[0]) + Escaped(s[1..])
  }

  /** print_string_ptr */
  function Printed(s: seq<byte>): seq<byte> {
    [QUOTE] + Escaped(s) + [QUOTE]
  }

  // ---- Code points --------------------------------------------------------------------------------------

  /** RFC 3629, section 3 */
  function Utf8(cp: nat): (s: seq<byte>)
    requires cp <= 0x10FFFF
    ensures 1 <= |s| <= 4
    ensures cp >= 0x80 ==> forall i :: 0 <= i < |s| ==> s[i] >= 0x80
    ensures 0 in s <==> cp == 0
  {
    if cp < 0x80 then [cp as byte]
    else if cp < 0x800 then [(0xC0 + cp / 64) as byte, (0x80 + cp % 64) as byte]
    else if cp < 0x10000 then
      [(0xE0 + cp / 4096) as byte, (0x80 + cp / 64 % 64) as byte, (0x80 + cp % 64) as byte]
    else
      [(0xF0 + cp / 262144) as byte, (0x80 + cp / 4096 % 64) as byte, (0x80 + cp / 64 % 64) as byte,
       (0x80 + cp % 64) as byte]
  }

  /** Value of a hexadecimal digit in either case, or 16 */
  function HexValue(d: byte): (n: nat)
    ensures n <= 16
  {
    if 0x30 <= d <= 0x39 then d as nat - 0x30
    else if 0x41 <= d <= 0x46 then d as nat - 0x41 + 10
    else if 0x61 <= d <= 0x66 then d as nat - 0x61 + 10
    else 16
  }

  predicate IsHex(s: seq<byte>) {
    |s| == 4 && forall i :: 0 <= i < 4 ==> HexValue(s[i]) < 16
  }

  /** parse_hex4: 0 for anything that is not four digits */
  function Hex4(s: seq<byte>): (n: nat)
    requires |s| == 4
    ensures n < 0x10000
  {
    if IsHex(s) then
      ((HexValue(s[0]) * 16 + HexValue(s[1])) * 16 + HexValue(s[2])) * 16 + HexValue(s[3])
    else 0
  }

  predicate IsHigh(code: nat) {
    0xD800 <= code <= 0xDBFF
  }

  predicate IsLow(code: nat) {
    0xDC00 <= code <= 0xDFFF
  }

  /** The code point of a surrogate pair */
  function Paired(high: nat, low: nat): (cp: nat)
    requires IsHigh(high) && IsLow(low)
    ensures 0x10000 <= cp <= 0x10FFFF
  {
    0x10000 + (high - 0xD800) * 1024 + (low - 0xDC00)
  }

  /** utf16_literal_to_utf8: the bytes of the literal at the front of b, and its length */
  function Utf16(b: seq<byte>): (r: Option<(seq<byte>, nat)>)
    ensures r.Some? ==> 6 <= r.value.1 <= |b| && |r.value.0| <= 4
    ensures r.Some? ==> r.value.1 == (if |r.value.0| == 4 then 12 else 6)
  {
    if |b| < 6 then None
    else
      var first := Hex4(b[2..6]);
      if IsLow(first) then None
      else if IsHigh(first) then
        if |b| < 12 || b[6] != BACKSLASH || b[7] != LETTER_U then None
        else
          var second := Hex4(b[8..12]);
          if !IsLow(second) then None else Some((Utf8(Paired(first, second)), 12))
      else Some((Utf8(first), 6))
  }

  // ---- Parsing ------------------------------------------------------------------------------------------

  /** The byte that a short escape stands for */
  function ShortMeaning(letter: byte): Option<byte> {
    if letter == 0x62 then Some(8) else if letter == 0x66 then Some(12) else if letter == 0x6E then Some(10)
    else if letter == 0x72 then Some(13) else if letter == 0x74 then Some(9)
    else if letter == QUOTE || letter == BACKSLASH || letter == 0x2F then Some(letter)
    else None
  }

  function Prepend(p: seq<byte>, r: Option<seq<byte>>): Option<seq<byte>> {
    if r.None? then None else Some(p + r.value)
  }

  /** The second loop of parse_string, on what stands between the quotes. A backslash left over at the end (after
      a malformed \\u has swallowed its partner) escapes the closing quote. */
  function Unescape(b: seq<byte>): Option<seq<byte>>
    decreases |b|
  {
    if b == [] then Some([])
    else if b[0] != BACKSLASH then Prepend([b[0]], Unescape(b[1..]))
    else if |b| < 2 then Some([QUOTE])
    else if b[1] == LETTER_U then
      var r := Utf16(b);
      if r.None? then None else Prepend(r.value.0, Unescape(b[r.value.1..]))
    else
      var m := ShortMeaning(b[1]);
      if m.None? then None else Prepend([m.value], Unescape(b[2..]))
  }

  /** The first loop of parse_string: the place of the closing quote */
  function ScanEnd(s: seq<byte>, i: nat): (r: Option<nat>)
    requires i <= |s|
    ensures r.Some? ==> i <= r.value < |s| && s[r.value] == QUOTE
    decreases |s| - i
  {
    if i == |s| then None
    else if s[i] == QUOTE then Some(i)
    else if s[i] == BACKSLASH then if i + 1 >= |s| then None else ScanEnd(s, i + 2)
    else ScanEnd(s, i + 1)
  }

  /** parse_string: the value and what follows the literal */
  function ParseString(s: seq<byte>): (r: Option<(seq<byte>, seq<byte>)>)
    ensures r.Some? ==> |r.value.1| < |s|
  {
    if s == [] || s[0] != QUOTE || ScanEnd(s, 1).None? then None
    else
      var end := ScanEnd(s, 1).value;
      var text := Unescape(s[1..end]);
      if text.None? then None else Some((CString(text.value), s[end + 1..]))
  }

  // ---- Pieces of a literal --------------------------------------------------------------------------------

  /** A piece that the scan passes over as a whole, wherever it stands: no quote in it ends the literal. */
  ghost predicate Passed(p: seq<byte>) {
    forall a, c :: PassedIn(a, p, c)
  }

  predicate PassedIn(a: seq<byte>, p: seq<byte>, c: seq<byte>) {
    ScanEnd(a + p + c, |a|) == ScanEnd(a + p + c, |a| + |p|)
  }

  lemma PassedNothing()
    ensures Passed([])
  {
    forall a: seq<byte>, c: seq<byte> ensures PassedIn(a, [], c) {
    }
  }

  lemma PassedPlain(b: byte)
    requires b != QUOTE && b != BACKSLASH
    ensures Passed([b])
  {
    forall a: seq<byte>, c: seq<byte> ensures PassedIn(a, [b], c) {
      assert (a + [b] + c)[|a|] == b;
    }
  }

  lemma PassedEscape(b: byte)
    ensures Passed([BACKSLASH, b])
  {
    forall a: seq<byte>, c: seq<byte> ensures PassedIn(a, [BACKSLASH, b], c) {
      assert (a + [BACKSLASH, b] + c)[|a|] == BACKSLASH;
    }
  }

  lemma PassedBoth(p: seq<byte>, q: seq<byte>)
    requires Passed(p) && Passed(q)
    ensures Passed(p + q)
  {
    forall a: seq<byte>, c: seq<byte> ensures PassedIn(a, p + q, c) {
      assert PassedIn(a, p, q + c) && PassedIn(a + p, q, c);
      assert a + p + (q + c) == a + (p + q) + c == (a + p) + q + c;
    }
  }

  lemma {:induction false} PassedPlainAll(p: seq<byte>)
    requires forall i :: 0 <= i < |p| ==> p[i] != QUOTE && p[i] != BACKSLASH
    ensures Passed(p)
  {
    if p == [] {
      PassedNothing();
    } else {
      PassedPlain(p[0]);
      PassedPlainAll(p[1..]);
      PassedBoth([p[0]], p[1..]);
      assert [p[0]] + p[1..] == p;
    }
  }

  /** The scan of a literal whose body is passed over ends at the closing quote. */
  lemma LiteralEnd(body: seq<byte>, rest: seq<byte>)
    requires Passed(body)
    ensures ScanEnd([QUOTE] + body + [QUOTE] + rest, 1) == Some(1 + |body|)
  {
    var s := [QUOTE] + body + ([QUOTE] + rest);
    assert PassedIn([QUOTE], body, [QUOTE] + rest);
    assert s == [QUOTE] + body + [QUOTE] + rest && s[1 + |body|] == QUOTE;
  }

  /** A literal whose body is passed over and unescapes to text has that text as its value. */
  lemma LiteralValue(body: seq<byte>, text: seq<byte>, rest: seq<byte>)
    requires Passed(body) && Unescape(body) == Some(text)
    ensures ParseString([QUOTE] + body + [QUOTE] + rest) == Some((CString(text), rest))
  {
    var s := [QUOTE] + body + [QUOTE] + rest;
    LiteralEnd(body, rest);
    assert s[1..1 + |body|] == body && s[2 + |body|..] == rest;
  }

  // ---- Round trip -------------------------------------------------------------------------------------------

  /** What printing makes of one byte is read back as that byte. */
  lemma EscapeReadsBack(b: byte, more: seq<byte>)
    ensures Passed(EscapeByte(b))
    ensures Unescape(EscapeByte(b) + more) == Prepend([b], Unescape(more))
  {
    var p := EscapeByte(b);
    if ShortEscape(b) != 0 {
      PassedEscape(ShortEscape(b));
      assert (p + more)[2..] == more;
    } else if b < 32 {
      PassedEscape(LETTER_U);
      var d := [0x30, 0x30, HexDigit(b as nat / 16), HexDigit(b as nat % 16)];
      PassedPlainAll(d);
      PassedBoth([BACKSLASH, LETTER_U], d);
      assert p == [BACKSLASH, LETTER_U] + d;
      assert (p + more)[2..6] == d;
      assert Hex4(d) == b as nat;
      assert Utf8(b as nat) == [b];
      assert (p + more)[6..] == more;
    } else {
      PassedPlain(b);
      assert (p + more)[1..] == more;
    }
  }

  lemma {:induction false} EscapedReadsBack(s: seq<byte>)
    ensures Passed(Escaped(s)) && Unescape(Escaped(s)) == Some(s)
  {
    if s == [] {
      PassedNothing();
    } else {
      EscapedReadsBack(s[1..]);
      EscapeReadsBack(s[0], Escaped(s[1..]));
      PassedBoth(EscapeByte(s[0]), Escaped(s[1..]));
      assert [s[0]] + s[1..] == s;
    }
  }

  /** Parsing undoes printing, for every string that C can hold and whatever follows the literal. */
  lemma StringRoundTrip(s: seq<byte>, rest: seq<byte>)
    requires 0 !in s
    ensures ParseString(Printed(s) + rest) == Some((s, rest))
  {
    EscapedReadsBack(s);
    LiteralValue(Escaped(s), s, rest);
    WholeCString(s);
    assert Printed(s) + rest == [QUOTE] + Escaped(s) + [QUOTE] + rest;
  }

  // ---- Valid literals ---------------------------------------------------------------------------------------

  /** A char of the grammar in RFC 8259 section 7, surrogate pairs taken together: an unescaped code point, a
      short escape, or one or two \uXXXX. */
  datatype Unit = Plain(cp: nat) | Short(letter: byte) | Hex(digits: seq<byte>) | Pair(high: seq<byte>, low: seq<byte>)

  /** Scalar values only: neither an unpaired surrogate nor one encoded as UTF-8 */
  predicate ValidUnit(u: Unit) {
    match u
    case Plain(cp) =>
      && 0x20 <= cp <= 0x10FFFF && cp != QUOTE as nat && cp != BACKSLASH as nat && !IsHigh(cp) && !IsLow(cp)
    case Short(letter) => ShortMeaning(letter).Some?
    case Hex(digits) => IsHex(digits) && !IsHigh(Hex4(digits)) && !IsLow(Hex4(digits))
    case Pair(high, low) => IsHex(high) && IsHex(low) && IsHigh(Hex4(high)) && IsLow(Hex4(low))
  }

  /** How the unit is written in the literal, itself UTF-8 */
  function Written(u: Unit): seq<byte>
    requires ValidUnit(u)
  {
    match u
    case Plain(cp) => Utf8(cp)
    case Short(letter) => [BACKSLASH, letter]
    case Hex(digits) => [BACKSLASH, LETTER_U] + digits
    case Pair(high, low) => [BACKSLASH, LETTER_U] + high + ([BACKSLASH, LETTER_U] + low)
  }

  /** The code point that the unit denotes */
  function Denoted(u: Unit): (cp: nat)
    requires ValidUnit(u)
    ensures cp <= 0x10FFFF
  {
    match u
    case Plain(cp) => cp
    case Short(letter) => ShortMeaning(letter).value as nat
    case Hex(digits) => Hex4(digits)
    case Pair(high, low) => Paired(Hex4(high), Hex4(low))
  }

  predicate ValidLiteral(us: seq<Unit>) {
    forall i :: 0 <= i < |us| ==> ValidUnit(us[i])
  }

  function WrittenAll(us: seq<Unit>): seq<byte>
    requires ValidLiteral(us)
  {
    if us == [] then [] else Written(us[0]) + WrittenAll(us[1..])
  }

  /** The UTF-8 of the denoted text */
  function TextOf(us: seq<Unit>): seq<byte>
    requires ValidLiteral(us)
  {
    if us == [] then [] else Utf8(Denoted(us[0])) + TextOf(us[1..])
  }

  lemma {:induction false} PlainBytes(p: seq<byte>, more: seq<byte>)
    requires forall i :: 0 <= i < |p| ==> p[i] != BACKSLASH
    ensures Unescape(p + more) == Prepend(p, Unescape(more))
  {
    if p == [] {
      assert p + more == more;
      if Unescape(more).Some? {
        assert p + Unescape(more).value == Unescape(more).value;
      }
    } else {
      PlainBytes(p[1..], more);
      assert (p + more)[1..] == p[1..] + more;
      assert [p[0]] + p[1..] == p;
      if Unescape(more).Some? {
        assert [p[0]] + (p[1..] + Unescape(more).value) == p + Unescape(more).value;
      }
    }
  }

  lemma PassedHex(d: seq<byte>)
    requires IsHex(d)
    ensures Passed([BACKSLASH, LETTER_U] + d)
  {
    PassedEscape(LETTER_U);
    assert HexValue(QUOTE) == 16 && HexValue(BACKSLASH) == 16;
    PassedPlainAll(d);
    PassedBoth([BACKSLASH, LETTER_U], d);
  }

  lemma UnitPassed(u: Unit)
    requires ValidUnit(u)
    ensures Passed(Written(u))
  {
    match u
    case Plain(cp) => PassedPlainAll(Utf8(cp));
    case Short(letter) => PassedEscape(letter);
    case Hex(digits) => PassedHex(digits);
    case Pair(high, low) =>
      PassedHex(high);
      PassedHex(low);
      PassedBoth([BACKSLASH, LETTER_U] + high, [BACKSLASH, LETTER_U] + low);
  }

  /** A unit at the front of a literal is read as the UTF-8 of its code point. */
  lemma UnitRead(u: Unit, more: seq<byte>)
    requires ValidUnit(u)
    ensures Unescape(Written(u) + more) == Prepend(Utf8(Denoted(u)), Unescape(more))
  {
    var w := Written(u);
    match u
    case Plain(cp) => PlainBytes(w, more);
    case Short(letter) =>
      assert letter != LETTER_U && (w + more)[2..] == more;
    case Hex(digits) =>
      assert (w + more)[2..6] == digits && (w + more)[6..] == more;
    case Pair(high, low) =>
      assert (w + more)[2..6] == high && (w + more)[8..12] == low && (w + more)[12..] == more;
  }

  lemma {:induction false} UnitsRead(us: seq<Unit>)
    requires ValidLiteral(us)
    ensures Passed(WrittenAll(us)) && Unescape(WrittenAll(us)) == Some(TextOf(us))
  {
    if us == [] {
      PassedNothing();
    } else {
      UnitsRead(us[1..]);
      UnitPassed(us[0]);
      UnitRead(us[0], WrittenAll(us[1..]));
      PassedBoth(Written(us[0]), WrittenAll(us[1..]));
    }
  }

  lemma {:induction false} ZeroDenoted(us: seq<Unit>)
    requires ValidLiteral(us)
    ensures 0 in TextOf(us) <==> exists i :: 0 <= i < |us| && Denoted(us[i]) == 0
  {
    if us != [] {
      ZeroDenoted(us[1..]);
      if i :| 0 <= i < |us[1..]| && Denoted(us[1..][i]) == 0 {
        assert Denoted(us[i + 1]) == 0;
      }
      if i :| 0 <= i < |us| && Denoted(us[i]) == 0 {
        assert i > 0 ==> Denoted(us[1..][i - 1]) == 0;
      }
    }
  }

  /** A valid literal is read as the UTF-8 of the text it denotes, cut at the first U+0000: it is the whole text
      exactly when no unit denotes U+0000. */
  lemma ValidLiteralValue(us: seq<Unit>, rest: seq<byte>)
    requires ValidLiteral(us)
    ensures ParseString([QUOTE] + WrittenAll(us) + [QUOTE] + rest) == Some((CString(TextOf(us)), rest))
    ensures CString(TextOf(us)) == TextOf(us) <==> forall i :: 0 <= i < |us| ==> Denoted(us[i]) != 0
  {
    UnitsRead(us);
    LiteralValue(WrittenAll(us), TextOf(us), rest);
    WholeCString(TextOf(us));
    ZeroDenoted(us);
  }
}
