/** deps/cJSON.c: parsing and printing of strings as the code does them: pointers into buffers whose sizes are
    computed beforehand. */
module JsonStringCode {
  import opened Bits
  import opened Bytes
  import opened JsonStrings
  import opened JsonUtf8
  import opened Options

  lemma Shl4(h: nat)
    ensures Shl(h, 4) == 16 * h
  {
    ShlIsMul(h, 4);
    assert Pow2(4) == 16;
  }

  /** parse_hex4 */
  method ParseHex4(input: seq<byte>) returns (h: nat)
    requires |input| >= 4
    ensures h == Hex4(input[..4])
  {
    h := 0;
    var i := 0;
    while i < 4
      invariant i <= 4 && forall j :: 0 <= j < i ==> HexValue(input[j]) < 16
      invariant i == 0 ==> h == 0
      invariant i == 1 ==> h == 16 * HexValue(input[0])
      invariant i == 2 ==> h == 16 * (16 * HexValue(input[0]) + HexValue(input[1]))
      invariant i == 3 ==> h == 16 * (16 * (16 * HexValue(input[0]) + HexValue(input[1])) + HexValue(input[2]))
      invariant i == 4 ==> h == Hex4(input[..4])
    {
      if 0x30 <= input[i] <= 0x39 {
        h := h + input[i] as nat - 0x30;
      } else if 0x41 <= input[i] <= 0x46 {
        h := h + 10 + input[i] as nat - 0x41;
      } else if 0x61 <= input[i] <= 0x66 {
        h := h + 10 + input[i] as nat - 0x61;
      } else {
        assert input[..4][i] == input[i];
        return 0;
      }
      if i < 3 {
        Shl4(h);
        h := Shl(h, 4);
      }
      i := i + 1;
    }
  }

  /** cp without its n lowest groups of six bits */
  function Six(cp: nat, n: nat): nat {
    if n == 0 then cp else Six(cp, n - 1) / 64
  }

  /** Every byte but the first carries six bits. */
  lemma TailByte(cp: nat, k: nat)
    requires cp <= 0x10FFFF && 0 < k < |Utf8(cp)|
    ensures Utf8(cp)[k] as nat == 0x80 + Six(cp, |Utf8(cp)| - 1 - k) % 64
  {
    var n := |Utf8(cp)| - 1 - k;
    if n == 1 {
      assert Six(cp, 1) == cp / 64;
    } else if n == 2 {
      assert Six(cp, 1) == cp / 64;
      assert Six(cp, 2) == cp / 64 / 64 == cp / 4096;
    }
  }

  /** What the first byte carries, under its mark */
  lemma HeadByte(cp: nat)
    requires cp <= 0x10FFFF
    ensures var n, c := |Utf8(cp)|, Six(cp, |Utf8(cp)| - 1);
      Utf8(cp)[0] as nat == (if n == 1 then c else if n == 2 then And(Or(c, 0xC0), 0xFF)
                             else if n == 3 then And(Or(c, 0xE0), 0xFF) else And(Or(c, 0xF0), 0xFF))
  {
    var n, c := |Utf8(cp)|, Six(cp, |Utf8(cp)| - 1);
    assert Six(cp, 1) == cp / 64 && Six(cp, 2) == cp / 64 / 64 == cp / 4096;
    assert Six(cp, 3) == cp / 4096 / 64 == cp / 262144;
    assert Pow2(3) == 8 && Pow2(4) == 16 && Pow2(5) == 32;
    if n == 2 {
      assert Shl(6, 5) == 0xC0;
      FirstByte(c, 6, 5, 0xC0);
    } else if n == 3 {
      assert Shl(14, 4) == 0xE0;
      FirstByte(c, 14, 4, 0xE0);
    } else if n == 4 {
      assert Shl(30, 3) == 0xF0;
      FirstByte(c, 30, 3, 0xF0);
    }
  }

  /** How many bytes a code point takes, and the mark of the first */
  method Utf8Length(codepoint: nat) returns (len: nat, mark: nat)
    requires codepoint <= 0x10FFFF
    ensures len == |Utf8(codepoint)|
    ensures mark == if len == 1 then 0 else if len == 2 then 0xC0 else if len == 3 then 0xE0 else 0xF0
  {
    len, mark := 4, 0xF0;
    if codepoint < 0x80 {
      len, mark := 1, 0;
    } else if codepoint < 0x800 {
      len, mark := 2, 0xC0;
    } else if codepoint < 0x10000 {
      len, mark := 3, 0xE0;
    }
  }

  /** The encoding half of utf16_literal_to_utf8: bytes from the last to the first */
  method EncodeUtf8(codepoint: nat, out: array<byte>, o: nat) returns (len: nat)
    requires codepoint <= 0x10FFFF && o + |Utf8(codepoint)| <= out.Length
    modifies out
    ensures len == |Utf8(codepoint)| && out[o..o + len] == Utf8(codepoint)
    ensures out[..o] == old(out[..o])
  {
    var mark;
    len, mark := Utf8Length(codepoint);
    var cp := EncodeTail(codepoint, out, o, len);
    HeadByte(codepoint);
    if len > 1 {
      out[o] := And(Or(cp, mark), 0xFF) as byte;
    } else {
      Low7(cp);
      out[o] := And(cp, 0x7F) as byte;
    }
  }

  /** All bytes but the first; what is left of the code point goes into that one. */
  method EncodeTail(codepoint: nat, out: array<byte>, o: nat, len: nat) returns (cp: nat)
    requires codepoint <= 0x10FFFF && len == |Utf8(codepoint)| && o + len <= out.Length
    modifies out
    ensures cp == Six(codepoint, len - 1) && out[o + 1..o + len] == Utf8(codepoint)[1..]
    ensures out[..o] == old(out[..o])
  {
    ghost var want := Utf8(codepoint);
    cp := codepoint;
    var pos := len - 1;
    while pos > 0
      invariant 0 <= pos < len && cp == Six(codepoint, len - 1 - pos)
      invariant out[o + pos + 1..o + len] == want[pos + 1..]
      invariant out[..o] == old(out[..o])
    {
      TailByte(codepoint, pos);
      Continuation(cp);
      ShrIsDiv(cp, 6, 64) by { Powers(); }
      ghost var tail := out[o + pos + 1..o + len];
      out[o + pos] := And(Or(cp, 0x80), 0xBF) as byte;
      assert out[o + pos..o + len] == [out[o + pos]] + tail;
      cp := Shr(cp, 6);
      pos := pos - 1;
    }
  }

  lemma Low7(cp: nat)
    requires cp < 0x80
    ensures And(cp, 0x7F) == cp
  {
    LowBits(cp, 7, 128) by {
      assert Pow2(3) == 8;
      assert Pow2(7) == 128;
    }
  }

  lemma LowBits(cp: nat, k: nat, p: nat)
    requires Pow2(k) == p && cp < p
    ensures And(cp, p - 1) == cp
  {
    Mask(cp, k, p);
    ModUnique(cp, p, 0, cp);
  }

  /** utf16_literal_to_utf8: length of the literal, or 0; the bytes go to out at o. */
  method Utf16LiteralToUtf8(b: seq<byte>, out: array<byte>, o: nat) returns (sequenceLength: nat, len: nat)
    requires Utf16(b).Some? ==> o + |Utf16(b).value.0| <= out.Length
    modifies out
    ensures Utf16(b).None? ==> sequenceLength == 0
    ensures Utf16(b).Some? ==>
      && sequenceLength == Utf16(b).value.1 && len == |Utf16(b).value.0|
      && o + len <= out.Length && out[o..o + len] == Utf16(b).value.0
    ensures o <= out.Length ==> out[..o] == old(out[..o])
  {
    var codepoint;
    sequenceLength, codepoint := ReadCodePoint(b);
    len := 0;
    if sequenceLength != 0 {
      len := EncodeUtf8(codepoint, out, o);
    }
  }

  /** Its first half: length of the literal, or 0, and the code point */
  method ReadCodePoint(b: seq<byte>) returns (sequenceLength: nat, codepoint: nat)
    ensures codepoint <= 0x10FFFF
    ensures Utf16(b) == if sequenceLength == 0 then None else Some((Utf8(codepoint), sequenceLength))
  {
    if |b| < 6 {
      return 0, 0;
    }
    var first := ParseHex4(b[2..]);
    assert b[2..][..4] == b[2..6];
    if 0xDC00 <= first <= 0xDFFF {
      return 0, 0;
    }
    if 0xD800 <= first <= 0xDBFF {
      if |b| - 6 < 6 || b[6] != BACKSLASH || b[7] != LETTER_U {
        return 0, 0;
      }
      var second := ParseHex4(b[8..]);
      assert b[8..][..4] == b[8..12];
      if second < 0xDC00 || second > 0xDFFF {
        return 0, 0;
      }
      PairIs(first, second);
      return 12, 0x10000 + Or(Shl(And(first, 0x3FF), 10), And(second, 0x3FF));
    }
    return 6, first;
  }

  // ---- parse_string -----------------------------------------------------------------------------------------

  /** Bytes of a body less its escapes: room for what it unescapes to */
  function Room(b: seq<byte>): nat
    decreases |b|
  {
    if b == [] then 0
    else if b[0] != BACKSLASH then 1 + Room(b[1..])
    else if |b| < 2 then 1
    else 1 + Room(b[2..])
  }

  lemma {:induction false} RoomDrop(b: seq<byte>)
    requires b != []
    ensures Room(b[1..]) <= Room(b)
    decreases |b|
  {
    if b[0] == BACKSLASH && |b| >= 2 {
      assert b[1..][1..] == b[2..];
      if b[1] == BACKSLASH && |b| > 2 {
        RoomDrop(b[2..]);
        assert b[1..][2..] == b[2..][1..];
      }
    }
  }

  lemma {:induction false} RoomShrinks(b: seq<byte>, n: nat)
    requires n <= |b|
    ensures Room(b[n..]) <= Room(b)
    decreases n
  {
    if n == 0 {
      assert b[0..] == b;
    } else {
      RoomDrop(b);
      RoomShrinks(b[1..], n - 1);
      assert b[1..][n - 1..] == b[n..];
    }
  }

  lemma {:induction false} RoomOfPlain(p: seq<byte>, b: seq<byte>)
    requires forall i :: 0 <= i < |p| ==> p[i] != BACKSLASH
    ensures Room(p + b) == |p| + Room(b)
  {
    if p == [] {
      assert p + b == b;
    } else {
      assert (p + b)[1..] == p[1..] + b;
      RoomOfPlain(p[1..], b);
    }
  }

  /** Four digits have the room of three bytes and more. */
  lemma RoomOfHex(b: seq<byte>)
    requires |b| >= 6 && b[0] == BACKSLASH && IsHex(b[2..6])
    ensures Room(b) == 5 + Room(b[6..])
  {
    assert b[2..] == b[2..6] + b[6..];
    assert forall i :: 0 <= i < 4 ==> HexValue(b[2..6][i]) < 16;
    assert HexValue(BACKSLASH) == 16;
    RoomOfPlain(b[2..6], b[6..]);
  }

  /** A literal needs no more room than its bytes have. */
  lemma RoomOfUtf16(b: seq<byte>)
    requires |b| >= 2 && b[0] == BACKSLASH && Utf16(b).Some?
    ensures |Utf16(b).value.0| + Room(b[Utf16(b).value.1..]) <= Room(b)
  {
    if IsHex(b[2..6]) {
      RoomOfHex(b);
      if IsHigh(Hex4(b[2..6])) {
        assert b[6..][2..6] == b[8..12] && b[6..][6..] == b[12..];
        RoomOfHex(b[6..]);
      }
    } else {
      RoomShrinks(b[2..], 4);
      assert b[2..][4..] == b[6..];
    }
  }

  /** The scan counts the escapes that Room leaves out. */
  method FindEnd(s: seq<byte>) returns (ok: bool, end: nat, skipped: nat)
    requires s != [] && s[0] == QUOTE
    ensures ok <==> ScanEnd(s, 1).Some?
    ensures ok ==> end == ScanEnd(s, 1).value && skipped <= end - 1 && end - 1 - skipped == Room(s[1..end])
  {
    ok, end, skipped := false, 1, 0;
    while end < |s| && s[end] != QUOTE
      invariant 1 <= end <= |s| && ScanEnd(s, 1) == ScanEnd(s, end)
      invariant skipped <= end - 1
      invariant forall t :: end <= t <= |s| ==> Room(s[1..t]) == RoomTo(s, end, skipped, t)
    {
      if s[end] == BACKSLASH {
        if end + 1 >= |s| {
          return;
        }
        forall t | end + 2 <= t <= |s| ensures Room(s[end..t]) == 1 + Room(s[end + 2..t]) {
          assert s[end..t][2..] == s[end + 2..t];
        }
        skipped := skipped + 1;
        end := end + 1;
      } else {
        forall t | end + 1 <= t <= |s| ensures Room(s[end..t]) == 1 + Room(s[end + 1..t]) {
          assert s[end..t][1..] == s[end + 1..t];
        }
      }
      end := end + 1;
    }
    if end >= |s| {
      return;
    }
    assert s[end..end] == [];
    ok := true;
  }

  /** Room up to t, when the scan stands at end */
  function RoomTo(s: seq<byte>, end: nat, skipped: nat, t: nat): int
    requires 1 <= end <= t <= |s|
  {
    end - 1 - skipped + Room(s[end..t])
  }

  /** What is written so far, put in front of what is still to come */
  predicate Written(out: seq<byte>, left: seq<byte>, body: seq<byte>) {
    Unescape(body) == Prepend(out, Unescape(left))
  }

  lemma Grow(out: seq<byte>, p: seq<byte>, left: seq<byte>, next: seq<byte>, body: seq<byte>)
    requires Written(out, left, body) && Unescape(left) == Prepend(p, Unescape(next))
    ensures Written(out + p, next, body)
  {
    if Unescape(next).Some? {
      assert out + (p + Unescape(next).value) == out + p + Unescape(next).value;
    }
  }

  /** parse_string on the text from its opening quote on: the value and the length of the literal. The output
      buffer has one byte for each byte of the literal that is no escape, and one for the end. */
  method ParseStringAt(s: seq<byte>) returns (ok: bool, value: seq<byte>, length: nat)
    ensures ok <==> ParseString(s).Some?
    ensures ok ==> length <= |s| && ParseString(s) == Some((value, s[length..]))
  {
    ok, value, length := false, [], 0;
    if s == [] || s[0] != QUOTE {
      return;
    }
    var found, end, skipped := FindEnd(s);
    if !found {
      return;
    }
    var out := new byte[end - skipped + 1](_ => 0);
    var done, n := Fill(s[1..end], out);
    if !done {
      return;
    }
    out[n] := 0;
    ok, value, length := true, CString(out[..n]), end + 1;
  }

  /** What is left after k bytes; an escape at the very end takes the closing quote along. */
  function After(left: seq<byte>, k: nat): seq<byte> {
    if k <= |left| then left[k..] else []
  }

  /** One round of the second loop: k bytes of the literal become m bytes of the output. */
  method TakeOne(left: seq<byte>, out: array<byte>, n: nat) returns (ok: bool, k: nat, m: nat)
    requires left != [] && n + Room(left) < out.Length
    modifies out
    ensures !ok ==> Unescape(left) == None
    ensures ok ==> k > 0 && n + m <= out.Length && m + Room(After(left, k)) <= Room(left)
    ensures ok ==> Unescape(left) == Prepend(out[n..n + m], Unescape(After(left, k)))
    ensures out[..n] == old(out[..n])
  {
    ok, k, m := true, 1, 1;
    if left[0] != BACKSLASH {
      out[n] := left[0];
      assert out[n..n + 1] == [left[0]];
    } else if 1 < |left| && left[1] == LETTER_U {
      if Utf16(left).Some? {
        RoomOfUtf16(left);
        assert Room(left) >= |Utf16(left).value.0|;
      }
      k, m := Utf16LiteralToUtf8(left, out, n);
      ok := k != 0;
    } else {
      var letter := if 1 < |left| then left[1] else QUOTE;
      var meaning := ShortMeaning(letter);
      k, ok := 2, meaning.Some?;
      if ok {
        out[n] := meaning.value;
        assert out[n..n + 1] == [meaning.value];
        assert |left| == 1 ==> [QUOTE] + [] == [QUOTE];
      }
    }
  }

  /** The second loop */
  method Fill(body: seq<byte>, out: array<byte>) returns (ok: bool, n: nat)
    requires Room(body) < out.Length
    modifies out
    ensures ok <==> Unescape(body).Some?
    ensures ok ==> n <= Room(body) && out[..n] == Unescape(body).value
  {
    var left := body;
    n := 0;
    assert forall r: seq<byte> :: [] + r == r;
    while left != []
      invariant n + Room(left) <= Room(body) && Written(out[..n], left, body)
      decreases |left|
    {
      ghost var was := out[..n];
      var k, m;
      ok, k, m := TakeOne(left, out, n);
      if !ok {
        return;
      }
      assert out[..n + m] == was + out[n..n + m];
      Grow(was, out[n..n + m], left, After(left, k), body);
      left, n := if k <= |left| then left[k..] else [], n + m;
    }
    ok := true;
    assert out[..n] + [] == out[..n];
  }

  // ---- print_string_ptr -------------------------------------------------------------------------------------

  lemma {:induction false} EscapedAppend(s: seq<byte>, b: byte)
    ensures Escaped(s + [b]) == Escaped(s) + EscapeByte(b)
    decreases |s|
  {
    if s == [] {
      assert [b][1..] == [] && EscapeByte(b) + [] == EscapeByte(b);
    } else {
      assert (s + [b])[1..] == s[1..] + [b];
      EscapedAppend(s[1..], b);
    }
  }

  lemma {:induction false} EscapedLonger(s: seq<byte>)
    ensures |Escaped(s)| >= |s|
    ensures |Escaped(s)| == |s| ==> Escaped(s) == s
  {
    if s != [] {
      EscapedLonger(s[1..]);
      assert s == [s[0]] + s[1..];
    }
  }

  /** Additional characters for escaping */
  method CountEscapes(input: seq<byte>) returns (n: nat)
    ensures |input| + n == |Escaped(input)|
  {
    n := 0;
    var i := 0;
    while i < |input|
      invariant i <= |input| && i + n == |Escaped(input[..i])|
    {
      EscapedAppend(input[..i], input[i]);
      assert input[..i + 1] == input[..i] + [input[i]];
      if ShortEscape(input[i]) != 0 {
        n := n + 1;
      } else if input[i] < 32 {
        n := n + 5;
      }
      i := i + 1;
    }
    assert input[..i] == input;
  }

  /** print_string_ptr, with a terminating zero: the buffer computed beforehand is exactly filled. No string
      prints as an empty one. */
  method PrintStringPtr(input: Option<seq<byte>>) returns (out: array<byte>)
    ensures fresh(out) && out[..] == Printed(if input.Some? then input.value else []) + [0]
  {
    if input.None? {
      out := new byte[][QUOTE, QUOTE, 0];
      assert out[..] == [QUOTE] + [] + [QUOTE] + [0];
      return;
    }
    var s := input.value;
    var escapes := CountEscapes(s);
    var len := |s| + escapes;
    out := new byte[len + 3](_ => 0);
    out[0] := QUOTE;
    if escapes == 0 {
      EscapedLonger(s);
      WritePlain(s, out);
    } else {
      WriteEscaped(s, out);
    }
    out[len + 1] := QUOTE;
    out[len + 2] := 0;
    assert out[..] == out[..len + 1] + [QUOTE, 0];
    PrintedIs(s);
  }

  lemma PrintedIs(s: seq<byte>)
    ensures Printed(s) + [0] == [QUOTE] + Escaped(s) + [QUOTE, 0]
  {
  }

  /** Copies the characters when none needs an escape */
  method WritePlain(s: seq<byte>, out: array<byte>)
    requires out.Length == |s| + 3 && out[0] == QUOTE
    modifies out
    ensures out[..|s| + 1] == [QUOTE] + s
  {
    for i := 0 to |s|
      invariant out[..i + 1] == [QUOTE] + s[..i]
    {
      out[i + 1] := s[i];
    }
    assert s[..|s|] == s;
  }

  /** The next character on either side of a place in the string */
  lemma OneEscaped(s: seq<byte>, i: nat)
    requires i < |s|
    ensures Escaped(s[..i + 1]) == Escaped(s[..i]) + EscapeByte(s[i])
    ensures [QUOTE] + Escaped(s[..i]) + EscapeByte(s[i]) == [QUOTE] + Escaped(s[..i + 1])
    ensures |Escaped(s[i..])| == |EscapeByte(s[i])| + |Escaped(s[i + 1..])|
  {
    assert s[..i + 1] == s[..i] + [s[i]];
    EscapedAppend(s[..i], s[i]);
    assert s[i..][1..] == s[i + 1..];
  }

  /** Copies or escapes each character, behind the opening quote */
  method WriteEscaped(s: seq<byte>, out: array<byte>)
    requires out.Length == |Escaped(s)| + 3 && out[0] == QUOTE
    modifies out
    ensures out[..|Escaped(s)| + 1] == [QUOTE] + Escaped(s)
  {
    var i, o := 0, 1;
    assert s[0..] == s && s[..0] == [];
    while i < |s|
      invariant i <= |s| && o + |Escaped(s[i..])| == |Escaped(s)| + 1
      invariant o == |Escaped(s[..i])| + 1 && out[..o] == [QUOTE] + Escaped(s[..i])
    {
      OneEscaped(s, i);
      o := WriteOne(s[i], out, o);
      i := i + 1;
    }
    assert s[..i] == s;
  }

  method WriteOne(b: byte, out: array<byte>, o: nat) returns (next: nat)
    requires o + |EscapeByte(b)| <= out.Length
    modifies out
    ensures next == o + |EscapeByte(b)| && out[..next] == old(out[..o]) + EscapeByte(b)
  {
    if b > 31 && b != QUOTE && b != BACKSLASH {
      out[o] := b;
      next := o + 1;
    } else {
      out[o] := BACKSLASH;
      if ShortEscape(b) != 0 {
        out[o + 1] := ShortEscape(b);
        next := o + 2;
      } else {
        out[o + 1], out[o + 2], out[o + 3] := LETTER_U, 0x30, 0x30;
        out[o + 4], out[o + 5] := HexDigit(b as nat / 16), HexDigit(b as nat % 16);
        next := o + 6;
      }
    }
  }
}
