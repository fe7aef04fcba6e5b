/** deps/cJSON.c: which string literals are accepted, and what they are read as, for all bytes between the quotes.
    The reference is the list of pieces that a literal is made of. */
module JsonEscapes {
  import opened Bytes
  import opened Options
  import opened JsonStrings

  /** Raw: a byte that stands for itself. Escape: an escape of RFC 8259 section 7. Bad: a \u that four bytes follow
      which are not all hexadecimal digits. Stray: a backslash right before the closing quote, possible only because
      a bad escape swallowed its partner. */
  datatype Piece = Raw(b: byte) | Escape(u: Unit) | Bad(digits: seq<byte>) | Stray

  predicate ValidPiece(p: Piece) {
    match p
    case Raw(b) => b != BACKSLASH
    case Escape(u) => !u.Plain? && ValidUnit(u)
    case Bad(digits) => |digits| == 4 && !IsHex(digits)
    case Stray => true
  }

  predicate ValidPieces(ps: seq<Piece>) {
    forall i :: 0 <= i < |ps| ==> ValidPiece(ps[i]) && (ps[i].Stray? ==> i == |ps| - 1)
  }

  function Spelling(p: Piece): (s: seq<byte>)
    requires ValidPiece(p)
    ensures s != []
  {
    match p
    case Raw(b) => [b]
    case Escape(u) => Written(u)
    case Bad(digits) => [BACKSLASH, LETTER_U] + digits
    case Stray => [BACKSLASH]
  }

  /** A bad escape stands for U+0000. */
  function Value(p: Piece): seq<byte>
    requires ValidPiece(p)
  {
    match p
    case Raw(b) => [b]
    case Escape(u) => Utf8(Denoted(u))
    case Bad(_) => [0]
    case Stray => [QUOTE]
  }

  function SpellingAll(ps: seq<Piece>): seq<byte>
    requires ValidPieces(ps)
  {
    if ps == [] then [] else Spelling(ps[0]) + SpellingAll(ps[1..])
  }

  function ValueAll(ps: seq<Piece>): seq<byte>
    requires ValidPieces(ps)
  {
    if ps == [] then [] else Value(ps[0]) + ValueAll(ps[1..])
  }

  // ---- One escape ---------------------------------------------------------------------------------------

  /** b begins with \uXXXX of RFC 8259, a surrogate pair taken whole. */
  predicate EscapeAt(u: Unit, b: seq<byte>) {
    (u.Hex? || u.Pair?) && ValidUnit(u) && Written(u) <= b
  }

  predicate BadAt(b: seq<byte>) {
    |b| >= 6 && !IsHex(b[2..6])
  }

  /** A \u is accepted if an escape of RFC 8259 stands there or four bytes follow that are not all digits, and in no
      other case: too short, an unpaired surrogate, or a second half that is none. The former is read as its
      code point, the latter as U+0000. */
  lemma EscapeMeaning(b: seq<byte>)
    requires [BACKSLASH, LETTER_U] <= b
    ensures Utf16(b).Some? <==> (exists u :: EscapeAt(u, b)) || BadAt(b)
    ensures forall u :: EscapeAt(u, b) ==> Utf16(b) == Some((Utf8(Denoted(u)), |Written(u)|)) && !BadAt(b)
    ensures BadAt(b) ==> Utf16(b) == Some(([0], 6))
  {
    forall u | EscapeAt(u, b) ensures Utf16(b) == Some((Utf8(Denoted(u)), |Written(u)|)) && !BadAt(b) {
      EscapeIsRead(u, b);
    }
    if Utf16(b).Some? && !BadAt(b) {
      var u := EscapeStands(b);
    }
  }

  lemma EscapeIsRead(u: Unit, b: seq<byte>)
    requires EscapeAt(u, b)
    ensures Utf16(b) == Some((Utf8(Denoted(u)), |Written(u)|)) && !BadAt(b)
  {
    var w := Written(u);
    assert b[..|w|] == w;
    if u.Hex? {
      assert b[2..6] == w[2..6] == u.digits;
    } else {
      assert b[2..6] == w[2..6] == u.high;
      assert b[8..12] == w[8..12] == u.low;
      assert b[6] == w[6] && b[7] == w[7];
    }
  }

  lemma EscapeStands(b: seq<byte>) returns (u: Unit)
    requires [BACKSLASH, LETTER_U] <= b && Utf16(b).Some? && !BadAt(b)
    ensures EscapeAt(u, b)
  {
    if IsHigh(Hex4(b[2..6])) {
      u := Pair(b[2..6], b[8..12]);
      assert b[..12] == [BACKSLASH, LETTER_U] + b[2..6] + ([BACKSLASH, LETTER_U] + b[8..12]);
    } else {
      u := Hex(b[2..6]);
      assert b[..6] == [BACKSLASH, LETTER_U] + b[2..6];
    }
  }

  // ---- A whole literal ------------------------------------------------------------------------------------

  lemma PieceRead(p: Piece, more: seq<byte>)
    requires ValidPiece(p) && (p.Stray? ==> more == [])
    ensures Unescape(Spelling(p) + more) == Prepend(Value(p), Unescape(more))
  {
    var b := Spelling(p) + more;
    match p
    case Raw(_) => assert b[1..] == more;
    case Escape(u) => UnitRead(u, more);
    case Bad(digits) => assert b[2..6] == digits && b[6..] == more;
    case Stray => assert b == [BACKSLASH] && [QUOTE] + [] == [QUOTE];
  }

  lemma {:induction false} PiecesRead(ps: seq<Piece>)
    requires ValidPieces(ps)
    ensures Unescape(SpellingAll(ps)) == Some(ValueAll(ps))
  {
    if ps != [] {
      PiecesRead(ps[1..]);
      PieceRead(ps[0], SpellingAll(ps[1..]));
    }
  }

  /** The piece at the front of an accepted text */
  lemma FirstPiece(b: seq<byte>) returns (p: Piece)
    requires b != [] && Unescape(b).Some?
    ensures ValidPiece(p) && Spelling(p) <= b && (p.Stray? ==> b == [BACKSLASH])
    ensures Unescape(b[|Spelling(p)|..]).Some?
  {
    if b[0] != BACKSLASH {
      p := Raw(b[0]);
    } else if |b| < 2 {
      p := Stray;
    } else if b[1] != LETTER_U {
      p := Escape(Short(b[1]));
    } else if BadAt(b) {
      p := Bad(b[2..6]);
      assert b[..6] == Spelling(p);
    } else {
      var u := EscapeStands(b);
      EscapeIsRead(u, b);
      p := Escape(u);
    }
  }

  lemma {:induction false} Pieces(b: seq<byte>) returns (ps: seq<Piece>)
    requires Unescape(b).Some?
    ensures ValidPieces(ps) && SpellingAll(ps) == b
    decreases |b|
  {
    if b == [] {
      ps := [];
    } else {
      var p := FirstPiece(b);
      var n := |Spelling(p)|;
      var rest := Pieces(b[n..]);
      ps := [p] + rest;
      assert ps[1..] == rest && b == b[..n] + b[n..];
    }
  }

  /** The bytes decide what the first piece is. */
  lemma SameFirst(p: Piece, q: Piece, more: seq<byte>, other: seq<byte>)
    requires ValidPiece(p) && ValidPiece(q) && (p.Stray? ==> more == []) && (q.Stray? ==> other == [])
    requires Spelling(p) + more == Spelling(q) + other
    ensures p == q && more == other
  {
    var b := Spelling(p) + more;
    Front(p, more);
    Front(q, other);
    assert more == b[|Spelling(p)|..] && other == b[|Spelling(q)|..];
  }

  /** The piece read off the first bytes */
  function Read(b: seq<byte>): Piece
    requires b != []
  {
    if b[0] != BACKSLASH then Raw(b[0])
    else if |b| < 2 then Stray
    else if b[1] != LETTER_U || |b| < 6 then Escape(Short(b[1]))
    else if !IsHex(b[2..6]) then Bad(b[2..6])
    else if IsHigh(Hex4(b[2..6])) && |b| >= 12 then Escape(Pair(b[2..6], b[8..12]))
    else Escape(Hex(b[2..6]))
  }

  lemma Front(p: Piece, more: seq<byte>)
    requires ValidPiece(p) && (p.Stray? ==> more == [])
    ensures Read(Spelling(p) + more) == p
  {
    if p.Bad? {
      assert (Spelling(p) + more)[2..6] == p.digits;
    } else if p.Escape? {
      FrontEscape(p.u, more);
    }
  }

  lemma FrontEscape(u: Unit, more: seq<byte>)
    requires ValidUnit(u) && !u.Plain?
    ensures Read(Written(u) + more) == Escape(u)
  {
    var b := Written(u) + more;
    if u.Hex? {
      assert b[2..6] == u.digits;
    } else if u.Pair? {
      assert b[2..6] == u.high && b[8..12] == u.low;
    }
  }

  /** No text is made of pieces in two ways. */
  lemma {:induction false} PiecesUnique(ps: seq<Piece>, qs: seq<Piece>)
    requires ValidPieces(ps) && ValidPieces(qs) && SpellingAll(ps) == SpellingAll(qs)
    ensures ps == qs
  {
    if ps != [] && qs != [] {
      SameFirst(ps[0], qs[0], SpellingAll(ps[1..]), SpellingAll(qs[1..]));
      PiecesUnique(ps[1..], qs[1..]);
      assert ps == [ps[0]] + ps[1..] && qs == [qs[0]] + qs[1..];
    }
  }

  predicate Opens(s: seq<byte>) {
    s != [] && s[0] == QUOTE && ScanEnd(s, 1).Some?
  }

  /** What stands between the quotes */
  function Body(s: seq<byte>): seq<byte>
    requires Opens(s)
  {
    s[1..ScanEnd(s, 1).value]
  }

  predicate MadeOf(b: seq<byte>, ps: seq<Piece>) {
    ValidPieces(ps) && SpellingAll(ps) == b
  }

  /** For every text: it is accepted exactly when what stands between its quotes is made of pieces, and read as their
      values up to the first zero byte. */
  lemma LiteralReading(s: seq<byte>)
    ensures ParseString(s).Some? <==> Opens(s) && exists ps :: MadeOf(Body(s), ps)
    ensures Opens(s) ==> forall ps :: MadeOf(Body(s), ps) ==>
      ParseString(s) == Some((CString(ValueAll(ps)), s[ScanEnd(s, 1).value + 1..]))
  {
    if Opens(s) {
      if Unescape(Body(s)).Some? {
        var ps := Pieces(Body(s));
        assert MadeOf(Body(s), ps);
      }
      forall ps | MadeOf(Body(s), ps) ensures Unescape(Body(s)) == Some(ValueAll(ps)) {
        PiecesRead(ps);
      }
    }
  }

  predicate Regular(ps: seq<Piece>) {
    forall i :: 0 <= i < |ps| ==> ps[i].Raw? || ps[i].Escape?
  }

  /** The grammar of RFC 8259, apart from which raw bytes it allows */
  ghost predicate Grammatical(b: seq<byte>) {
    exists ps :: MadeOf(b, ps) && Regular(ps)
  }

  /** An accepted literal is outside the grammar exactly when one of its escapes lacks its four digits. */
  lemma BeyondGrammarExactly(s: seq<byte>, ps: seq<Piece>)
    requires Opens(s) && MadeOf(Body(s), ps)
    ensures Grammatical(Body(s)) <==> NoBad(ps)
  {
    if Grammatical(Body(s)) {
      var qs :| MadeOf(Body(s), qs) && Regular(qs);
      PiecesUnique(ps, qs);
    }
    if NoBad(ps) {
      var end := ScanEnd(s, 1).value;
      NoStray([QUOTE], ps, s[end + 1..]) by {
        assert s == [QUOTE] + Body(s) + ([QUOTE] + s[end + 1..]);
      }
      assert MadeOf(Body(s), ps) && Regular(ps);
    }
  }

  predicate NoBad(ps: seq<Piece>) {
    forall i :: 0 <= i < |ps| ==> !ps[i].Bad?
  }

  /** Without a bad escape no backslash is left over before the closing quote. */
  lemma {:induction false} NoStray(a: seq<byte>, ps: seq<Piece>, rest: seq<byte>)
    requires ValidPieces(ps) && NoBad(ps)
    requires ScanEnd(a + SpellingAll(ps) + ([QUOTE] + rest), |a|) == Some(|a + SpellingAll(ps)|)
    ensures Regular(ps)
    decreases |ps|
  {
    if ps != [] {
      var w, more := Spelling(ps[0]), SpellingAll(ps[1..]);
      Advance(a, ps[0], more, [QUOTE] + rest);
      NoStray(a + w, ps[1..], rest);
    }
  }

  /** The scan for the closing quote goes over a piece that is not bad as a whole. */
  lemma Advance(a: seq<byte>, p: Piece, more: seq<byte>, c: seq<byte>)
    requires ValidPiece(p) && !p.Bad? && c != [] && (p.Stray? ==> more == [])
    requires ScanEnd(a + (Spelling(p) + more) + c, |a|) == Some(|a + (Spelling(p) + more)|)
    ensures !p.Stray? && ScanEnd((a + Spelling(p)) + more + c, |a + Spelling(p)|) == Some(|(a + Spelling(p)) + more|)
  {
    var w := Spelling(p);
    var t := a + (w + more) + c;
    assert t == (a + w) + more + c == a + w + (more + c);
    assert t[|a|] == w[0];
    if p.Escape? {
      UnitPassed(p.u);
      assert PassedIn(a, w, more + c);
    }
  }

  // ---- What a bad escape costs ------------------------------------------------------------------------------

  lemma {:induction false} CutAtZero(a: seq<byte>, b: seq<byte>)
    ensures CString(a + [0] + b) == CString(a)
  {
    if a != [] && a[0] != 0 {
      CutAtZero(a[1..], b);
      assert (a + [0] + b)[1..] == a[1..] + [0] + b;
    }
  }

  lemma {:induction false} ValueSplit(ps: seq<Piece>, i: nat)
    requires ValidPieces(ps) && i < |ps|
    ensures ValidPieces(ps[..i]) && ValueAll(ps) == ValueAll(ps[..i]) + Value(ps[i]) + ValueAll(ps[i + 1..])
  {
    if i > 0 {
      var t := ps[1..];
      ValueSplit(t, i - 1);
      assert t[i..] == ps[i + 1..];
      PrefixValue(ps, i);
      Assoc3(Value(ps[0]), ValueAll(t[..i - 1]), Value(ps[i]), ValueAll(ps[i + 1..]));
    }
  }

  lemma PrefixValue(ps: seq<Piece>, i: nat)
    requires ValidPieces(ps) && 0 < i < |ps|
    ensures ValidPieces(ps[..i]) && ValueAll(ps[..i]) == Value(ps[0]) + ValueAll(ps[1..][..i - 1])
  {
    var p := ps[..i];
    assert p[0] == ps[0];
    assert p[1..] == ps[1..][..i - 1];
  }

  lemma Assoc3(a: seq<byte>, b: seq<byte>, c: seq<byte>, d: seq<byte>)
    ensures a + (b + c + d) == a + b + c + d
  {
  }

  /** An escape without four digits ends the value: nothing from it on is left. */
  lemma BadDigitsAreZero(s: seq<byte>, ps: seq<Piece>, i: nat)
    requires Opens(s) && MadeOf(Body(s), ps) && i < |ps| && ps[i].Bad?
    ensures ParseString(s) == Some((CString(ValueAll(ps[..i])), s[ScanEnd(s, 1).value + 1..]))
  {
    PiecesRead(ps);
    ValueSplit(ps, i);
    CutAtZero(ValueAll(ps[..i]), ValueAll(ps[i + 1..]));
  }

  /** Of "\uZZZZa" nothing is left. */
  lemma BadDigitsExample(rest: seq<byte>)
    ensures ParseString([QUOTE] + [BACKSLASH, LETTER_U, 0x5A, 0x5A, 0x5A, 0x5A, 0x61] + [QUOTE] + rest)
      == Some(([], rest))
  {
    var z := [0x5A, 0x5A, 0x5A, 0x5A];
    var body := [BACKSLASH, LETTER_U] + z + [0x61];
    assert HexValue(z[0]) == 16;
    PassedEscape(LETTER_U);
    PassedPlainAll(z + [0x61]);
    PassedBoth([BACKSLASH, LETTER_U], z + [0x61]);
    assert [BACKSLASH, LETTER_U] + (z + [0x61]) == body;
    PieceRead(Bad(z), [0x61]);
    PieceRead(Raw(0x61), []);
    assert [0x61] + [] == [0x61] && [0] + [0x61] == [0, 0x61] && Unescape([]) == Some([]);
    LiteralValue(body, [0, 0x61], rest);
    assert body == [BACKSLASH, LETTER_U, 0x5A, 0x5A, 0x5A, 0x5A, 0x61];
  }

  /** The closing quote after "\u12" comes too early: refused. */
  lemma ShortEscapeExample(rest: seq<byte>)
    ensures ParseString([QUOTE] + [BACKSLASH, LETTER_U, 0x31, 0x32] + [QUOTE] + rest).None?
  {
    var body := [BACKSLASH, LETTER_U, 0x31, 0x32];
    var s := [QUOTE] + body + [QUOTE] + rest;
    PassedEscape(LETTER_U);
    PassedPlainAll([0x31, 0x32]);
    PassedBoth([BACKSLASH, LETTER_U], [0x31, 0x32]);
    assert [BACKSLASH, LETTER_U] + [0x31, 0x32] == body;
    LiteralEnd(body, rest);
    assert s[1..5] == body;
  }
}
