/** deps/cJSON.c: where the printer puts blanks and escapes, formatted and unformatted, in the terms of the grammar that
    the parser is specified by. */
module JsonLayout {
  import opened Bytes
  import opened Options
  import opened JsonStrings
  import opened JsonEscapes
  import opened JsonTables
  import opened JsonTree
  import opened JsonGrammar

  // ---- The layout -----------------------------------------------------------------------------------------------

  /** A byte stands for itself unless it is a control character, a quote or a backslash. Those have their short escape,
      or four digits, letters among them in lower case. */
  predicate MinimalPiece(p: Piece, b: byte) {
    match p
    case Raw(c) => c == b && b >= 32 && [b] != Ascii("\"") && [b] != Ascii("\\")
    case Escape(Short(letter)) => ShortMeaning(letter) == Some(b) && [letter] != Ascii("/")
    case Escape(Hex(digits)) =>
      && b < 32 && (forall letter :: ShortMeaning(letter) != Some(b))
      && IsHex(digits) && Hex4(digits) == b as int && forall i :: 0 <= i < 4 ==> digits[i] !in Ascii("ABCDEF")
    case _ => false
  }

  predicate Minimal(ps: seq<Piece>, s: seq<byte>) {
    |ps| == |s| && forall i :: 0 <= i < |ps| ==> MinimalPiece(ps[i], s[i])
  }

  function Indent(fmt: bool, tabs: nat): seq<byte> {
    if fmt then Ascii("\n") + seq(tabs, _ => Ascii("\t")[0]) else []
  }

  function Gap(fmt: bool, gap: string): seq<byte>
    requires forall i :: 0 <= i < |gap| ==> gap[i] as int < 0x80
  {
    if fmt then Ascii(gap) else []
  }

  /** x is tree t laid out at a depth: formatted, a space between elements, each member on a line of its own behind one
      tab for each brace and bracket around it, a tab between colon and value, and the closing brace on a line of its
      own; unformatted, no blank at all. */
  predicate Layout(x: Syntax, t: Json, fmt: bool, depth: nat)
    decreases x, 1
  {
    match x
    case NullWord => t.Null?
    case FalseWord => t.False?
    case TrueWord => t.True?
    case Literal(pieces) => t.Str? && Minimal(pieces, t.s)
    case Brackets(blank, es) => t.Arr? && blank == [] && LayoutElements(es, t.items, fmt, depth + 1, true)
    case Braces(blank, es) =>
      t.Obj? && blank == (if es == [] then Indent(fmt, depth) else []) && LayoutEntries(es, t.members, fmt, depth + 1)
  }

  predicate LayoutElements(es: seq<Element>, items: seq<Json>, fmt: bool, depth: nat, first: bool)
    decreases es, 0
  {
    |es| == |items| && (es == [] || (
      && es[0].before == (if first then [] else Gap(fmt, " ")) && es[0].after == []
      && Layout(es[0].value, items[0], fmt, depth)
      && LayoutElements(es[1..], items[1..], fmt, depth, false)))
  }

  predicate LayoutEntry(e: Entry, m: Member, fmt: bool, depth: nat)
    decreases e, 2
  {
    && e.before == Indent(fmt, depth) && Minimal(e.key, m.key) && e.between == [] && e.lead == Gap(fmt, "\t")
    && Layout(e.value, m.value, fmt, depth)
  }

  predicate LayoutEntries(es: seq<Entry>, members: seq<Member>, fmt: bool, depth: nat)
    requires depth > 0
    decreases es, 0
  {
    |es| == |members| && (es == [] || (
      && LayoutEntry(es[0], members[0], fmt, depth)
      && es[0].after == (if |es| == 1 then Indent(fmt, depth - 1) else [])
      && LayoutEntries(es[1..], members[1..], fmt, depth)))
  }

  // ---- Strings --------------------------------------------------------------------------------------------------

  lemma MinimalIs(p: Piece, b: byte)
    requires MinimalPiece(p, b)
    ensures ValidPiece(p) && Spelling(p) == EscapeByte(b) && Value(p) == [b]
    ensures !p.Stray?
  {
    Characters();
    assert Ascii("/") == [0x2F];
    assert Ascii("ABCDEF") == [0x41, 0x42, 0x43, 0x44, 0x45, 0x46];
    if p.Escape? && p.u.Hex? {
      assert ShortMeaning(ShortEscape(b)) == Some(b) || ShortEscape(b) == 0;
      HexIs(p.u.digits, b);
    }
  }

  lemma HexIs(d: seq<byte>, b: byte)
    requires IsHex(d) && Hex4(d) == b as int && b < 32
    requires forall i :: 0 <= i < 4 ==> d[i] !in [0x41, 0x42, 0x43, 0x44, 0x45, 0x46]
    ensures d == [0x30, 0x30, HexDigit(b as nat / 16), HexDigit(b as nat % 16)]
  {
    forall i | 0 <= i < 4 ensures d[i] == HexDigit(HexValue(d[i])) {
    }
    assert HexValue(d[0]) == 0 && HexValue(d[1]) == 0;
    assert HexValue(d[2]) == b as nat / 16 && HexValue(d[3]) == b as nat % 16;
  }

  function PieceOf(b: byte): (p: Piece)
    ensures MinimalPiece(p, b)
  {
    Characters();
    assert Ascii("/") == [0x2F];
    assert Ascii("ABCDEF") == [0x41, 0x42, 0x43, 0x44, 0x45, 0x46];
    if ShortEscape(b) != 0 then Escape(Short(ShortEscape(b)))
    else if b < 32 then Escape(Hex([0x30, 0x30, HexDigit(b as nat / 16), HexDigit(b as nat % 16)]))
    else Raw(b)
  }

  lemma {:induction false} MinimalReads(ps: seq<Piece>, s: seq<byte>)
    requires Minimal(ps, s)
    ensures ValidPieces(ps) && SpellingAll(ps) == Escaped(s) && ValueAll(ps) == s && Unbroken(Escaped(s))
  {
    if s != [] {
      MinimalReads(ps[1..], s[1..]);
      MinimalIs(ps[0], s[0]);
      ByteUnbroken(s[0], Escaped(s[1..]));
      assert ValidPieces(ps) by {
        assert forall i :: 0 < i < |ps| ==> ps[i] == ps[1..][i - 1];
      }
      assert s == [s[0]] + s[1..];
    }
  }

  lemma ByteUnbroken(b: byte, more: seq<byte>)
    ensures Unbroken(EscapeByte(b) + more) == Unbroken(more)
  {
    Characters();
    var s := EscapeByte(b);
    if |s| == 2 {
      assert (s + more)[2..] == more;
    } else if |s| == 1 {
      assert (s + more)[1..] == more;
    } else {
      var d := s[2..] + more;
      assert (s + more)[2..] == d && d[1..][1..][1..][1..] == more;
      assert Unbroken(d) == Unbroken(d[1..]) == Unbroken(d[1..][1..]) == Unbroken(d[1..][1..][1..]);
    }
  }

  lemma LiteralLaid(ps: seq<Piece>, s: seq<byte>, q: seq<byte>)
    requires Minimal(ps, s)
    ensures GoodLiteral(ps) && LiteralText(ps, q) == Printed(s) + q
    ensures 0 !in s ==> StringOf(ps) == s
  {
    Characters();
    MinimalReads(ps, s);
    WholeCString(s);
    Assoc([QUOTE] + Escaped(s), [QUOTE], q);
  }

  lemma {:induction false} MinimalExists(s: seq<byte>) returns (ps: seq<Piece>)
    ensures Minimal(ps, s)
  {
    ps := seq(|s|, i requires 0 <= i < |s| => PieceOf(s[i]));
  }

  // ---- Trees ----------------------------------------------------------------------------------------------------

  lemma GapIs(fmt: bool, b: seq<byte>, q: seq<byte>)
    ensures (if fmt then b else []) + q == If(fmt, b, q)
  {
  }

  lemma IndentIs(fmt: bool, tabs: nat, q: seq<byte>)
    ensures Indent(fmt, tabs) + q == If(fmt, [NEWLINE], If(fmt, Tabs(tabs), q))
  {
    assert Ascii("\n") == [NEWLINE] && Ascii("\t") == [TAB];
    assert seq(tabs, _ => Ascii("\t")[0]) == Tabs(tabs);
    Assoc([NEWLINE], Tabs(tabs), q);
  }

  /** A tree's printed text is the text of its layout. */
  lemma {:induction false} Laid(x: Syntax, t: Json, fmt: bool, depth: nat, q: seq<byte>)
    requires Layout(x, t, fmt, depth)
    ensures Good(x) && Show(x, q) == Then(t, fmt, depth, q)
    ensures NulFree(t) ==> Meaning(x) == t
    decreases x, 1
  {
    Characters();
    Words();
    match x
    case NullWord =>
    case FalseWord =>
    case TrueWord =>
    case Literal(ps) => LiteralLaid(ps, t.s, q);
    case Brackets(_, _) => BracketsLaid(x, t, fmt, depth, q);
    case Braces(_, _) => BracesLaid(x, t, fmt, depth, q);
  }

  lemma {:induction false} BracketsLaid(x: Syntax, t: Json, fmt: bool, depth: nat, q: seq<byte>)
    requires x.Brackets? && Layout(x, t, fmt, depth)
    ensures Good(x) && Show(x, q) == Then(t, fmt, depth, q)
    ensures NulFree(t) ==> Meaning(x) == t
    decreases x, 0
  {
    Characters();
    ElementsLaid(x.elements, t.items, fmt, depth + 1, true, q);
    assert [] + ([RBRACKET] + q) == [RBRACKET] + q;
  }

  lemma {:induction false} BracesLaid(x: Syntax, t: Json, fmt: bool, depth: nat, q: seq<byte>)
    requires x.Braces? && Layout(x, t, fmt, depth)
    ensures Good(x) && Show(x, q) == Then(t, fmt, depth, q)
    ensures NulFree(t) ==> Meaning(x) == t
    decreases x, 0
  {
    Characters();
    EntriesLaid(x.entries, t.members, fmt, depth + 1, q);
    IndentIs(fmt, depth, [RBRACE] + q);
  }

  lemma {:induction false} ElementsLaid(es: seq<Element>, items: seq<Json>, fmt: bool, depth: nat, first: bool,
                                        q: seq<byte>)
    requires LayoutElements(es, items, fmt, depth, first)
    ensures GoodElements(es)
    ensures es != [] ==> ShowElements(es, q) == If(!first && fmt, [SPACE], ItemsThen(items, fmt, depth, q))
    ensures NulFreeItems(items) ==> Items(es) == items
    decreases es, 0
  {
    Characters();
    if es != [] {
      ElementsLaid(es[1..], items[1..], fmt, depth, false, q);
      var more := MoreItems(items, fmt, depth, q);
      ElementLaid(es[0], items[0], fmt, depth, first, more);
      AfterElementLaid(es, items, fmt, depth, q);
      ItemsJoined(es, items);
    }
  }

  lemma ItemsJoined(es: seq<Element>, items: seq<Json>)
    requires |es| == |items| && es != [] && GoodElements(es)
    ensures Items(es) == items <==> Meaning(es[0].value) == items[0] && Items(es[1..]) == items[1..]
  {
    assert items == [items[0]] + items[1..];
    assert Items(es)[0] == Meaning(es[0].value) && Items(es)[1..] == Items(es[1..]);
  }

  lemma AfterElementLaid(es: seq<Element>, items: seq<Json>, fmt: bool, depth: nat, q: seq<byte>)
    requires |es| == |items| && es != [] && GoodElements(es)
    requires |es| > 1 ==> ShowElements(es[1..], q) == If(fmt, [SPACE], ItemsThen(items[1..], fmt, depth, q))
    ensures AfterElement(es, q) == MoreItems(items, fmt, depth, q)
  {
    Characters();
  }

  lemma {:induction false} ElementLaid(e: Element, t: Json, fmt: bool, depth: nat, first: bool, more: seq<byte>)
    requires e.before == (if first then [] else Gap(fmt, " ")) && e.after == [] && Layout(e.value, t, fmt, depth)
    ensures GoodElement(e) && (NulFree(t) ==> Meaning(e.value) == t)
    ensures e.before + Show(e.value, e.after + more) == If(!first && fmt, [SPACE], Then(t, fmt, depth, more))
    decreases e, 2
  {
    assert Ascii(" ") == [SPACE] && [] + more == more;
    Laid(e.value, t, fmt, depth, more);
    GapIs(!first && fmt, [SPACE], Then(t, fmt, depth, more));
  }

  lemma {:induction false} EntriesLaid(es: seq<Entry>, members: seq<Member>, fmt: bool, depth: nat, q: seq<byte>)
    requires depth > 0 && LayoutEntries(es, members, fmt, depth)
    ensures GoodEntries(es)
    ensures es != [] ==> ShowEntries(es, q) == If(fmt, [NEWLINE], MembersThen(members, fmt, depth, q))
    ensures NulFreeMembers(members) ==> Members(es) == members
    decreases es, 0
  {
    Characters();
    if es != [] {
      EntriesLaid(es[1..], members[1..], fmt, depth, q);
      var more := MoreMembers(members, fmt, depth, q);
      var after := if |es| == 1 then Ascii("}") + q else Ascii(",") + ShowEntries(es[1..], q);
      AfterLaid(es, members, fmt, depth, q, after);
      EntryLaid(es[0], members[0], fmt, depth, after, more);
    }
  }

  /** What follows an entry: blanks of its own behind the last one, a comma behind the others */
  lemma AfterLaid(es: seq<Entry>, members: seq<Member>, fmt: bool, depth: nat, q: seq<byte>, after: seq<byte>)
    requires depth > 0 && LayoutEntries(es, members, fmt, depth) && es != [] && GoodEntries(es[1..])
    requires |es| > 1 ==> ShowEntries(es[1..], q) == If(fmt, [NEWLINE], MembersThen(members[1..], fmt, depth, q))
    requires after == if |es| == 1 then Ascii("}") + q else Ascii(",") + ShowEntries(es[1..], q)
    ensures Blank(es[0].after) && es[0].after + after == MoreMembers(members, fmt, depth, q)
  {
    Characters();
    if |es| == 1 {
      assert members[1..] == [];
      IndentIs(fmt, depth - 1, [RBRACE] + q);
    } else {
      assert [] + after == after;
    }
  }

  lemma {:induction false} EntryLaid(e: Entry, m: Member, fmt: bool, depth: nat, q: seq<byte>, more: seq<byte>)
    requires LayoutEntry(e, m, fmt, depth) && Blank(e.after) && e.after + q == more
    ensures GoodEntry(e)
    ensures ShowEntry(e, q) == If(fmt, [NEWLINE], If(fmt, Tabs(depth), MemberThen(m, fmt, depth, more)))
    ensures 0 !in m.key && NulFree(m.value) ==> MemberOf(e) == m
    decreases e, 2
  {
    Characters();
    assert Ascii("\t") == [TAB];
    Laid(e.value, m.value, fmt, depth, more);
    var value := Then(m.value, fmt, depth, more);
    GapIs(fmt, [TAB], value);
    var colon := [COLON] + If(fmt, [TAB], value);
    assert [] + colon == colon;
    LiteralLaid(e.key, m.key, colon);
    IndentIs(fmt, depth, MemberThen(m, fmt, depth, more));
  }

  /** Every tree has a layout. */
  lemma {:induction false} LayoutExists(t: Json, fmt: bool, depth: nat) returns (x: Syntax)
    ensures Layout(x, t, fmt, depth)
    decreases t, 1
  {
    match t
    case Null => x := NullWord;
    case False => x := FalseWord;
    case True => x := TrueWord;
    case Str(s) =>
      var ps := MinimalExists(s);
      x := Literal(ps);
    case Arr(items) =>
      var es := ElementsExist(items, fmt, depth + 1, true);
      x := Brackets([], es);
    case Obj(members) =>
      var es := EntriesExist(members, fmt, depth + 1);
      x := Braces(if es == [] then Indent(fmt, depth) else [], es);
  }

  lemma {:induction false} ElementsExist(items: seq<Json>, fmt: bool, depth: nat, first: bool) returns (es: seq<Element>)
    ensures LayoutElements(es, items, fmt, depth, first)
    decreases items, 0
  {
    es := [];
    if items != [] {
      var x := LayoutExists(items[0], fmt, depth);
      var more := ElementsExist(items[1..], fmt, depth, false);
      es := [Element(if first then [] else Gap(fmt, " "), x, [])] + more;
      assert es[1..] == more;
    }
  }

  lemma {:induction false} EntriesExist(members: seq<Member>, fmt: bool, depth: nat) returns (es: seq<Entry>)
    requires depth > 0
    ensures LayoutEntries(es, members, fmt, depth)
    decreases members, 0
  {
    es := [];
    if members != [] {
      var x := LayoutExists(members[0].value, fmt, depth);
      var key := MinimalExists(members[0].key);
      var more := EntriesExist(members[1..], fmt, depth);
      var after := if |members| == 1 then Indent(fmt, depth - 1) else [];
      es := [Entry(Indent(fmt, depth), key, [], Gap(fmt, "\t"), x, after)] + more;
      assert es[1..] == more;
    }
  }

  /** cJSON_Print and cJSON_PrintUnformatted write a text of the grammar that means the tree and has its blanks and
      escapes exactly where the layout puts them. */
  lemma PrintedExactly(t: Json, fmt: bool, text: seq<byte>)
    requires NulFree(t)
    ensures Text(t, fmt) == text
      <==> exists x :: Layout(x, t, fmt, 0) && Good(x) && Meaning(x) == t && Show(x, []) == text
  {
    var x := LayoutExists(t, fmt, 0);
    Laid(x, t, fmt, 0, []);
    if y :| Layout(y, t, fmt, 0) && Good(y) && Meaning(y) == t && Show(y, []) == text {
      Laid(y, t, fmt, 0, []);
    }
  }

  // ---- Formatted and unformatted ----------------------------------------------------------------------------------

  /** x without its blanks */
  function Stripped(x: Syntax): Syntax
    decreases x, 1
  {
    match x
    case Brackets(_, es) => Brackets([], StrippedElements(es))
    case Braces(_, es) => Braces([], StrippedEntries(es))
    case _ => x
  }

  function StrippedElements(es: seq<Element>): (r: seq<Element>)
    ensures |r| == |es|
    decreases es, 0
  {
    if es == [] then [] else [Element([], Stripped(es[0].value), [])] + StrippedElements(es[1..])
  }

  function StrippedEntry(e: Entry): Entry
    decreases e, 2
  {
    Entry([], e.key, [], [], Stripped(e.value), [])
  }

  function StrippedEntries(es: seq<Entry>): (r: seq<Entry>)
    ensures |r| == |es|
    decreases es, 0
  {
    if es == [] then [] else [StrippedEntry(es[0])] + StrippedEntries(es[1..])
  }

  /** The unformatted text is the formatted one without the blanks between its words, literals, brackets, braces, commas
      and colons. */
  lemma {:induction false} UnformattedIsStripped(x: Syntax, t: Json, fmt: bool, depth: nat)
    requires Layout(x, t, fmt, depth)
    ensures Layout(Stripped(x), t, false, depth)
    decreases x, 1
  {
    match x
    case Brackets(_, es) =>
      ElementsStripped(es, t.items, fmt, depth + 1, true);
      assert Stripped(x) == Brackets([], StrippedElements(es));
    case Braces(_, es) =>
      EntriesStripped(es, t.members, fmt, depth + 1);
      assert Stripped(x) == Braces([], StrippedEntries(es));
    case _ =>
  }

  lemma {:induction false} ElementsStripped(es: seq<Element>, items: seq<Json>, fmt: bool, depth: nat, first: bool)
    requires LayoutElements(es, items, fmt, depth, first)
    ensures LayoutElements(StrippedElements(es), items, false, depth, first)
    decreases es, 0
  {
    if es != [] {
      assert LayoutElements(es[1..], items[1..], fmt, depth, false);
      UnformattedIsStripped(es[0].value, items[0], fmt, depth);
      ElementsStripped(es[1..], items[1..], fmt, depth, false);
      assert StrippedElements(es)[1..] == StrippedElements(es[1..]);
    }
  }

  lemma {:induction false} EntriesStripped(es: seq<Entry>, members: seq<Member>, fmt: bool, depth: nat)
    requires depth > 0 && LayoutEntries(es, members, fmt, depth)
    ensures LayoutEntries(StrippedEntries(es), members, false, depth)
    decreases es, 0
  {
    if es != [] {
      EntryStripped(es[0], members[0], fmt, depth);
      EntriesStripped(es[1..], members[1..], fmt, depth);
      var r := StrippedEntries(es);
      assert r[0] == StrippedEntry(es[0]) && r[1..] == StrippedEntries(es[1..]);
      assert r[0].after == [] == Indent(false, depth - 1);
    }
  }

  lemma {:induction false} EntryStripped(e: Entry, m: Member, fmt: bool, depth: nat)
    requires LayoutEntry(e, m, fmt, depth)
    ensures LayoutEntry(StrippedEntry(e), m, false, depth)
    decreases e, 2
  {
    UnformattedIsStripped(e.value, m.value, fmt, depth);
  }

  /** The same about the texts */
  lemma StrippedText(t: Json, x: Syntax)
    requires NulFree(t) && Layout(x, t, true, 0)
    ensures Good(x) && Show(x, []) == Text(t, true)
    ensures Good(Stripped(x)) && Show(Stripped(x), []) == Text(t, false)
  {
    UnformattedIsStripped(x, t, true, 0);
    Laid(x, t, true, 0, []);
    Laid(Stripped(x), t, false, 0, []);
  }
}
