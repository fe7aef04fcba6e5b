/** deps/cJSON.c: which texts are accepted and what they are read as. The reference is a grammar: RFC 8259 section 2
    without numbers, with any bytes up to 32 as blanks and with the string literals of JsonEscapes. */
module JsonGrammar {
  import opened Bytes
  import opened Options
  import opened JsonStrings
  import opened JsonEscapes
  import opened JsonTables
  import opened JsonTree

  /** A text taken apart. Brackets and braces have a blank of their own only when nothing stands between them. */
  datatype Syntax =
    | NullWord | FalseWord | TrueWord
    | Literal(pieces: seq<Piece>)
    | Brackets(blank: seq<byte>, elements: seq<Element>)
    | Braces(blank: seq<byte>, entries: seq<Entry>)

  datatype Element = Element(before: seq<byte>, value: Syntax, after: seq<byte>)

  /** Blanks before the key, between key and colon, between colon and value, and behind the value */
  datatype Entry = Entry(before: seq<byte>, key: seq<Piece>, between: seq<byte>, lead: seq<byte>, value: Syntax,
                         after: seq<byte>)

  // ---- Texts ------------------------------------------------------------------------------------------------

  /** No quote in b ends the literal: each stands behind a backslash, and no backslash is left alone at the end. */
  predicate Unbroken(b: seq<byte>)
    decreases |b|
  {
    if b == [] then true
    else if b[0] as int == '\\' as int then |b| >= 2 && Unbroken(b[2..])
    else b[0] as int != '\"' as int && Unbroken(b[1..])
  }

  predicate GoodLiteral(pieces: seq<Piece>) {
    ValidPieces(pieces) && Unbroken(SpellingAll(pieces))
  }

  predicate Good(x: Syntax)
    decreases x, 1
  {
    match x
    case Literal(pieces) => GoodLiteral(pieces)
    case Brackets(blank, elements) => Blank(blank) && GoodElements(elements)
    case Braces(blank, entries) => Blank(blank) && GoodEntries(entries)
    case _ => true
  }

  predicate GoodElements(es: seq<Element>)
    decreases es, 0
  {
    es == [] || (Blank(es[0].before) && Good(es[0].value) && Blank(es[0].after) && GoodElements(es[1..]))
  }

  predicate GoodEntry(e: Entry)
    decreases e, 2
  {
    && Blank(e.before) && GoodLiteral(e.key) && Blank(e.between)
    && Blank(e.lead) && Good(e.value) && Blank(e.after)
  }

  predicate GoodEntries(es: seq<Entry>)
    decreases es, 0
  {
    es == [] || (GoodEntry(es[0]) && GoodEntries(es[1..]))
  }

  function LiteralText(pieces: seq<Piece>, q: seq<byte>): seq<byte>
    requires GoodLiteral(pieces)
  {
    Ascii("\"") + SpellingAll(pieces) + (Ascii("\"") + q)
  }

  /** The text of x with q behind it */
  function Show(x: Syntax, q: seq<byte>): seq<byte>
    requires Good(x)
    decreases x, 1
  {
    match x
    case NullWord => Ascii("null") + q
    case FalseWord => Ascii("false") + q
    case TrueWord => Ascii("true") + q
    case Literal(pieces) => LiteralText(pieces, q)
    case Brackets(blank, elements) =>
      Ascii("[") + if elements == [] then blank + (Ascii("]") + q) else ShowElements(elements, q)
    case Braces(blank, entries) =>
      Ascii("{") + if entries == [] then blank + (Ascii("}") + q) else ShowEntries(entries, q)
  }

  function ShowElements(es: seq<Element>, q: seq<byte>): seq<byte>
    requires GoodElements(es) && es != []
    decreases es, 0
  {
    es[0].before + Show(es[0].value, es[0].after + AfterElement(es, q))
  }

  function AfterElement(es: seq<Element>, q: seq<byte>): seq<byte>
    requires GoodElements(es) && es != []
    decreases es[1..], 1
  {
    if |es| == 1 then Ascii("]") + q else Ascii(",") + ShowElements(es[1..], q)
  }

  function ShowEntry(e: Entry, q: seq<byte>): seq<byte>
    requires GoodEntry(e)
    decreases e, 2
  {
    e.before + LiteralText(e.key, e.between + (Ascii(":") + (e.lead + Show(e.value, e.after + q))))
  }

  function ShowEntries(es: seq<Entry>, q: seq<byte>): seq<byte>
    requires GoodEntries(es) && es != []
    decreases es, 0
  {
    ShowEntry(es[0], AfterEntry(es, q))
  }

  function AfterEntry(es: seq<Entry>, q: seq<byte>): seq<byte>
    requires GoodEntries(es) && es != []
    decreases es[1..], 1
  {
    if |es| == 1 then Ascii("}") + q else Ascii(",") + ShowEntries(es[1..], q)
  }

  // ---- Meanings ---------------------------------------------------------------------------------------------

  /** A literal stands for the C string that its pieces begin with. */
  function StringOf(pieces: seq<Piece>): seq<byte>
    requires GoodLiteral(pieces)
  {
    CString(ValueAll(pieces))
  }

  function Meaning(x: Syntax): Json
    requires Good(x)
    decreases x, 1
  {
    match x
    case NullWord => Null
    case FalseWord => False
    case TrueWord => True
    case Literal(pieces) => Str(StringOf(pieces))
    case Brackets(_, elements) => Arr(Items(elements))
    case Braces(_, entries) => Obj(Members(entries))
  }

  function Items(es: seq<Element>): (items: seq<Json>)
    requires GoodElements(es)
    ensures |items| == |es|
    decreases es, 0
  {
    if es == [] then [] else [Meaning(es[0].value)] + Items(es[1..])
  }

  function Members(es: seq<Entry>): (members: seq<Member>)
    requires GoodEntries(es)
    ensures |members| == |es|
    decreases es, 0
  {
    if es == [] then [] else [MemberOf(es[0])] + Members(es[1..])
  }

  function MemberOf(e: Entry): Member
    requires GoodEntry(e)
    decreases e, 2
  {
    Member(StringOf(e.key), Meaning(e.value))
  }

  /** The value may stand at the depth. */
  predicate Fits(t: Json, depth: nat) {
    depth + Nesting(t) <= NESTING_LIMIT || Nesting(t) == 0
  }

  predicate FitsItems(items: seq<Json>, depth: nat) {
    depth + NestingOfItems(items) <= NESTING_LIMIT
  }

  predicate FitsMembers(members: seq<Member>, depth: nat) {
    depth + NestingOfMembers(members) <= NESTING_LIMIT
  }

  // ---- Literals ---------------------------------------------------------------------------------------------

  lemma Characters()
    ensures Ascii("\"") == [QUOTE] && Ascii("[") == [LBRACKET] && Ascii("]") == [RBRACKET]
    ensures Ascii("{") == [LBRACE] && Ascii("}") == [RBRACE] && Ascii(",") == [COMMA] && Ascii(":") == [COLON]
    ensures QUOTE as int == '\"' as int && BACKSLASH as int == '\\' as int
  {
  }

  lemma Words()
    ensures Ascii("null") == TextNull() && Ascii("false") == TextFalse() && Ascii("true") == TextTrue()
  {
  }

  /** The literal ends at the first quote that no backslash escapes. */
  lemma {:induction false} EndIs(s: seq<byte>, i: nat, e: nat)
    requires i <= e < |s|
    ensures ScanEnd(s, i) == Some(e) <==> s[e] == QUOTE && Unbroken(s[i..e])
    decreases |s| - i
  {
    if i < e {
      if s[i] == BACKSLASH {
        if i + 2 <= e {
          assert s[i..e][2..] == s[i + 2..e];
          EndIs(s, i + 2, e);
        }
      } else {
        assert s[i..e][1..] == s[i + 1..e];
        EndIs(s, i + 1, e);
      }
    }
  }

  /** A literal is read as what it stands for, whatever follows. */
  lemma LiteralRead(pieces: seq<Piece>, q: seq<byte>)
    requires GoodLiteral(pieces)
    ensures ParseString(LiteralText(pieces, q)) == Some((StringOf(pieces), q))
  {
    Characters();
    var s, body := LiteralText(pieces, q), SpellingAll(pieces);
    var e := 1 + |body|;
    assert s[1..e] == body && s[e] == QUOTE && s[e + 1..] == q;
    EndIs(s, 1, e);
    PiecesRead(pieces);
  }

  /** What is accepted as a literal is one. */
  lemma LiteralStands(s: seq<byte>) returns (pieces: seq<Piece>)
    requires ParseString(s).Some?
    ensures GoodLiteral(pieces) && LiteralText(pieces, ParseString(s).value.1) == s
    ensures StringOf(pieces) == ParseString(s).value.0
  {
    var e := ScanEnd(s, 1).value;
    EndIs(s, 1, e);
    pieces := Pieces(s[1..e]);
    PiecesRead(pieces);
    LiteralRejoined(s, e, pieces);
  }

  lemma LiteralRejoined(s: seq<byte>, e: nat, pieces: seq<Piece>)
    requires 1 <= e < |s| && s[0] == QUOTE && s[e] == QUOTE && Unbroken(s[1..e])
    requires ValidPieces(pieces) && SpellingAll(pieces) == s[1..e]
    ensures LiteralText(pieces, s[e + 1..]) == s
  {
    Characters();
    CutAt(s, e);
  }

  lemma CutAt(s: seq<byte>, e: nat)
    requires 1 <= e < |s|
    ensures s == [s[0]] + s[1..e] + ([s[e]] + s[e + 1..])
  {
    assert s == s[..e] + s[e..];
  }

  // ---- Acceptance -------------------------------------------------------------------------------------------

  lemma FirstIs(x: Syntax, q: seq<byte>)
    requires Good(x)
    ensures var s := Show(x, q); s != [] && 32 < s[0] < 0x80 && s[0] != RBRACKET && s[0] != RBRACE
  {
    Characters();
    Words();
  }

  /** Every text of the grammar within the nesting limit is read as what it means, whatever follows. */
  lemma {:induction false} ValueRead(x: Syntax, depth: nat, q: seq<byte>)
    requires Good(x) && Fits(Meaning(x), depth)
    ensures ParseValue(Show(x, q), depth) == Some((Meaning(x), q))
    decreases x, 2
  {
    var s := Show(x, q);
    Characters();
    Words();
    FirstIs(x, q);
    Keywords(s);
    match x
    case NullWord => assert s[4..] == q;
    case FalseWord => assert s[0] == TextFalse()[0] && s[5..] == q;
    case TrueWord => assert s[0] == TextTrue()[0] && s[4..] == q;
    case Literal(pieces) => LiteralRead(pieces, q);
    case Brackets(blank, elements) => ArrayRead(blank, elements, depth, q);
    case Braces(blank, entries) => ObjectRead(blank, entries, depth, q);
  }

  lemma {:induction false} ArrayRead(blank: seq<byte>, es: seq<Element>, depth: nat, q: seq<byte>)
    requires Blank(blank) && GoodElements(es) && FitsItems(Items(es), depth + 1)
    ensures ParseArray(Show(Brackets(blank, es), q), depth) == Some((Items(es), q))
    decreases es, 1
  {
    Characters();
    var s := Show(Brackets(blank, es), q);
    if es == [] {
      assert s[1..] == blank + ([RBRACKET] + q);
      SkipBlanks(blank, [RBRACKET] + q);
      assert ([RBRACKET] + q)[1..] == q;
    } else {
      assert s[1..] == ShowElements(es, q);
      var first := Show(es[0].value, es[0].after + AfterElement(es, q));
      FirstIs(es[0].value, es[0].after + AfterElement(es, q));
      SkipBlanks(es[0].before, first);
      SkipNothing(first);
      ElementsRead(es, depth + 1, first, q);
    }
  }

  lemma {:induction false} ElementsRead(es: seq<Element>, depth: nat, s: seq<byte>, q: seq<byte>)
    requires GoodElements(es) && es != [] && FitsItems(Items(es), depth)
    requires Skip(s) == Show(es[0].value, es[0].after + AfterElement(es, q))
    ensures ParseItems(s, depth) == Some((Items(es), q))
    decreases es, 0
  {
    Characters();
    var after := AfterElement(es, q);
    ValueRead(es[0].value, depth, es[0].after + after);
    SkipBlanks(es[0].after, after);
    if |es| == 1 {
      assert after[1..] == q && es[1..] == [];
      assert Items(es) == [Meaning(es[0].value)];
    } else {
      assert after[1..] == ShowElements(es[1..], q);
      var next := Show(es[1].value, es[1].after + AfterElement(es[1..], q));
      FirstIs(es[1].value, es[1].after + AfterElement(es[1..], q));
      SkipBlanks(es[1].before, next);
      ElementsRead(es[1..], depth, after[1..], q);
    }
  }

  lemma {:induction false} ObjectRead(blank: seq<byte>, es: seq<Entry>, depth: nat, q: seq<byte>)
    requires Blank(blank) && GoodEntries(es) && FitsMembers(Members(es), depth + 1)
    ensures ParseObject(Show(Braces(blank, es), q), depth) == Some((Members(es), q))
    decreases es, 1
  {
    Characters();
    var s := Show(Braces(blank, es), q);
    if es == [] {
      assert s[1..] == blank + ([RBRACE] + q);
      SkipBlanks(blank, [RBRACE] + q);
      assert ([RBRACE] + q)[1..] == q;
    } else {
      assert s[1..] == ShowEntries(es, q);
      var first := FromKey(es[0], AfterEntry(es, q));
      SkipBlanks(es[0].before, first);
      SkipNothing(first);
      EntriesRead(es, depth + 1, first, q);
    }
  }

  /** An entry from its key on */
  function FromKey(e: Entry, q: seq<byte>): (s: seq<byte>)
    requires GoodEntry(e)
    ensures ShowEntry(e, q) == e.before + s && s != [] && s[0] == QUOTE
  {
    Characters();
    LiteralText(e.key, e.between + (Ascii(":") + (e.lead + Show(e.value, e.after + q))))
  }

  lemma {:induction false} EntriesRead(es: seq<Entry>, depth: nat, s: seq<byte>, q: seq<byte>)
    requires GoodEntries(es) && es != [] && FitsMembers(Members(es), depth)
    requires Skip(s) == FromKey(es[0], AfterEntry(es, q))
    ensures ParseMembers(s, depth) == Some((Members(es), q))
    decreases es, 0
  {
    Characters();
    var after := AfterEntry(es, q);
    assert Members(es)[0] == MemberOf(es[0]);
    EntryRead(es[0], depth, s, after);
    if |es| == 1 {
      assert after[1..] == q && es[1..] == [];
      assert Members(es) == [MemberOf(es[0])];
    } else {
      assert after[1..] == ShowEntries(es[1..], q);
      SkipBlanks(es[1].before, FromKey(es[1], AfterEntry(es[1..], q)));
      EntriesRead(es[1..], depth, after[1..], q);
    }
  }

  lemma {:induction false} EntryRead(e: Entry, depth: nat, s: seq<byte>, q: seq<byte>)
    requires GoodEntry(e) && Fits(Meaning(e.value), depth) && q != [] && q[0] > 32 && Skip(s) == FromKey(e, q)
    ensures ParseMember(s, depth) == Some((MemberOf(e), q))
    decreases e, 3
  {
    Characters();
    var value := Show(e.value, e.after + q);
    var colon := Ascii(":") + (e.lead + value);
    LiteralRead(e.key, e.between + colon);
    SkipBlanks(e.between, colon);
    assert colon[1..] == e.lead + value;
    FirstIs(e.value, e.after + q);
    SkipBlanks(e.lead, value);
    ValueRead(e.value, depth, e.after + q);
    SkipBlanks(e.after, q);
  }

  // ---- Refusal ----------------------------------------------------------------------------------------------

  /** s is the text of x with rest behind it, and x means t. */
  predicate Reads(x: Syntax, s: seq<byte>, t: Json, rest: seq<byte>) {
    Good(x) && Show(x, rest) == s && Meaning(x) == t
  }

  lemma {:induction false} BlanksBefore(s: seq<byte>)
    ensures var r := DropBlanks(s); Blank(s[..|s| - |r|]) && s == s[..|s| - |r|] + r
  {
    if s != [] && s[0] <= 32 {
      BlanksBefore(s[1..]);
      var n := |s[1..]| - |DropBlanks(s[1..])|;
      assert s[..n + 1] == [s[0]] + s[1..][..n];
      assert s[1..] == s[1..][..n] + DropBlanks(s);
      assert s == [s[0]] + s[1..];
    }
  }

  /** The blanks that are skipped in front of something */
  lemma Skipped(s: seq<byte>) returns (b: seq<byte>)
    requires Skip(s) != [] && Skip(s)[0] > 32
    ensures Blank(b) && s == b + Skip(s)
  {
    BlanksBefore(s);
    b := s[..|s| - |DropBlanks(s)|];
  }

  lemma StartIs(s: seq<byte>, depth: nat)
    requires ParseValue(s, depth).Some?
    ensures s != [] && s[0] > 32
  {
    assert TextNull() <= s ==> s[0] == TextNull()[0];
    assert TextFalse() <= s ==> s[0] == TextFalse()[0];
    assert TextTrue() <= s ==> s[0] == TextTrue()[0];
  }

  /** What is accepted as a value is a text of the grammar within the nesting limit. */
  lemma {:induction false} ValueStands(s: seq<byte>, depth: nat) returns (x: Syntax)
    requires ParseValue(s, depth).Some?
    ensures var (t, rest) := ParseValue(s, depth).value; Reads(x, s, t, rest) && Fits(t, depth)
    decreases |s|, 1
  {
    Words();
    if TextNull() <= s {
      x := NullWord;
    } else if TextFalse() <= s {
      x := FalseWord;
    } else if TextTrue() <= s {
      x := TrueWord;
    } else if Starts(s, QUOTE) {
      var pieces := LiteralStands(s);
      x := Literal(pieces);
    } else if Starts(s, LBRACKET) {
      x := ArrayStands(s, depth);
    } else {
      x := ObjectStands(s, depth);
    }
  }

  lemma {:induction false} ArrayStands(s: seq<byte>, depth: nat) returns (x: Syntax)
    requires Starts(s, LBRACKET) && ParseArray(s, depth).Some?
    ensures var (items, rest) := ParseArray(s, depth).value; Reads(x, s, Arr(items), rest) && Fits(Arr(items), depth)
    decreases |s|, 0
  {
    var first := Skip(s[1..]);
    if Starts(first, RBRACKET) {
      x := EmptyBrackets(s);
    } else {
      StartOfItems(first, depth + 1);
      var es := ElementsStand(first, depth + 1);
      x := ArrayOf(s, es, ParseArray(s, depth).value.1);
    }
  }

  lemma EmptyBrackets(s: seq<byte>) returns (x: Syntax)
    requires Starts(s, LBRACKET) && Starts(Skip(s[1..]), RBRACKET)
    ensures Reads(x, s, Arr([]), Skip(s[1..])[1..])
  {
    Characters();
    var close := Skip(s[1..]);
    var blank := Skipped(s[1..]);
    x := Brackets(blank, []);
    assert s == [LBRACKET] + (blank + ([RBRACKET] + close[1..]));
  }

  /** The elements with the blanks that were skipped in front of them */
  lemma ArrayOf(s: seq<byte>, es: seq<Element>, q: seq<byte>) returns (x: Syntax)
    requires Starts(s, LBRACKET) && GoodElements(es) && es != [] && ShowElements(es, q) == Skip(s[1..])
    requires Skip(Skip(s[1..])) != [] && Skip(Skip(s[1..]))[0] > 32
    ensures Reads(x, s, Arr(Items(es)), q)
  {
    Characters();
    SkipTwice(s[1..]);
    var blank := Skipped(s[1..]);
    assert s == [LBRACKET] + s[1..];
    x := Brackets([], [es[0].(before := blank + es[0].before)] + es[1..]);
    BlankInFront(blank, es, q);
  }

  lemma StartOfItems(s: seq<byte>, depth: nat)
    requires ParseItems(s, depth).Some?
    ensures Skip(s) != [] && Skip(s)[0] > 32
  {
    StartIs(Skip(s), depth);
  }

  lemma SkipTwice(s: seq<byte>)
    ensures Skip(Skip(s)) == Skip(s)
  {
    var r := Skip(s);
    if r != [] && r[0] > 32 {
      SkipNothing(r);
    } else if r != [] {
      assert DropBlanks(r[1..]) == [];
    }
  }

  lemma BlankInFront(blank: seq<byte>, es: seq<Element>, q: seq<byte>)
    requires Blank(blank) && GoodElements(es) && es != []
    ensures var es' := [es[0].(before := blank + es[0].before)] + es[1..];
      && GoodElements(es') && Items(es') == Items(es)
      && ShowElements(es', q) == blank + ShowElements(es, q)
  {
    var es' := [es[0].(before := blank + es[0].before)] + es[1..];
    assert es'[1..] == es[1..];
    assert AfterElement(es', q) == AfterElement(es, q);
  }

  /** Elements up to the closing bracket */
  lemma {:induction false} ElementsStand(s: seq<byte>, depth: nat) returns (es: seq<Element>)
    requires ParseItems(s, depth).Some?
    ensures es != [] && GoodElements(es)
    ensures var (items, rest) := ParseItems(s, depth).value;
      ShowElements(es, rest) == s && Items(es) == items && (depth <= NESTING_LIMIT ==> FitsItems(items, depth))
    decreases |s|, 3
  {
    Characters();
    var close := Skip(ParseValue(Skip(s), depth).value.1);
    var e := ElementStands(s, depth);
    assert close == [close[0]] + close[1..];
    var more := [];
    if Starts(close, COMMA) {
      more := ElementsStand(close[1..], depth);
    }
    es := [e] + more;
    OneMoreElement(e, more, ParseItems(s, depth).value.1);
  }

  predicate GoodElement(e: Element) {
    Blank(e.before) && Good(e.value) && Blank(e.after)
  }

  lemma {:induction false} ElementStands(s: seq<byte>, depth: nat) returns (e: Element)
    requires ParseValue(Skip(s), depth).Some?
    requires var close := Skip(ParseValue(Skip(s), depth).value.1); close != [] && close[0] > 32
    ensures var (t, behind) := ParseValue(Skip(s), depth).value;
      && GoodElement(e) && e.before + Show(e.value, e.after + Skip(behind)) == s
      && Meaning(e.value) == t && Fits(t, depth)
    decreases |s|, 2
  {
    var behind := ParseValue(Skip(s), depth).value.1;
    StartIs(Skip(s), depth);
    var before := Skipped(s);
    var x := ValueStands(Skip(s), depth);
    var after := Skipped(behind);
    e := Element(before, x, after);
  }

  lemma OneMoreElement(e: Element, more: seq<Element>, q: seq<byte>)
    requires GoodElement(e) && GoodElements(more)
    ensures var es := [e] + more;
      && GoodElements(es) && Items(es) == [Meaning(e.value)] + Items(more)
      && var behind := if more == [] then Ascii("]") + q else Ascii(",") + ShowElements(more, q);
         ShowElements(es, q) == e.before + Show(e.value, e.after + behind)
  {
    assert ([e] + more)[1..] == more;
  }

  lemma {:induction false} ObjectStands(s: seq<byte>, depth: nat) returns (x: Syntax)
    requires Starts(s, LBRACE) && ParseObject(s, depth).Some?
    ensures var (members, rest) := ParseObject(s, depth).value;
      Reads(x, s, Obj(members), rest) && Fits(Obj(members), depth)
    decreases |s|, 0
  {
    var first := Skip(s[1..]);
    if Starts(first, RBRACE) {
      x := EmptyBraces(s);
    } else {
      var es := EntriesStand(first, depth + 1);
      x := ObjectOf(s, es, ParseObject(s, depth).value.1);
    }
  }

  lemma EmptyBraces(s: seq<byte>) returns (x: Syntax)
    requires Starts(s, LBRACE) && Starts(Skip(s[1..]), RBRACE)
    ensures Reads(x, s, Obj([]), Skip(s[1..])[1..])
  {
    Characters();
    var close := Skip(s[1..]);
    var blank := Skipped(s[1..]);
    x := Braces(blank, []);
    assert s == [LBRACE] + (blank + ([RBRACE] + close[1..]));
  }

  /** The entries with the blanks that were skipped in front of them */
  lemma ObjectOf(s: seq<byte>, es: seq<Entry>, q: seq<byte>) returns (x: Syntax)
    requires Starts(s, LBRACE) && GoodEntries(es) && es != [] && ShowEntries(es, q) == Skip(s[1..])
    requires Starts(Skip(Skip(s[1..])), QUOTE)
    ensures Reads(x, s, Obj(Members(es)), q)
  {
    Characters();
    SkipTwice(s[1..]);
    var blank := Skipped(s[1..]);
    assert s == [LBRACE] + s[1..];
    x := Braces([], [es[0].(before := blank + es[0].before)] + es[1..]);
    BlankInFrontOfEntry(blank, es, q);
  }

  lemma BlankInFrontOfEntry(blank: seq<byte>, es: seq<Entry>, q: seq<byte>)
    requires Blank(blank) && GoodEntries(es) && es != []
    ensures var es' := [es[0].(before := blank + es[0].before)] + es[1..];
      && GoodEntries(es') && Members(es') == Members(es)
      && ShowEntries(es', q) == blank + ShowEntries(es, q)
  {
    var e' := es[0].(before := blank + es[0].before);
    var es' := [e'] + es[1..];
    assert es'[1..] == es[1..];
    assert GoodEntry(e') && MemberOf(e') == MemberOf(es[0]);
    assert AfterEntry(es', q) == AfterEntry(es, q);
    var after := AfterEntry(es, q);
    assert FromKey(e', after) == FromKey(es[0], after);
  }

  /** Entries up to the closing brace */
  lemma {:induction false} EntriesStand(s: seq<byte>, depth: nat) returns (es: seq<Entry>)
    requires ParseMembers(s, depth).Some?
    ensures es != [] && GoodEntries(es) && Starts(Skip(s), QUOTE)
    ensures var (members, rest) := ParseMembers(s, depth).value;
      ShowEntries(es, rest) == s && Members(es) == members && (depth <= NESTING_LIMIT ==> FitsMembers(members, depth))
    decreases |s|, 3
  {
    Characters();
    var (m, close) := ParseMember(s, depth).value;
    var e := EntryStands(s, depth);
    assert close == [close[0]] + close[1..];
    var more := [];
    if Starts(close, COMMA) {
      more := EntriesStand(close[1..], depth);
    }
    es := [e] + more;
    assert es[1..] == more;
    if more == [] {
      assert Members(es) == [m] && GoodEntries(more);
    }
  }

  lemma {:induction false} EntryStands(s: seq<byte>, depth: nat) returns (e: Entry)
    requires ParseMember(s, depth).Some?
    requires var close := ParseMember(s, depth).value.1; close != [] && close[0] > 32
    ensures var (m, close) := ParseMember(s, depth).value;
      GoodEntry(e) && ShowEntry(e, close) == s && MemberOf(e) == m && Fits(m.value, depth) && Starts(Skip(s), QUOTE)
    decreases |s|, 2
  {
    Characters();
    var close := ParseMember(s, depth).value.1;
    var before := Skipped(s);
    var key := LiteralStands(Skip(s));
    var behind := ParseString(Skip(s)).value.1;
    var between := Skipped(behind);
    var colon := Skip(behind);
    assert colon == [COLON] + colon[1..];
    StartIs(Skip(colon[1..]), depth);
    var lead := Skipped(colon[1..]);
    var x := ValueStands(Skip(colon[1..]), depth);
    var after := Skipped(ParseValue(Skip(colon[1..]), depth).value.1);
    e := Entry(before, key, between, lead, x, after);
  }

  /** For every text and depth: a value is accepted exactly when the text begins with one of the grammar's that keeps
      within the nesting limit, and it is read as what that means. */
  lemma ValueExactly(s: seq<byte>, depth: nat, t: Json, rest: seq<byte>)
    ensures ParseValue(s, depth) == Some((t, rest)) <==> Fits(t, depth) && exists x :: Reads(x, s, t, rest)
  {
    if ParseValue(s, depth) == Some((t, rest)) {
      var x := ValueStands(s, depth);
    }
    if x :| Reads(x, s, t, rest) && Fits(t, depth) {
      ValueRead(x, depth, rest);
    }
  }

  // ---- Whole texts --------------------------------------------------------------------------------------------

  lemma {:induction false} ShowAppend(x: Syntax, q: seq<byte>, r: seq<byte>)
    requires Good(x)
    ensures Show(x, q) + r == Show(x, q + r)
    decreases x, 1
  {
    match x
    case NullWord => Assoc(Ascii("null"), q, r);
    case FalseWord => Assoc(Ascii("false"), q, r);
    case TrueWord => Assoc(Ascii("true"), q, r);
    case Literal(pieces) => LiteralAppend(pieces, q, r);
    case Brackets(blank, elements) =>
      if elements == [] {
        EmptyAppend(Ascii("["), blank, Ascii("]"), q, r);
      } else {
        ElementsAppend(elements, q, r);
        Assoc(Ascii("["), ShowElements(elements, q), r);
      }
    case Braces(blank, entries) =>
      if entries == [] {
        EmptyAppend(Ascii("{"), blank, Ascii("}"), q, r);
      } else {
        EntriesAppend(entries, q, r);
        Assoc(Ascii("{"), ShowEntries(entries, q), r);
      }
  }

  lemma EmptyAppend(open: seq<byte>, blank: seq<byte>, close: seq<byte>, q: seq<byte>, r: seq<byte>)
    ensures open + (blank + (close + q)) + r == open + (blank + (close + (q + r)))
  {
  }

  lemma LiteralAppend(pieces: seq<Piece>, q: seq<byte>, r: seq<byte>)
    requires GoodLiteral(pieces)
    ensures LiteralText(pieces, q) + r == LiteralText(pieces, q + r)
  {
  }

  lemma {:induction false} ElementsAppend(es: seq<Element>, q: seq<byte>, r: seq<byte>)
    requires GoodElements(es) && es != []
    ensures ShowElements(es, q) + r == ShowElements(es, q + r)
    ensures AfterElement(es, q) + r == AfterElement(es, q + r)
    decreases es, 0
  {
    if |es| > 1 {
      ElementsAppend(es[1..], q, r);
      Assoc(Ascii(","), ShowElements(es[1..], q), r);
    } else {
      Assoc(Ascii("]"), q, r);
    }
    var more := AfterElement(es, q);
    ShowAppend(es[0].value, es[0].after + more, r);
    Assoc(es[0].after, more, r);
    Assoc(es[0].before, Show(es[0].value, es[0].after + more), r);
  }

  lemma {:induction false} EntriesAppend(es: seq<Entry>, q: seq<byte>, r: seq<byte>)
    requires GoodEntries(es) && es != []
    ensures ShowEntries(es, q) + r == ShowEntries(es, q + r)
    ensures AfterEntry(es, q) + r == AfterEntry(es, q + r)
    decreases es, 0
  {
    if |es| > 1 {
      EntriesAppend(es[1..], q, r);
      Assoc(Ascii(","), ShowEntries(es[1..], q), r);
    } else {
      Assoc(Ascii("}"), q, r);
    }
    EntryAppend(es[0], AfterEntry(es, q), r);
  }

  lemma {:induction false} EntryAppend(e: Entry, q: seq<byte>, r: seq<byte>)
    requires GoodEntry(e)
    ensures ShowEntry(e, q) + r == ShowEntry(e, q + r)
    decreases e, 2
  {
    var value := Show(e.value, e.after + q);
    ShowAppend(e.value, e.after + q, r);
    Assoc(e.after, q, r);
    Assoc(e.lead, value, r);
    Assoc(Ascii(":"), e.lead + value, r);
    Assoc(e.between, Ascii(":") + (e.lead + value), r);
    LiteralAppend(e.key, e.between + (Ascii(":") + (e.lead + value)), r);
    Assoc(e.before, LiteralText(e.key, e.between + (Ascii(":") + (e.lead + value))), r);
  }

  /** A text of the grammar ends with no blank. */
  lemma LastIs(x: Syntax)
    requires Good(x)
    ensures var s := Show(x, []); s != [] && s[|s| - 1] > 32
  {
    Words();
    match x
    case NullWord =>
    case FalseWord =>
    case TrueWord =>
    case Literal(_) =>
    case Brackets(_, elements) =>
      if elements != [] {
        ElementsLast(elements);
      }
    case Braces(_, entries) =>
      if entries != [] {
        EntriesLast(entries);
      }
  }

  lemma {:induction false} ElementsLast(es: seq<Element>)
    requires GoodElements(es) && es != []
    ensures var s := ShowElements(es, []); s != [] && s[|s| - 1] > 32
    decreases |es|
  {
    if |es| > 1 {
      ElementsLast(es[1..]);
    }
    var tail := AfterElement(es, []);
    ShowAppend(es[0].value, es[0].after, tail);
    assert tail[|tail| - 1] > 32;
  }

  lemma {:induction false} EntriesLast(es: seq<Entry>)
    requires GoodEntries(es) && es != []
    ensures var s := ShowEntries(es, []); s != [] && s[|s| - 1] > 32
    decreases |es|
  {
    if |es| > 1 {
      EntriesLast(es[1..]);
    }
    var tail := AfterEntry(es, []);
    assert tail[|tail| - 1] > 32;
    BehindEntry(es[0], tail);
  }

  lemma BehindEntry(e: Entry, tail: seq<byte>)
    requires GoodEntry(e) && tail != []
    ensures var s := ShowEntry(e, tail); s != [] && s[|s| - 1] == tail[|tail| - 1]
  {
    EntryAppend(e, [], tail);
    assert [] + tail == tail;
  }

  const BOM: seq<byte> := [0xEF, 0xBB, 0xBF]

  /** A text of the grammar, a byte order mark and blanks in front of it allowed. What follows it is arbitrary unless it
      has to be the end. */
  predicate Document(text: seq<byte>, bom: bool, blank: seq<byte>, x: Syntax, rest: seq<byte>, requireEnd: bool) {
    && Blank(blank) && Good(x) && text == (if bom then BOM else []) + (blank + Show(x, rest))
    && (requireEnd ==> Blank(rest))
  }

  lemma {:induction false} AllBlank(s: seq<byte>)
    ensures DropBlanks(s) == [] <==> Blank(s)
  {
    if s != [] {
      AllBlank(s[1..]);
      assert s == [s[0]] + s[1..];
    }
  }

  /** Nothing but blanks stands in front of the terminating zero. */
  lemma EndIsReached(rest: seq<byte>)
    ensures Starts(Skip(rest + [0]), 0) <==> Blank(rest)
  {
    AllBlank(rest + [0]);
    assert Blank(rest) <==> Blank(rest + [0]) by {
      assert rest == (rest + [0])[..|rest|];
    }
  }

  lemma BomDropped(s: seq<byte>, bom: bool, t: seq<byte>)
    requires s == (if bom then BOM else []) + t && |t| >= 2 && t[0] < 0x80
    ensures DropBom(s) == t
  {
    assert BOM[0] == 0xEF;
    if bom {
      assert s[3..] == t;
    }
  }

  lemma DocumentRead(text: seq<byte>, bom: bool, blank: seq<byte>, x: Syntax, rest: seq<byte>, requireEnd: bool)
    requires Document(text, bom, blank, x, rest, requireEnd) && Nesting(Meaning(x)) <= NESTING_LIMIT
    ensures Parse(text, requireEnd) == Some(Meaning(x))
  {
    var s := Show(x, rest + [0]);
    ShowAppend(x, rest, [0]);
    FirstIs(x, rest + [0]);
    FirstIs(x, rest);
    Assoc(blank, Show(x, rest), [0]);
    Assoc(if bom then BOM else [], blank + Show(x, rest), [0]);
    BomDropped(text + [0], bom, blank + s);
    SkipBlanks(blank, s);
    ValueRead(x, 0, rest + [0]);
    EndIsReached(rest);
  }

  lemma DocumentStands(text: seq<byte>, requireEnd: bool)
    returns (bom: bool, blank: seq<byte>, x: Syntax, rest: seq<byte>)
    requires Parse(text, requireEnd).Some?
    ensures Document(text, bom, blank, x, rest, requireEnd) && Parse(text, requireEnd) == Some(Meaning(x))
    ensures Nesting(Meaning(x)) <= NESTING_LIMIT
  {
    var s := DropBom(text + [0]);
    bom := s != text + [0];
    blank, x, rest := ValueBeforeZero(s);
    EndIsReached(rest);
    BomInFront(text + [0]);
    WithoutZero(text, if bom then BOM else [], blank, Show(x, rest));
  }

  lemma ValueBeforeZero(s: seq<byte>) returns (blank: seq<byte>, x: Syntax, rest: seq<byte>)
    requires s != [] && s[|s| - 1] == 0 && ParseValue(Skip(s), 0).Some?
    ensures Blank(blank) && Good(x) && s == blank + (Show(x, rest) + [0])
    ensures ParseValue(Skip(s), 0) == Some((Meaning(x), rest + [0])) && Nesting(Meaning(x)) <= NESTING_LIMIT
  {
    StartIs(Skip(s), 0);
    blank := Skipped(s);
    x := ValueStands(Skip(s), 0);
    LastStays(blank, Skip(s));
    rest := BeforeZero(x, ParseValue(Skip(s), 0).value.1);
    ShowAppend(x, rest, [0]);
  }

  lemma LastStays(a: seq<byte>, b: seq<byte>)
    requires b != []
    ensures (a + b)[|a + b| - 1] == b[|b| - 1]
  {
  }

  lemma BomInFront(s: seq<byte>)
    ensures s == (if DropBom(s) != s then BOM else []) + DropBom(s)
  {
    if DropBom(s) != s {
      assert s[..3] == BOM;
    }
  }

  lemma WithoutZero(text: seq<byte>, a: seq<byte>, b: seq<byte>, c: seq<byte>)
    requires text + [0] == a + (b + (c + [0]))
    ensures text == a + (b + c)
  {
    assert text + [0] == a + (b + c) + [0];
    assert text == (text + [0])[..|text|];
  }

  /** The zero behind a text is behind what is left of it. */
  lemma BeforeZero(x: Syntax, behind: seq<byte>) returns (rest: seq<byte>)
    requires Good(x) && var s := Show(x, behind); s != [] && s[|s| - 1] == 0
    ensures behind == rest + [0]
  {
    LastIs(x);
    ShowAppend(x, [], behind);
    assert [] + behind == behind;
    ZeroInSecond(Show(x, []), behind);
    rest := behind[..|behind| - 1];
  }

  lemma ZeroInSecond(a: seq<byte>, b: seq<byte>)
    requires a != [] && a[|a| - 1] > 32 && (a + b)[|a + b| - 1] == 0
    ensures b != [] && b == b[..|b| - 1] + [0]
  {
    assert a + [] == a;
  }

  /** For every text: cJSON_Parse accepts it exactly when it is a document of the grammar within the nesting limit, and
      reads it as what that means. (A text with a number in it is no such document here.) */
  lemma ParseExactly(text: seq<byte>, requireEnd: bool, t: Json)
    ensures Parse(text, requireEnd) == Some(t) <==>
      Nesting(t) <= NESTING_LIMIT &&
      exists bom, blank, x, rest :: Document(text, bom, blank, x, rest, requireEnd) && Meaning(x) == t
  {
    if Parse(text, requireEnd) == Some(t) {
      var bom, blank, x, rest := DocumentStands(text, requireEnd);
    }
    if bom, blank, x, rest :|
      Document(text, bom, blank, x, rest, requireEnd) && Meaning(x) == t && Nesting(t) <= NESTING_LIMIT
    {
      DocumentRead(text, bom, blank, x, rest, requireEnd);
    }
  }
}
