/** deps/cJSON.c: what printing a tree and parsing a text compute, for trees without numbers, and that parsing
    undoes printing. */
module JsonTree {
  import opened Bytes
  import opened JsonStrings
  import opened Options

  const NESTING_LIMIT: nat := 1000

  datatype Json = Null | False | True | Str(s: seq<byte>) | Arr(items: seq<Json>) | Obj(members: seq<Member>)
  datatype Member = Member(key: seq<byte>, value: Json)

  const COMMA: byte := 0x2C
  const COLON: byte := 0x3A
  const SPACE: byte := 0x20
  const TAB: byte := 9
  const NEWLINE: byte := 10

  function TextNull(): seq<byte> { [0x6E, 0x75, 0x6C, 0x6C] }

  function TextFalse(): seq<byte> { [0x66, 0x61, 0x6C, 0x73, 0x65] }

  function TextTrue(): seq<byte> { [0x74, 0x72, 0x75, 0x65] }

  const LBRACKET: byte := 0x5B
  const RBRACKET: byte := 0x5D
  const LBRACE: byte := 0x7B
  const RBRACE: byte := 0x7D

  // ---- Printing -----------------------------------------------------------------------------------------

  /** How many containers lie around the innermost one, itself included */
  function Nesting(t: Json): nat {
    match t
    case Arr(items) => 1 + NestingOfItems(items)
    case Obj(members) => 1 + NestingOfMembers(members)
    case _ => 0
  }

  function Max(a: nat, b: nat): nat {
    if a < b then b else a
  }

  function NestingOfItems(items: seq<Json>): nat {
    if items == [] then 0 else Max(Nesting(items[0]), NestingOfItems(items[1..]))
  }

  function NestingOfMembers(members: seq<Member>): nat {
    if members == [] then 0 else Max(Nesting(members[0].value), NestingOfMembers(members[1..]))
  }

  function Tabs(n: nat): (s: seq<byte>)
    ensures |s| == n && forall i :: 0 <= i < n ==> s[i] == TAB
  {
    seq(n, _ => TAB)
  }

  /** b if the output is formatted */
  function If(fmt: bool, b: seq<byte>, q: seq<byte>): seq<byte> {
    if fmt then b + q else q
  }

  /** What print_value writes at a nesting depth (as long as the depth limit is not reached), with q behind it */
  function Then(t: Json, fmt: bool, depth: nat, q: seq<byte>): seq<byte>
    decreases t, 2
  {
    match t
    case Null => TextNull() + q
    case False => TextFalse() + q
    case True => TextTrue() + q
    case Str(s) => Printed(s) + q
    case Arr(items) => [LBRACKET] + ItemsThen(items, fmt, depth + 1, q)
    case Obj(members) => [LBRACE] + If(fmt, [NEWLINE], MembersThen(members, fmt, depth + 1, q))
  }

  /** Elements and the closing bracket */
  function ItemsThen(items: seq<Json>, fmt: bool, depth: nat, q: seq<byte>): seq<byte>
    decreases items, 0
  {
    if items == [] then [RBRACKET] + q
    else Then(items[0], fmt, depth, MoreItems(items, fmt, depth, q))
  }

  /** What follows the first element */
  function MoreItems(items: seq<Json>, fmt: bool, depth: nat, q: seq<byte>): seq<byte>
    requires items != []
    decreases items[1..], 1
  {
    if |items| == 1 then [RBRACKET] + q
    else [COMMA] + If(fmt, [SPACE], ItemsThen(items[1..], fmt, depth, q))
  }

  /** Members and the closing brace */
  function MembersThen(members: seq<Member>, fmt: bool, depth: nat, q: seq<byte>): seq<byte>
    decreases members, 0
  {
    if members == [] then If(fmt, Tabs(if depth > 0 then depth - 1 else 0), [RBRACE] + q)
    else If(fmt, Tabs(depth), MemberThen(members[0], fmt, depth, MoreMembers(members, fmt, depth, q)))
  }

  /** A member from its key on */
  function MemberThen(m: Member, fmt: bool, depth: nat, q: seq<byte>): seq<byte>
    decreases m, 3
  {
    Printed(m.key) + ([COLON] + If(fmt, [TAB], Then(m.value, fmt, depth, q)))
  }

  /** What follows the first member */
  function MoreMembers(members: seq<Member>, fmt: bool, depth: nat, q: seq<byte>): seq<byte>
    requires members != []
    decreases members[1..], 1
  {
    var next := If(fmt, [NEWLINE], MembersThen(members[1..], fmt, depth, q));
    if |members| == 1 then next else [COMMA] + next
  }

  // ---- Parsing ------------------------------------------------------------------------------------------

  function DropBlanks(s: seq<byte>): (r: seq<byte>)
    ensures |r| <= |s| && (r != [] ==> r[0] > 32)
  {
    if s == [] || s[0] > 32 then s else DropBlanks(s[1..])
  }

  /** buffer_skip_whitespace on what is left of the buffer: at the end it stays on the last byte. */
  function Skip(s: seq<byte>): (r: seq<byte>)
    ensures |r| <= |s| && (s != [] ==> r != [])
  {
    if s == [] then s
    else
      var r := DropBlanks(s);
      if r == [] then s[|s| - 1..] else r
  }

  predicate Starts(s: seq<byte>, c: byte) {
    s != [] && s[0] == c
  }

  /** parse_value: the value and what is left of the buffer. Numbers are not part of this model. */
  function ParseValue(s: seq<byte>, depth: nat): (r: Option<(Json, seq<byte>)>)
    ensures r.Some? ==> |r.value.1| < |s|
    decreases |s|, 1
  {
    if TextNull() <= s then Some((Null, s[4..]))
    else if TextFalse() <= s then Some((False, s[5..]))
    else if TextTrue() <= s then Some((True, s[4..]))
    else if Starts(s, QUOTE) then
      var r := ParseString(s);
      if r.None? then None else Some((Str(r.value.0), r.value.1))
    else if Starts(s, LBRACKET) then
      var r := ParseArray(s, depth);
      if r.None? then None else Some((Arr(r.value.0), r.value.1))
    else if Starts(s, LBRACE) then
      var r := ParseObject(s, depth);
      if r.None? then None else Some((Obj(r.value.0), r.value.1))
    else None
  }

  /** parse_array */
  function ParseArray(s: seq<byte>, depth: nat): (r: Option<(seq<Json>, seq<byte>)>)
    requires Starts(s, LBRACKET)
    ensures r.Some? ==> |r.value.1| < |s|
    decreases |s|, 0
  {
    if depth >= NESTING_LIMIT then None
    else
      var first := Skip(s[1..]);
      if Starts(first, RBRACKET) then Some(([], first[1..]))
      else if first == [] then None
      else ParseItems(first, depth + 1)
  }

  /** The loop of parse_array, from an element on */
  function ParseItems(s: seq<byte>, depth: nat): (r: Option<(seq<Json>, seq<byte>)>)
    ensures r.Some? ==> |r.value.1| < |s|
    decreases |s|, 2
  {
    var v := ParseValue(Skip(s), depth);
    if v.None? then None
    else
      var after := Skip(v.value.1);
      if Starts(after, COMMA) then
        var more := ParseItems(after[1..], depth);
        if more.None? then None else Some(([v.value.0] + more.value.0, more.value.1))
      else if !Starts(after, RBRACKET) then None
      else Some(([v.value.0], after[1..]))
  }

  /** parse_object */
  function ParseObject(s: seq<byte>, depth: nat): (r: Option<(seq<Member>, seq<byte>)>)
    requires Starts(s, LBRACE)
    ensures r.Some? ==> |r.value.1| < |s|
    decreases |s|, 0
  {
    if depth >= NESTING_LIMIT then None
    else
      var first := Skip(s[1..]);
      if Starts(first, RBRACE) then Some(([], first[1..]))
      else if first == [] then None
      else ParseMembers(first, depth + 1)
  }

  /** One round of the loop of parse_object: a member and what follows it */
  function ParseMember(s: seq<byte>, depth: nat): (r: Option<(Member, seq<byte>)>)
    ensures r.Some? ==> |r.value.1| < |s|
    decreases |s|, 2
  {
    if s == [] then None
    else
      var k := ParseString(Skip(s));
      if k.None? then None
      else
        var colon := Skip(k.value.1);
        if !Starts(colon, COLON) then None
        else
          var v := ParseValue(Skip(colon[1..]), depth);
          if v.None? then None else Some((Member(k.value.0, v.value.0), Skip(v.value.1)))
  }

  /** The loop of parse_object, from a key on */
  function ParseMembers(s: seq<byte>, depth: nat): (r: Option<(seq<Member>, seq<byte>)>)
    ensures r.Some? ==> |r.value.1| < |s|
    decreases |s|, 3
  {
    var m := ParseMember(s, depth);
    if m.None? then None
    else
      var after := m.value.1;
      if Starts(after, COMMA) then
        var more := ParseMembers(after[1..], depth);
        if more.None? then None else Some(([m.value.0] + more.value.0, more.value.1))
      else if !Starts(after, RBRACE) then None
      else Some(([m.value.0], after[1..]))
  }

  function DropBom(s: seq<byte>): seq<byte> {
    if |s| >= 5 && [0xEF, 0xBB, 0xBF] <= s then s[3..] else s
  }

  /** cJSON_ParseWithOpts on a C string: its terminating zero belongs to the buffer. */
  function Parse(text: seq<byte>, requireEnd: bool): Option<Json> {
    var r := ParseValue(Skip(DropBom(text + [0])), 0);
    if r.None? then None
    else if requireEnd && !Starts(Skip(r.value.1), 0) then None
    else Some(r.value.0)
  }

  // ---- Round trip -----------------------------------------------------------------------------------------

  /** Strings and keys that C can hold */
  predicate NulFree(t: Json) {
    match t
    case Str(s) => 0 !in s
    case Arr(items) => NulFreeItems(items)
    case Obj(members) => NulFreeMembers(members)
    case _ => true
  }

  predicate NulFreeItems(items: seq<Json>) {
    items == [] || (NulFree(items[0]) && NulFreeItems(items[1..]))
  }

  predicate NulFreeMembers(members: seq<Member>) {
    members == [] || (0 !in members[0].key && NulFree(members[0].value) && NulFreeMembers(members[1..]))
  }

  predicate Blank(s: seq<byte>) {
    forall i :: 0 <= i < |s| ==> s[i] <= 32
  }

  lemma {:induction false} SkipBlanks(b: seq<byte>, s: seq<byte>)
    requires Blank(b) && s != [] && s[0] > 32
    ensures DropBlanks(b + s) == s && Skip(b + s) == s
  {
    if b == [] {
      assert b + s == s;
    } else {
      assert (b + s)[1..] == b[1..] + s;
      SkipBlanks(b[1..], s);
    }
  }

  lemma SkipNothing(s: seq<byte>)
    requires s != [] && s[0] > 32
    ensures Skip(s) == s
  {
    SkipBlanks([], s);
    assert [] + s == s;
  }

  /** A value starts with a character that is no blank and closes nothing. */
  lemma FirstOf(t: Json, fmt: bool, depth: nat, q: seq<byte>)
    ensures var s := Then(t, fmt, depth, q); s != [] && 32 < s[0] < 0x80 && s[0] != RBRACKET && s[0] != RBRACE
  {
  }

  lemma SkipIf(fmt: bool, b: seq<byte>, s: seq<byte>)
    requires Blank(b) && s != [] && s[0] > 32
    ensures Skip(If(fmt, b, s)) == s
  {
    if fmt {
      SkipBlanks(b, s);
    } else {
      SkipNothing(s);
    }
  }

  lemma SkipTwo(fmt: bool, b: seq<byte>, c: seq<byte>, s: seq<byte>)
    requires Blank(b) && Blank(c) && s != [] && s[0] > 32
    ensures Skip(If(fmt, b, If(fmt, c, s))) == s
  {
    if fmt {
      SkipBlanks(b + c, s);
      assert b + c + s == b + (c + s);
    } else {
      SkipNothing(s);
    }
  }

  /** The keywords start with different letters. */
  lemma Keywords(s: seq<byte>)
    requires s != []
    ensures TextNull() <= s ==> s[0] == 0x6E
    ensures TextFalse() <= s ==> s[0] == 0x66
    ensures TextTrue() <= s ==> s[0] == 0x74
  {
    assert TextNull()[0] == 0x6E && TextFalse()[0] == 0x66 && TextTrue()[0] == 0x74;
  }

  /** A value's text is read back as that value, whatever follows. */
  lemma {:induction false} ReadsBack(t: Json, fmt: bool, depth: nat, q: seq<byte>)
    requires NulFree(t) && depth + Nesting(t) <= NESTING_LIMIT
    ensures ParseValue(Then(t, fmt, depth, q), depth) == Some((t, q))
    decreases t, 2
  {
    var s := Then(t, fmt, depth, q);
    Keywords(s);
    match t
    case Null => assert s[4..] == q;
    case False =>
      assert s[0] == TextFalse()[0];
      assert s[5..] == q;
    case True =>
      assert s[0] == TextTrue()[0];
      assert s[4..] == q;
    case Str(v) => StringRoundTrip(v, q);
    case Arr(items) =>
      assert s[0] == LBRACKET;
      ArrayReadsBack(items, fmt, depth, q);
    case Obj(members) =>
      assert s[0] == LBRACE;
      ObjectReadsBack(members, fmt, depth, q);
  }

  lemma {:induction false} ArrayReadsBack(items: seq<Json>, fmt: bool, depth: nat, q: seq<byte>)
    requires NulFreeItems(items) && depth + 1 + NestingOfItems(items) <= NESTING_LIMIT
    ensures ParseArray([LBRACKET] + ItemsThen(items, fmt, depth + 1, q), depth) == Some((items, q))
    decreases items, 1
  {
    var tail := ItemsThen(items, fmt, depth + 1, q);
    assert ([LBRACKET] + tail)[1..] == tail;
    if items == [] {
      SkipNothing(tail);
      assert tail[1..] == q;
    } else {
      FirstOf(items[0], fmt, depth + 1, MoreItems(items, fmt, depth + 1, q));
      SkipNothing(tail);
      ItemsReadBack(items, fmt, depth + 1, tail, q);
    }
  }

  /** Elements up to the closing bracket, blanks allowed in front */
  lemma {:induction false} ItemsReadBack(items: seq<Json>, fmt: bool, depth: nat, s: seq<byte>, q: seq<byte>)
    requires items != [] && NulFreeItems(items) && depth + NestingOfItems(items) <= NESTING_LIMIT
    requires Skip(s) == ItemsThen(items, fmt, depth, q)
    ensures ParseItems(s, depth) == Some((items, q))
    decreases items, 0
  {
    var rest := MoreItems(items, fmt, depth, q);
    ReadsBack(items[0], fmt, depth, rest);
    SkipNothing(rest);
    if |items| == 1 {
      assert rest[1..] == q && [items[0]] == items;
    } else {
      var next := ItemsThen(items[1..], fmt, depth, q);
      FirstOf(items[1], fmt, depth, MoreItems(items[1..], fmt, depth, q));
      SkipIf(fmt, [SPACE], next);
      assert rest[1..] == If(fmt, [SPACE], next);
      ItemsReadBack(items[1..], fmt, depth, rest[1..], q);
      assert [items[0]] + items[1..] == items;
    }
  }

  lemma {:induction false} ObjectReadsBack(members: seq<Member>, fmt: bool, depth: nat, q: seq<byte>)
    requires NulFreeMembers(members) && depth + 1 + NestingOfMembers(members) <= NESTING_LIMIT
    ensures ParseObject([LBRACE] + If(fmt, [NEWLINE], MembersThen(members, fmt, depth + 1, q)), depth)
      == Some((members, q))
    decreases members, 1
  {
    var tail := If(fmt, [NEWLINE], MembersThen(members, fmt, depth + 1, q));
    assert ([LBRACE] + tail)[1..] == tail;
    if members == [] {
      EmptyReadsBack(fmt, depth, q);
    } else {
      var bare := MemberThen(members[0], fmt, depth + 1, MoreMembers(members, fmt, depth + 1, q));
      assert bare[0] == QUOTE;
      SkipTwo(fmt, [NEWLINE], Tabs(depth + 1), bare);
      SkipNothing(bare);
      MembersReadBack(members, fmt, depth + 1, bare, q);
    }
  }

  lemma EmptyReadsBack(fmt: bool, depth: nat, q: seq<byte>)
    requires depth < NESTING_LIMIT
    ensures ParseObject([LBRACE] + If(fmt, [NEWLINE], MembersThen([], fmt, depth + 1, q)), depth) == Some(([], q))
  {
    var tail := If(fmt, [NEWLINE], MembersThen([], fmt, depth + 1, q));
    assert ([LBRACE] + tail)[1..] == tail;
    SkipTwo(fmt, [NEWLINE], Tabs(depth), [RBRACE] + q);
    assert ([RBRACE] + q)[1..] == q;
  }

  /** Members up to the closing brace, blanks allowed in front of the first key */
  lemma {:induction false} MembersReadBack(members: seq<Member>, fmt: bool, depth: nat, s: seq<byte>, q: seq<byte>)
    requires depth > 0 && members != [] && NulFreeMembers(members)
    requires depth + NestingOfMembers(members) <= NESTING_LIMIT
    requires Skip(s) == MemberThen(members[0], fmt, depth, MoreMembers(members, fmt, depth, q))
    ensures ParseMembers(s, depth) == Some((members, q))
    decreases members, 0
  {
    var rest := MoreMembers(members, fmt, depth, q);
    MemberReadsBack(members[0], fmt, depth, s, rest);
    Rejoined(members);
    if |members| == 1 {
      CloseAfter(members, fmt, depth, q);
      LastMember(s, depth, members[0], q);
    } else {
      SkipNothing(rest);
      TailFits(members, depth);
      NextKey(members, fmt, depth, q);
      MembersReadBack(members[1..], fmt, depth, rest[1..], q);
      OneMoreMember(s, depth, members[0], rest, members[1..], q);
    }
  }

  lemma Rejoined<T>(s: seq<T>)
    requires s != []
    ensures [s[0]] + s[1..] == s && (|s| == 1 ==> [s[0]] == s)
  {
  }

  lemma TailFits(members: seq<Member>, depth: nat)
    requires members != [] && NulFreeMembers(members) && depth + NestingOfMembers(members) <= NESTING_LIMIT
    ensures NulFreeMembers(members[1..]) && depth + NestingOfMembers(members[1..]) <= NESTING_LIMIT
  {
  }

  lemma LastMember(s: seq<byte>, depth: nat, m: Member, q: seq<byte>)
    requires ParseMember(s, depth) == Some((m, [RBRACE] + q))
    ensures ParseMembers(s, depth) == Some(([m], q))
  {
    assert ([RBRACE] + q)[1..] == q;
  }

  lemma OneMoreMember(s: seq<byte>, depth: nat, m: Member, rest: seq<byte>, ms: seq<Member>, q: seq<byte>)
    requires ParseMember(s, depth) == Some((m, rest)) && rest != [] && rest[0] == COMMA
    requires ParseMembers(rest[1..], depth) == Some((ms, q))
    ensures ParseMembers(s, depth) == Some(([m] + ms, q))
  {
  }

  lemma CloseAfter(members: seq<Member>, fmt: bool, depth: nat, q: seq<byte>)
    requires depth > 0 && |members| == 1
    ensures Skip(MoreMembers(members, fmt, depth, q)) == [RBRACE] + q
  {
    SkipTwo(fmt, [NEWLINE], Tabs(depth - 1), [RBRACE] + q);
    assert members[1..] == [];
  }

  lemma NextKey(members: seq<Member>, fmt: bool, depth: nat, q: seq<byte>)
    requires |members| > 1
    ensures Skip(MoreMembers(members, fmt, depth, q)[1..])
      == MemberThen(members[1], fmt, depth, MoreMembers(members[1..], fmt, depth, q))
  {
    var bare := MemberThen(members[1], fmt, depth, MoreMembers(members[1..], fmt, depth, q));
    assert bare[0] == QUOTE;
    assert MoreMembers(members, fmt, depth, q)[1..] == If(fmt, [NEWLINE], If(fmt, Tabs(depth), bare));
    SkipTwo(fmt, [NEWLINE], Tabs(depth), bare);
  }

  /** One member and the skip behind it */
  lemma MemberReadsBack(m: Member, fmt: bool, depth: nat, s: seq<byte>, rest: seq<byte>)
    requires 0 !in m.key && NulFree(m.value) && depth + Nesting(m.value) <= NESTING_LIMIT
    requires Skip(s) == MemberThen(m, fmt, depth, rest)
    ensures ParseMember(s, depth) == Some((m, Skip(rest)))
    decreases m, 3
  {
    var value := Then(m.value, fmt, depth, rest);
    var colon := [COLON] + If(fmt, [TAB], value);
    StringRoundTrip(m.key, colon);
    SkipNothing(colon);
    assert colon[1..] == If(fmt, [TAB], value);
    FirstOf(m.value, fmt, depth, rest);
    SkipIf(fmt, [TAB], value);
    ReadsBack(m.value, fmt, depth, rest);
  }

  // ---- Whole texts ------------------------------------------------------------------------------------------

  /** cJSON_Print and cJSON_PrintUnformatted, for trees within the nesting limit */
  function Text(t: Json, fmt: bool): seq<byte> {
    Then(t, fmt, 0, [])
  }

  lemma IfAppend(fmt: bool, b: seq<byte>, q: seq<byte>, r: seq<byte>)
    ensures If(fmt, b, q) + r == If(fmt, b, q + r)
  {
    assert (b + q) + r == b + (q + r);
  }

  /** What follows a value does not change it. */
  lemma {:induction false} ThenAppend(t: Json, fmt: bool, depth: nat, q: seq<byte>, r: seq<byte>)
    ensures Then(t, fmt, depth, q) + r == Then(t, fmt, depth, q + r)
    decreases t, 2
  {
    match t
    case Null => Assoc(TextNull(), q, r);
    case False => Assoc(TextFalse(), q, r);
    case True => Assoc(TextTrue(), q, r);
    case Str(s) => Assoc(Printed(s), q, r);
    case Arr(items) =>
      ItemsAppend(items, fmt, depth + 1, q, r);
      Assoc([LBRACKET], ItemsThen(items, fmt, depth + 1, q), r);
    case Obj(members) =>
      MembersAppend(members, fmt, depth + 1, q, r);
      IfAppend(fmt, [NEWLINE], MembersThen(members, fmt, depth + 1, q), r);
      Assoc([LBRACE], If(fmt, [NEWLINE], MembersThen(members, fmt, depth + 1, q)), r);
  }

  lemma Assoc(p: seq<byte>, s: seq<byte>, r: seq<byte>)
    ensures p + s + r == p + (s + r)
  {
  }

  lemma {:induction false} ItemsAppend(items: seq<Json>, fmt: bool, depth: nat, q: seq<byte>, r: seq<byte>)
    ensures ItemsThen(items, fmt, depth, q) + r == ItemsThen(items, fmt, depth, q + r)
    decreases items, 0
  {
    if items == [] {
      Assoc([RBRACKET], q, r);
    } else {
      var rest := MoreItems(items, fmt, depth, q);
      if |items| == 1 {
        Assoc([RBRACKET], q, r);
      } else {
        var next := ItemsThen(items[1..], fmt, depth, q);
        ItemsAppend(items[1..], fmt, depth, q, r);
        IfAppend(fmt, [SPACE], next, r);
        Assoc([COMMA], If(fmt, [SPACE], next), r);
      }
      ThenAppend(items[0], fmt, depth, rest, r);
    }
  }

  lemma {:induction false} MembersAppend(members: seq<Member>, fmt: bool, depth: nat, q: seq<byte>, r: seq<byte>)
    ensures MembersThen(members, fmt, depth, q) + r == MembersThen(members, fmt, depth, q + r)
    decreases members, 0
  {
    if members == [] {
      Assoc([RBRACE], q, r);
      IfAppend(fmt, Tabs(if depth > 0 then depth - 1 else 0), [RBRACE] + q, r);
    } else {
      var m, rest := members[0], MoreMembers(members, fmt, depth, q);
      MoreMembersAppend(members, fmt, depth, q, r);
      ThenAppend(m.value, fmt, depth, rest, r);
      var value := Then(m.value, fmt, depth, rest);
      IfAppend(fmt, [TAB], value, r);
      Assoc([COLON], If(fmt, [TAB], value), r);
      Assoc(Printed(m.key), [COLON] + If(fmt, [TAB], value), r);
      IfAppend(fmt, Tabs(depth), MemberThen(m, fmt, depth, rest), r);
    }
  }

  lemma {:induction false} MoreMembersAppend(members: seq<Member>, fmt: bool, depth: nat, q: seq<byte>, r: seq<byte>)
    requires members != []
    ensures MoreMembers(members, fmt, depth, q) + r == MoreMembers(members, fmt, depth, q + r)
    decreases members[1..], 1
  {
    var next := MembersThen(members[1..], fmt, depth, q);
    MembersAppend(members[1..], fmt, depth, q, r);
    IfAppend(fmt, [NEWLINE], next, r);
    if |members| > 1 {
      Assoc([COMMA], If(fmt, [NEWLINE], next), r);
    }
  }

  /** Parsing the formatted or unformatted text of a tree within the nesting limit gives the tree back, also
      when the text must end there. */
  lemma RoundTrip(t: Json, fmt: bool, requireEnd: bool)
    requires NulFree(t) && Nesting(t) <= NESTING_LIMIT
    ensures Parse(Text(t, fmt), requireEnd) == Some(t)
  {
    var s := Then(t, fmt, 0, [0]);
    assert [] + [0] == [0];
    ThenAppend(t, fmt, 0, [], [0]);
    FirstOf(t, fmt, 0, [0]);
    assert DropBom(s) == s by {
      assert [0xEF, 0xBB, 0xBF][0] >= 0x80;
    }
    SkipNothing(s);
    ReadsBack(t, fmt, 0, [0]);
    assert DropBlanks([0]) == DropBlanks([0][1..]) == [];
  }

  /** Different trees have different texts. */
  lemma TextDecides(t: Json, u: Json, fmt: bool)
    requires NulFree(t) && NulFree(u) && Nesting(t) <= NESTING_LIMIT && Nesting(u) <= NESTING_LIMIT
    requires Text(t, fmt) == Text(u, fmt)
    ensures t == u
  {
    RoundTrip(t, fmt, false);
    RoundTrip(u, fmt, false);
  }

  // ---- The text as a C string ---------------------------------------------------------------------------------

  lemma {:induction false} EscapedNulFree(s: seq<byte>)
    requires 0 !in s
    ensures 0 !in Escaped(s)
  {
    if s != [] {
      assert s[0] in s;
      EscapedNulFree(s[1..]);
    }
  }

  lemma {:induction false} ThenNulFree(t: Json, fmt: bool, depth: nat, q: seq<byte>)
    requires NulFree(t) && 0 !in q
    ensures 0 !in Then(t, fmt, depth, q)
    decreases t, 2
  {
    match t
    case Null =>
    case False =>
    case True =>
    case Str(s) => EscapedNulFree(s);
    case Arr(items) => ItemsNulFree(items, fmt, depth + 1, q);
    case Obj(members) => MembersNulFree(members, fmt, depth + 1, q);
  }

  lemma {:induction false} ItemsNulFree(items: seq<Json>, fmt: bool, depth: nat, q: seq<byte>)
    requires NulFreeItems(items) && 0 !in q
    ensures 0 !in ItemsThen(items, fmt, depth, q)
    decreases items, 0
  {
    if items != [] {
      if |items| > 1 {
        ItemsNulFree(items[1..], fmt, depth, q);
      }
      ThenNulFree(items[0], fmt, depth, MoreItems(items, fmt, depth, q));
    }
  }

  lemma {:induction false} MembersNulFree(members: seq<Member>, fmt: bool, depth: nat, q: seq<byte>)
    requires NulFreeMembers(members) && 0 !in q
    ensures 0 !in MembersThen(members, fmt, depth, q)
    decreases members, 0
  {
    if members != [] {
      MoreMembersNulFree(members, fmt, depth, q);
      MemberNulFree(members[0], fmt, depth, MoreMembers(members, fmt, depth, q));
    }
  }

  lemma {:induction false} MoreMembersNulFree(members: seq<Member>, fmt: bool, depth: nat, q: seq<byte>)
    requires members != [] && NulFreeMembers(members) && 0 !in q
    ensures 0 !in MoreMembers(members, fmt, depth, q)
    decreases members[1..], 1
  {
    MembersNulFree(members[1..], fmt, depth, q);
  }

  lemma {:induction false} MemberNulFree(m: Member, fmt: bool, depth: nat, rest: seq<byte>)
    requires 0 !in m.key && NulFree(m.value) && 0 !in rest
    ensures 0 !in MemberThen(m, fmt, depth, rest)
    decreases m, 3
  {
    EscapedNulFree(m.key);
    ThenNulFree(m.value, fmt, depth, rest);
  }

  /** The printed text is a C string as a whole: its length is what strlen finds. */
  lemma TextIsCString(t: Json, fmt: bool)
    requires NulFree(t)
    ensures CString(Text(t, fmt)) == Text(t, fmt)
  {
    ThenNulFree(t, fmt, 0, []);
    WholeCString(Text(t, fmt));
  }
}
