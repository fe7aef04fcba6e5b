/** deps/cJSON.c: parse_value and print_value with their arrays and objects as the code does them: recursive,
    with an offset moving over the input and an output that grows. */
module JsonTreeCode {
  import opened Bytes
  import opened JsonStrings
  import opened JsonStringCode
  import opened JsonTree
  import opened Options

  // ---- Printing -----------------------------------------------------------------------------------------

  lemma {:induction false} NestingParts(items: seq<Json>, i: nat)
    requires i < |items|
    ensures NestingOfItems(items[i..]) == Max(Nesting(items[i]), NestingOfItems(items[i + 1..]))
  {
    assert items[i..][0] == items[i] && items[i..][1..] == items[i + 1..];
  }

  lemma {:induction false} MemberNestingParts(members: seq<Member>, i: nat)
    requires i < |members|
    ensures NestingOfMembers(members[i..]) == Max(Nesting(members[i].value), NestingOfMembers(members[i + 1..]))
  {
    assert members[i..][0] == members[i] && members[i..][1..] == members[i + 1..];
  }

  /** printbuffer, as the text written so far */
  class PrintBuffer {
    var text: seq<byte>
    var depth: nat
    const format: bool

    constructor (format: bool)
      ensures text == [] && depth == 0 && this.format == format
    {
      text, depth := [], 0;
      this.format := format;
    }

    /** b goes in front of what is still to come. */
    method Write(b: seq<byte>, ghost q: seq<byte>)
      modifies this`text
      ensures text + q == old(text) + (b + q)
    {
      text := text + b;
    }

    method WriteIf(b: seq<byte>, ghost q: seq<byte>)
      modifies this`text
      ensures text + q == old(text) + If(format, b, q)
    {
      if format {
        text := text + b;
      }
    }

    method WriteString(s: seq<byte>, ghost q: seq<byte>)
      modifies this`text
      ensures text + q == old(text) + (Printed(s) + q)
    {
      var out := PrintStringPtr(Some(s));
      assert out[..out.Length - 1] == Printed(s);
      text := text + out[..out.Length - 1];
    }

    /** print_value: it succeeds exactly within the nesting limit, and then has written the value's text. */
    method PrintValue(t: Json, ghost q: seq<byte>) returns (ok: bool)
      modifies this
      ensures ok <==> old(depth) + Nesting(t) <= Max(NESTING_LIMIT, old(depth))
      ensures ok ==> depth == old(depth) && text + q == old(text) + Then(t, format, old(depth), q)
      decreases t, 2
    {
      ok := true;
      match t
      case Null => Write(TextNull(), q);
      case False => Write(TextFalse(), q);
      case True => Write(TextTrue(), q);
      case Str(s) => WriteString(s, q);
      case Arr(items) => ok := PrintArray(items, q);
      case Obj(members) => ok := PrintObject(members, q);
    }

    /** print_array */
    method PrintArray(items: seq<Json>, ghost q: seq<byte>) returns (ok: bool)
      modifies this
      ensures ok <==> old(depth) + 1 + NestingOfItems(items) <= NESTING_LIMIT
      ensures ok ==> depth == old(depth)
      ensures ok ==> text + q == old(text) + ([LBRACKET] + ItemsThen(items, format, old(depth) + 1, q))
      decreases items, 1
    {
      if depth >= NESTING_LIMIT {
        return false;
      }
      ghost var goal := text + ([LBRACKET] + ItemsThen(items, format, depth + 1, q));
      Write([LBRACKET], ItemsThen(items, format, depth + 1, q));
      depth := depth + 1;
      var i := 0;
      assert items[0..] == items;
      while i < |items|
        invariant i <= |items| && depth == old(depth) + 1 <= NESTING_LIMIT
        invariant text + ItemsThen(items[i..], format, depth, q) == goal
        invariant depth + NestingOfItems(items) <= NESTING_LIMIT <==> depth + NestingOfItems(items[i..]) <= NESTING_LIMIT
      {
        NestingParts(items, i);
        assert items[i..][0] == items[i] && items[i..][1..] == items[i + 1..];
        ghost var next := ItemsThen(items[i + 1..], format, depth, q);
        var fits := PrintValue(items[i], MoreItems(items[i..], format, depth, q));
        if !fits {
          return false;
        }
        if i + 1 < |items| {
          Write([COMMA], If(format, [SPACE], next));
          WriteIf([SPACE], next);
        }
        i := i + 1;
      }
      assert items[i..] == [];
      Write([RBRACKET], q);
      depth := depth - 1;
      ok := true;
    }

    /** print_object */
    method PrintObject(members: seq<Member>, ghost q: seq<byte>) returns (ok: bool)
      modifies this
      ensures ok <==> old(depth) + 1 + NestingOfMembers(members) <= NESTING_LIMIT
      ensures ok ==> depth == old(depth)
      ensures ok ==> text + q == old(text) + ([LBRACE] + If(format, [NEWLINE], MembersThen(members, format, old(depth) + 1, q)))
      decreases members, 1
    {
      if depth >= NESTING_LIMIT {
        return false;
      }
      ghost var goal := text + ([LBRACE] + If(format, [NEWLINE], MembersThen(members, format, depth + 1, q)));
      Write([LBRACE], If(format, [NEWLINE], MembersThen(members, format, depth + 1, q)));
      depth := depth + 1;
      WriteIf([NEWLINE], MembersThen(members, format, depth, q));
      var i := 0;
      assert members[0..] == members;
      while i < |members|
        invariant i <= |members| && depth == old(depth) + 1 <= NESTING_LIMIT
        invariant text + MembersThen(members[i..], format, depth, q) == goal
        invariant depth + NestingOfMembers(members) <= NESTING_LIMIT
          <==> depth + NestingOfMembers(members[i..]) <= NESTING_LIMIT
      {
        MemberNestingParts(members, i);
        assert members[i..][0] == members[i] && members[i..][1..] == members[i + 1..];
        var fits := PrintNext(members[i], i + 1 < |members|, members[i..], q);
        if !fits {
          return false;
        }
        i := i + 1;
      }
      assert members[i..] == [];
      WriteIf(Tabs(depth - 1), [RBRACE] + q);
      Write([RBRACE], q);
      depth := depth - 1;
      ok := true;
    }

    /** One round of the loop over members: indentation, key, value, separator, line end */
    method PrintNext(m: Member, more: bool, ghost members: seq<Member>, ghost q: seq<byte>) returns (ok: bool)
      requires members != [] && m == members[0] && (more <==> |members| > 1)
      modifies this
      ensures ok <==> old(depth) + Nesting(m.value) <= Max(NESTING_LIMIT, old(depth))
      ensures ok ==> depth == old(depth)
      ensures ok ==> text + MembersThen(members[1..], format, depth, q) == old(text) + MembersThen(members, format, depth, q)
      decreases m, 4
    {
      ghost var after := MoreMembers(members, format, depth, q);
      WriteIf(Tabs(depth), MemberThen(m, format, depth, after));
      ok := PrintMember(m, after);
      if !ok {
        return;
      }
      ghost var next := MembersThen(members[1..], format, depth, q);
      if more {
        Write([COMMA], If(format, [NEWLINE], next));
      }
      WriteIf([NEWLINE], next);
    }

    /** Key, colon and value */
    method PrintMember(m: Member, ghost q: seq<byte>) returns (ok: bool)
      modifies this
      ensures ok <==> old(depth) + Nesting(m.value) <= Max(NESTING_LIMIT, old(depth))
      ensures ok ==> depth == old(depth) && text + q == old(text) + MemberThen(m, format, old(depth), q)
      decreases m, 3
    {
      ghost var value := Then(m.value, format, depth, q);
      WriteString(m.key, [COLON] + If(format, [TAB], value));
      Write([COLON], If(format, [TAB], value));
      WriteIf([TAB], value);
      ok := PrintValue(m.value, q);
    }
  }

  // ---- Parsing ------------------------------------------------------------------------------------------

  /** What was read before the rest of a list */
  function Combine<T>(acc: seq<T>, r: Option<(seq<T>, seq<byte>)>): Option<(seq<T>, seq<byte>)> {
    if r.None? then None else Some((acc + r.value.0, r.value.1))
  }

  class ParseBuffer {
    const content: seq<byte>
    var offset: nat
    var depth: nat

    ghost predicate Valid()
      reads this
    {
      offset <= |content|
    }

    ghost function Rest(): seq<byte>
      reads this
      requires Valid()
    {
      content[offset..]
    }

    constructor (content: seq<byte>)
      ensures Valid() && this.content == content && offset == 0 && depth == 0
    {
      this.content := content;
      offset, depth := 0, 0;
    }

    /** can_access_at_index(buffer, 0) and the character there */
    predicate At(c: byte)
      reads this
      requires Valid()
    {
      offset < |content| && content[offset] == c
    }

    method Advance(n: nat)
      requires Valid() && n <= |Rest()|
      modifies this`offset
      ensures Valid() && Rest() == old(Rest())[n..]
    {
      offset := offset + n;
    }

    /** buffer_skip_whitespace */
    method SkipWhitespace()
      requires Valid()
      modifies this`offset
      ensures Valid() && Rest() == Skip(old(Rest()))
    {
      if offset >= |content| {
        return;
      }
      while offset < |content| && content[offset] <= 32
        invariant Valid() && DropBlanks(Rest()) == DropBlanks(old(Rest()))
        decreases |content| - offset
      {
        assert Rest()[1..] == content[offset + 1..];
        offset := offset + 1;
      }
      if offset == |content| {
        offset := offset - 1;
      }
    }

    /** parse_string */
    method ParseStringHere() returns (r: Option<seq<byte>>)
      requires Valid()
      modifies this`offset
      ensures Valid() && (r.None? <==> ParseString(old(Rest())).None?)
      ensures r.Some? ==> ParseString(old(Rest())) == Some((r.value, Rest()))
    {
      var ok, value, length := ParseStringAt(content[offset..]);
      if !ok {
        return None;
      }
      assert content[offset..][length..] == content[offset + length..];
      offset := offset + length;
      r := Some(value);
    }

    /** parse_value */
    method ParseValueHere() returns (r: Option<Json>)
      requires Valid()
      modifies this
      ensures Valid() && (r.None? <==> ParseValue(old(Rest()), old(depth)).None?)
      ensures r.Some? ==> ParseValue(old(Rest()), old(depth)) == Some((r.value, Rest())) && depth == old(depth)
      decreases |Rest()|, 1
    {
      if TextNull() <= content[offset..] {
        Advance(4);
        return Some(Null);
      }
      if TextFalse() <= content[offset..] {
        Advance(5);
        return Some(False);
      }
      if TextTrue() <= content[offset..] {
        Advance(4);
        return Some(True);
      }
      r := None;
      if At(QUOTE) {
        var s := ParseStringHere();
        if s.Some? {
          r := Some(Str(s.value));
        }
      } else if At(LBRACKET) {
        var items := ParseArrayHere();
        if items.Some? {
          r := Some(Arr(items.value));
        }
      } else if At(LBRACE) {
        var members := ParseObjectHere();
        if members.Some? {
          r := Some(Obj(members.value));
        }
      }
    }

    /** parse_array */
    method ParseArrayHere() returns (r: Option<seq<Json>>)
      requires Valid() && At(LBRACKET)
      modifies this
      ensures Valid() && (r.None? <==> ParseArray(old(Rest()), old(depth)).None?)
      ensures r.Some? ==> ParseArray(old(Rest()), old(depth)) == Some((r.value, Rest())) && depth == old(depth)
      decreases |Rest()|, 0
    {
      if depth >= NESTING_LIMIT {
        return None;
      }
      Enter();
      if offset >= |content| {
        return None;
      }
      if At(RBRACKET) {
        Advance(1);
        r := Some([]);
      } else {
        r := ParseItemsHere();
      }
      if r.Some? {
        depth := depth - 1;
      }
    }

    /** The loop of parse_array. The code steps back by one before it and forward again in every round. */
    method ParseItemsHere() returns (r: Option<seq<Json>>)
      requires Valid()
      modifies this
      ensures Valid() && (r.None? <==> ParseItems(old(Rest()), old(depth)).None?)
      ensures r.Some? ==> ParseItems(old(Rest()), old(depth)) == Some((r.value, Rest())) && depth == old(depth)
      decreases |Rest()|, 2
    {
      var items, more := [], true;
      ghost var d := depth;
      assert forall x: seq<Json> :: [] + x == x;
      while more
        invariant Valid() && depth == d && |Rest()| <= |old(Rest())|
        invariant more ==> ParseItems(old(Rest()), d) == Combine(items, ParseItems(Rest(), d))
        invariant !more && Starts(Rest(), RBRACKET) ==> ParseItems(old(Rest()), d) == Some((items, Rest()[1..]))
        invariant !more && !Starts(Rest(), RBRACKET) ==> ParseItems(old(Rest()), d) == None
        decreases more, |Rest()|
      {
        ghost var here, was := Rest(), items;
        SkipWhitespace();
        var v := ParseValueHere();
        if v.None? {
          return None;
        }
        SkipWhitespace();
        items := items + [v.value];
        more := At(COMMA);
        if more {
          Advance(1);
          CombineMore(was, v.value, ParseItems(Rest(), d));
        }
      }
      if !At(RBRACKET) {
        return None;
      }
      Advance(1);
      return Some(items);
    }

    /** parse_object */
    method ParseObjectHere() returns (r: Option<seq<Member>>)
      requires Valid() && At(LBRACE)
      modifies this
      ensures Valid() && (r.None? <==> ParseObject(old(Rest()), old(depth)).None?)
      ensures r.Some? ==> ParseObject(old(Rest()), old(depth)) == Some((r.value, Rest())) && depth == old(depth)
      decreases |Rest()|, 0
    {
      if depth >= NESTING_LIMIT {
        return None;
      }
      Enter();
      if offset >= |content| {
        return None;
      }
      if At(RBRACE) {
        Advance(1);
        r := Some([]);
      } else {
        r := ParseMembersHere();
      }
      if r.Some? {
        depth := depth - 1;
      }
    }

    /** Past the opening bracket and the blanks behind it */
    method Enter()
      requires Valid() && offset < |content|
      modifies this
      ensures Valid() && depth == old(depth) + 1 && Rest() == Skip(old(Rest())[1..])
    {
      depth := depth + 1;
      Advance(1);
      SkipWhitespace();
    }

    /** The loop of parse_object */
    method ParseMembersHere() returns (r: Option<seq<Member>>)
      requires Valid()
      modifies this
      ensures Valid() && (r.None? <==> ParseMembers(old(Rest()), old(depth)).None?)
      ensures r.Some? ==> ParseMembers(old(Rest()), old(depth)) == Some((r.value, Rest())) && depth == old(depth)
      decreases |Rest()|, 3
    {
      var members, more := [], true;
      ghost var d := depth;
      assert forall x: seq<Member> :: [] + x == x;
      while more
        invariant Valid() && depth == d && |Rest()| <= |old(Rest())|
        invariant more ==> ParseMembers(old(Rest()), d) == Combine(members, ParseMembers(Rest(), d))
        invariant !more && Starts(Rest(), RBRACE) ==> ParseMembers(old(Rest()), d) == Some((members, Rest()[1..]))
        invariant !more && !Starts(Rest(), RBRACE) ==> ParseMembers(old(Rest()), d) == None
        decreases more, |Rest()|
      {
        ghost var was := members;
        var m := ParseMemberHere();
        if m.None? {
          return None;
        }
        members := members + [m.value];
        more := At(COMMA);
        if more {
          Advance(1);
          CombineMore(was, m.value, ParseMembers(Rest(), d));
        }
      }
      if !At(RBRACE) {
        return None;
      }
      Advance(1);
      return Some(members);
    }

    /** One round of it */
    method ParseMemberHere() returns (r: Option<Member>)
      requires Valid()
      modifies this
      ensures Valid() && (r.None? <==> ParseMember(old(Rest()), old(depth)).None?)
      ensures r.Some? ==> ParseMember(old(Rest()), old(depth)) == Some((r.value, Rest())) && depth == old(depth)
      decreases |Rest()|, 2
    {
      if offset >= |content| {
        return None;
      }
      SkipWhitespace();
      var key := ParseStringHere();
      if key.None? {
        return None;
      }
      SkipWhitespace();
      if !At(COLON) {
        return None;
      }
      Advance(1);
      SkipWhitespace();
      var v := ParseValueHere();
      if v.None? {
        return None;
      }
      SkipWhitespace();
      return Some(Member(key.value, v.value));
    }
  }

  lemma CombineMore<T>(acc: seq<T>, x: T, r: Option<(seq<T>, seq<byte>)>)
    ensures Combine(acc + [x], r) == Combine(acc, if r.None? then None else Some(([x] + r.value.0, r.value.1)))
  {
    if r.Some? {
      assert acc + [x] + r.value.0 == acc + ([x] + r.value.0);
    }
  }

  // ---- Both ends ------------------------------------------------------------------------------------------

  /** cJSON_Print and cJSON_PrintUnformatted */
  method Print(t: Json, format: bool) returns (text: Option<seq<byte>>)
    ensures text.Some? <==> Nesting(t) <= NESTING_LIMIT
    ensures text.Some? ==> text.value == JsonTree.Text(t, format)
  {
    var p := new PrintBuffer(format);
    var ok := p.PrintValue(t, []);
    assert p.text + [] == p.text;
    text := if ok then Some(p.text) else None;
  }

  /** skip_utf8_bom and the blanks behind it */
  method Open(content: seq<byte>) returns (b: ParseBuffer)
    ensures fresh(b) && b.Valid() && b.content == content && b.depth == 0 && b.Rest() == Skip(DropBom(content))
  {
    b := new ParseBuffer(content);
    assert b.Rest() == content;
    if |b.content| >= 5 && [0xEF, 0xBB, 0xBF] <= b.content {
      b.Advance(3);
    }
    b.SkipWhitespace();
  }

  /** cJSON_ParseWithOpts on a C string */
  method ParseWithOpts(text: seq<byte>, requireEnd: bool) returns (t: Option<Json>)
    ensures t == Parse(text, requireEnd)
  {
    var b := Open(text + [0]);
    t := b.ParseValueHere();
    if t.Some? && requireEnd {
      b.SkipWhitespace();
      if !b.At(0) {
        t := None;
      }
    }
  }

  /** Printing and parsing back: every tree within the limit survives, deeper ones are not printed. */
  method PrintThenParse(t: Json, format: bool, requireEnd: bool) returns (u: Option<Json>)
    requires NulFree(t)
    ensures u == if Nesting(t) <= NESTING_LIMIT then Some(t) else None
  {
    var text := Print(t, format);
    if text.None? {
      return None;
    }
    u := ParseWithOpts(text.value, requireEnd);
    RoundTrip(t, format, requireEnd);
  }
}
