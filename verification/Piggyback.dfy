/** include/gles_util_stub.h and proxy/protocol/gles2.c: which bytes of a mapped vertex buffer go along with a
    draw, so that the proxy's real mapping holds what the client wrote. */
module Piggyback {
  import Bits
  import opened Bytes
  import opened Options

  const GL_BYTE: nat := 0x1400
  const GL_UNSIGNED_BYTE: nat := 0x1401
  const GL_SHORT: nat := 0x1402
  const GL_UNSIGNED_SHORT: nat := 0x1403
  const GL_INT: nat := 0x1404
  const GL_UNSIGNED_INT: nat := 0x1405
  const GL_FLOAT: nat := 0x1406
  const GL_HALF_FLOAT: nat := 0x140B
  const GL_FIXED: nat := 0x140C

  /** The widths of the data types (OpenGL ES 3.2, table 2.2) */
  const BITS: map<nat, nat> :=
    map[GL_BYTE := 8, GL_UNSIGNED_BYTE := 8, GL_SHORT := 16, GL_UNSIGNED_SHORT := 16, GL_HALF_FLOAT := 16,
        GL_INT := 32, GL_UNSIGNED_INT := 32, GL_FLOAT := 32, GL_FIXED := 32]

  // ---- Index bounds -----------------------------------------------------------------------------------

  /** index_type_size */
  function Width(kind: nat): nat {
    if kind == GL_UNSIGNED_BYTE then 1 else if kind == GL_UNSIGNED_SHORT then 2
    else if kind == GL_UNSIGNED_INT then 4 else 0
  }

  function RestartIndex(kind: nat): nat {
    if kind == GL_UNSIGNED_BYTE then 0xFF else if kind == GL_UNSIGNED_SHORT then 0xFFFF else 0xFFFF_FFFF
  }

  /** The i-th index of width w, as memcpy reads it */
  function Raw(idx: seq<byte>, w: nat, i: nat): nat
    requires (i + 1) * w <= |idx|
  {
    Bits.MulMono(i, i + 1, w);
    UnLe(idx[i * w..(i + 1) * w])
  }

  /** The vertices that the first n indices name, in order; restarts name none. */
  function Vertices(idx: seq<byte>, kind: nat, base: int, restart: bool, n: nat): seq<int>
    requires n * Width(kind) <= |idx|
  {
    if n == 0 then []
    else
      Bits.MulMono(n - 1, n, Width(kind));
      var raw := Raw(idx, Width(kind), n - 1);
      Vertices(idx, kind, base, restart, n - 1)
        + if restart && raw == RestartIndex(kind) then [] else [raw + base]
  }

  /** The types that indices can have */
  predicate IndexType(kind: nat) {
    kind in {GL_UNSIGNED_BYTE, GL_UNSIGNED_SHORT, GL_UNSIGNED_INT}
  }

  lemma WidthIs(kind: nat)
    ensures Width(kind) != 0 <==> IndexType(kind)
    ensures IndexType(kind) ==> 8 * Width(kind) == BITS[kind]
  {
    assert IndexType(kind) ==> kind in BITS;
  }

  /** An index is its bytes, the low one first. */
  lemma RawIs(idx: seq<byte>, w: nat, i: nat)
    requires (i + 1) * w <= |idx| && w in {1, 2, 4}
    ensures var at := i * w;
      && 0 <= at && at + w <= |idx|
      && Raw(idx, w, i) == (idx[at] as nat) + (if w > 1 then 0x100 * (idx[at + 1] as nat) else 0)
                           + (if w > 2 then 0x1_0000 * (idx[at + 2] as nat) + 0x100_0000 * (idx[at + 3] as nat) else 0)
  {
    Bits.MulMono(i, i + 1, w);
    assert (i + 1) * w == i * w + w;
    FewBytes(idx[i * w..i * w + w]);
  }

  /** The restart index of a type is the index whose bits are all ones. */
  lemma RestartIsAllOnes(idx: seq<byte>, kind: nat, i: nat)
    requires IndexType(kind) && (i + 1) * Width(kind) <= |idx|
    ensures 0 <= i * Width(kind) <= i * Width(kind) + Width(kind) <= |idx|
    ensures Raw(idx, Width(kind), i) == RestartIndex(kind)
      <==> forall k :: i * Width(kind) <= k < i * Width(kind) + Width(kind) ==> idx[k] == 0xFF
  {
    RawIs(idx, Width(kind), i);
  }

  predicate Greatest(v: int, s: seq<int>) {
    v in s && forall x :: x in s ==> x <= v
  }

  predicate Least(v: int, s: seq<int>) {
    v in s && forall x :: x in s ==> v <= x
  }

  /** mapped_index_bounds: the exact bounds of the vertices named, the lower one clamped at 0; false exactly
      when no vertex at or above 0 is named. */
  method MappedIndexBounds(idx: Option<seq<byte>>, count: int, kind: nat, base: int, restart: bool)
    returns (ok: bool, minVertex: int, maxVertex: int)
    requires idx.Some? && count > 0 ==> count * Width(kind) <= |idx.value|
    ensures ok <==>
      && idx.Some? && count > 0 && Width(kind) != 0
      && exists v :: v in Vertices(idx.value, kind, base, restart, count) && v >= 0
    ensures ok ==> Greatest(maxVertex, Vertices(idx.value, kind, base, restart, count))
    ensures ok ==> exists lo ::
      Least(lo, Vertices(idx.value, kind, base, restart, count)) && minVertex == if lo < 0 then 0 else lo
  {
    ok, minVertex, maxVertex := false, 0, 0;
    if idx.None? || count <= 0 || Width(kind) == 0 {
      return;
    }
    var w := Width(kind);
    var have := false;
    ghost var seen := [];
    var i := 0;
    while i < count
      invariant 0 <= i <= count && i * w <= |idx.value| && seen == Vertices(idx.value, kind, base, restart, i)
      invariant have <==> seen != []
      invariant have ==> Least(minVertex, seen) && Greatest(maxVertex, seen)
    {
      Bits.MulMono(i + 1, count, w);
      var raw := Raw(idx.value, w, i);
      if !(restart && raw == RestartIndex(kind)) {
        var vertex := raw + base;
        seen := seen + [vertex];
        if !have {
          minVertex, maxVertex, have := vertex, vertex, true;
        } else {
          if vertex < minVertex {
            minVertex := vertex;
          }
          if vertex > maxVertex {
            maxVertex := vertex;
          }
        }
      }
      i := i + 1;
    }
    if !have || maxVertex < 0 {
      return;
    }
    if minVertex < 0 {
      minVertex := 0;
    }
    ok := true;
  }

  // ---- The vertex range ----------------------------------------------------------------------------------

  const GL_MAP_WRITE_BIT: nat := 2
  const GL_MAP_FLUSH_EXPLICIT_BIT: nat := 0x10

  const GL_INT_2_10_10_10_REV: nat := 0x8D9F
  const GL_UNSIGNED_INT_2_10_10_10_REV: nat := 0x8368

  /** attrib_type_size */
  function TypeSize(kind: nat): nat {
    if kind == GL_BYTE || kind == GL_UNSIGNED_BYTE then 1
    else if kind == GL_SHORT || kind == GL_UNSIGNED_SHORT || kind == GL_HALF_FLOAT then 2
    else 4
  }

  predicate PackedType(kind: nat) {
    kind == GL_INT_2_10_10_10_REV || kind == GL_UNSIGNED_INT_2_10_10_10_REV
  }

  /** Bytes of one component of a vertex attribute. The packed types, and any that is none of a vertex attribute's
      (OpenGL ES 3.2, section 10.3), stand for a word each. */
  function ComponentBytes(kind: nat): nat {
    if kind in BITS then BITS[kind] / 8 else 4
  }

  /** The stub knows the component size of every type. */
  lemma TypeSizeIs(kind: nat)
    ensures TypeSize(kind) == ComponentBytes(kind) >= 1
  {
    assert kind in {GL_BYTE, GL_UNSIGNED_BYTE, GL_SHORT, GL_UNSIGNED_SHORT, GL_HALF_FLOAT} ==> kind in BITS;
    assert kind in BITS && kind !in {GL_BYTE, GL_UNSIGNED_BYTE, GL_SHORT, GL_UNSIGNED_SHORT, GL_HALF_FLOAT}
      ==> BITS[kind] == 32;
  }

  /** A vertex attribute as the vertex array object records it */
  datatype Attrib = Attrib(enabled: bool, vbo: nat, size: nat, kind: nat, stride: nat, pointer: nat)

  /** What one vertex of the attribute occupies: packed types hold all components in four bytes. */
  function Element(a: Attrib): nat {
    if PackedType(a.kind) then 4 else a.size * ComponentBytes(a.kind)
  }

  /** StubMapEntry: bytes is the stub's copy of the mapping */
  datatype Map = Map(live: bool, buffer: nat, offset: nat, bytes: seq<byte>, writable: bool, explicitFlush: bool)

  /** What the draw carries: a buffer (0: none), where its range starts, and the bytes */
  datatype Carried = Carried(buffer: nat, offset: nat, data: seq<byte>)

  /** The stub takes a stride of 0 for 1. */
  function StrideOf(a: Attrib): nat {
    if a.stride != 0 then a.stride else 1
  }

  function StartOf(a: Attrib, first: int): int {
    a.pointer + first * StrideOf(a)
  }

  function EndOf(a: Attrib, last: int): int {
    a.pointer + last * StrideOf(a) + a.size * TypeSize(a.kind)
  }

  predicate Shares(a: Attrib, buffer: nat) {
    a.enabled && a.vbo == buffer
  }

  /** The range from lo to hi spans what attribute a needs, as the stub counts it. */
  predicate Spans(lo: int, hi: int, a: Attrib, first: int, last: int) {
    lo <= StartOf(a, first) && EndOf(a, last) <= hi
  }

  /** The least range around what the attributes of the buffer need */
  ghost predicate Union(lo: int, hi: int, attribs: seq<Attrib>, buffer: nat, first: int, last: int) {
    && (forall j :: 0 <= j < |attribs| && Shares(attribs[j], buffer) ==> Spans(lo, hi, attribs[j], first, last))
    && (exists j :: 0 <= j < |attribs| && Shares(attribs[j], buffer) && lo == StartOf(attribs[j], first))
    && (exists j :: 0 <= j < |attribs| && Shares(attribs[j], buffer) && hi == EndOf(attribs[j], last))
  }

  /** The inner loop: the union over all attributes of the buffer */
  method UnionOf(attribs: seq<Attrib>, buffer: nat, ai: nat, first: int, last: int) returns (lo: int, hi: int)
    requires ai < |attribs| && Shares(attribs[ai], buffer)
    ensures Union(lo, hi, attribs, buffer, first, last)
  {
    lo, hi := StartOf(attribs[ai], first), EndOf(attribs[ai], last);
    var j := 0;
    while j < |attribs|
      invariant j <= |attribs| && Spans(lo, hi, attribs[ai], first, last)
      invariant forall k :: 0 <= k < j && Shares(attribs[k], buffer) ==> Spans(lo, hi, attribs[k], first, last)
      invariant exists k :: 0 <= k < |attribs| && Shares(attribs[k], buffer) && lo == StartOf(attribs[k], first)
      invariant exists k :: 0 <= k < |attribs| && Shares(attribs[k], buffer) && hi == EndOf(attribs[k], last)
    {
      var b := attribs[j];
      if b.enabled && b.vbo == buffer {
        if StartOf(b, first) < lo {
          lo := StartOf(b, first);
        }
        if EndOf(b, last) > hi {
          hi := EndOf(b, last);
        }
      }
      j := j + 1;
    }
  }

  /** Index of the buffer's live mapping, or |maps|; entry 0 is not used. */
  function FindMap(maps: seq<Map>, buffer: nat, i: nat): (k: nat)
    requires i <= |maps|
    ensures i <= k <= |maps| && (k < |maps| ==> maps[k].live && maps[k].buffer == buffer)
    ensures forall j :: i <= j < k ==> !(maps[j].live && maps[j].buffer == buffer)
    decreases |maps| - i
  {
    if i == |maps| || (maps[i].live && maps[i].buffer == buffer) then i else FindMap(maps, buffer, i + 1)
  }

  method FindMapOf(maps: seq<Map>, buffer: nat) returns (k: nat)
    requires |maps| > 0
    ensures k == FindMap(maps, buffer, 1)
  {
    k := 1;
    while k < |maps|
      invariant 1 <= k <= |maps| && FindMap(maps, buffer, 1) == FindMap(maps, buffer, k)
    {
      if maps[k].live && maps[k].buffer == buffer {
        return;
      }
      k := k + 1;
    }
  }

  /** What is carried is a piece of the buffer's mapping that spans all its attributes. */
  ghost predicate Good(c: Carried, attribs: seq<Attrib>, maps: seq<Map>, first: int, last: int)
    requires |maps| > 0
  {
    var k := FindMap(maps, c.buffer, 1);
    && k < |maps| && maps[k].writable && !maps[k].explicitFlush
    && (maps[k].offset + |maps[k].bytes| <= U32 ==>
          && maps[k].offset <= c.offset && c.offset + |c.data| <= maps[k].offset + |maps[k].bytes|
          && c.data == maps[k].bytes[c.offset - maps[k].offset..c.offset - maps[k].offset + |c.data|]
          && SpansAll(c.offset, c.offset + |c.data|, attribs, c.buffer, first, last))
  }

  /** A range that starts below 0 is cut off there. */
  ghost predicate SpansAll(lo: int, hi: int, attribs: seq<Attrib>, buffer: nat, first: int, last: int) {
    forall j :: 0 <= j < |attribs| && Shares(attribs[j], buffer) ==>
      (StartOf(attribs[j], first) >= 0 ==> lo <= StartOf(attribs[j], first)) && EndOf(attribs[j], last) <= hi
  }

  lemma PieceIsGood(c: Carried, attribs: seq<Attrib>, maps: seq<Map>, k: nat, lo: int, hi: int, first: int, last: int)
    requires |maps| > 0 && k == FindMap(maps, c.buffer, 1) < |maps| && maps[k].writable && !maps[k].explicitFlush
    requires forall j :: 0 <= j < |attribs| && Shares(attribs[j], c.buffer) ==> Spans(lo, hi, attribs[j], first, last)
    requires var start := if lo < 0 then 0 else lo;
      && maps[k].offset <= start < hi <= maps[k].offset + |maps[k].bytes| && c.offset == start % U32
      && c.data == maps[k].bytes[start - maps[k].offset..hi - maps[k].offset]
    ensures Good(c, attribs, maps, first, last)
  {
    forall j | 0 <= j < |attribs| && Shares(attribs[j], c.buffer)
      ensures Spans(lo, hi, attribs[j], first, last)
    {
    }
  }

  /** The range, cut off at 0, lies inside the buffer's mapping, which is writable and not flushed explicitly. */
  predicate Sendable(maps: seq<Map>, buffer: nat, lo: int, hi: int)
    requires |maps| > 0
  {
    var k, start := FindMap(maps, buffer, 1), Start(lo);
    k < |maps| && maps[k].writable && !maps[k].explicitFlush &&
    maps[k].offset <= start < hi <= maps[k].offset + |maps[k].bytes|
  }

  function Start(lo: int): int {
    if lo < 0 then 0 else lo
  }

  /** The attribute's buffer can be sent: its mapping contains the union of what its attributes need. */
  ghost predicate Sends(attribs: seq<Attrib>, maps: seq<Map>, ai: nat, first: int, last: int)
    requires |maps| > 0 && ai < |attribs|
  {
    var a := attribs[ai];
    a.enabled && a.vbo != 0 && exists lo, hi :: Union(lo, hi, attribs, a.vbo, first, last) && Sendable(maps, a.vbo, lo, hi)
  }

  ghost predicate FirstToSend(attribs: seq<Attrib>, maps: seq<Map>, ai: int, first: int, last: int)
    requires |maps| > 0
  {
    && 0 <= ai < |attribs| && Sends(attribs, maps, ai, first, last)
    && forall j :: 0 <= j < ai ==> !Sends(attribs, maps, j, first, last)
  }

  /** The union of the buffer's mapping, as the draw carries it */
  ghost predicate CarriesUnion(c: Carried, attribs: seq<Attrib>, maps: seq<Map>, lo: int, hi: int, first: int, last: int)
    requires |maps| > 0
  {
    var k := FindMap(maps, c.buffer, 1);
    && Union(lo, hi, attribs, c.buffer, first, last) && Sendable(maps, c.buffer, lo, hi)
    && c.offset == Start(lo) % U32
    && c.data == maps[k].bytes[Start(lo) - maps[k].offset..hi - maps[k].offset]
  }

  lemma UnionUnique(lo: int, hi: int, lo2: int, hi2: int, attribs: seq<Attrib>, buffer: nat, first: int, last: int)
    requires Union(lo, hi, attribs, buffer, first, last) && Union(lo2, hi2, attribs, buffer, first, last)
    ensures lo == lo2 && hi == hi2
  {
  }

  /** stub_vbo_piggyback_range: the buffer of the first enabled attribute that can be sent is carried, whole, and none
      if there is no such attribute. */
  method VboPiggybackRange(attribs: seq<Attrib>, maps: seq<Map>, first: int, last: int) returns (c: Carried)
    requires |maps| > 0
    ensures c.buffer == 0 <==> forall i :: 0 <= i < |attribs| ==> !Sends(attribs, maps, i, first, last)
    ensures c.buffer != 0 ==> Good(c, attribs, maps, first, last)
    ensures c.buffer != 0 ==> exists lo, hi :: CarriesUnion(c, attribs, maps, lo, hi, first, last)
    ensures c.buffer != 0 ==> exists i :: FirstToSend(attribs, maps, i, first, last) && c.buffer == attribs[i].vbo
  {
    c := Carried(0, 0, []);
    var ai := 0;
    while ai < |attribs|
      invariant ai <= |attribs| && c.buffer == 0
      invariant forall j :: 0 <= j < ai ==> !Sends(attribs, maps, j, first, last)
    {
      c := RangeOf(attribs, maps, ai, first, last);
      if c.buffer != 0 {
        assert FirstToSend(attribs, maps, ai, first, last);
        return;
      }
      ai := ai + 1;
    }
  }

  /** One round of its loop */
  method RangeOf(attribs: seq<Attrib>, maps: seq<Map>, ai: nat, first: int, last: int) returns (c: Carried)
    requires |maps| > 0 && ai < |attribs|
    ensures c.buffer != 0 <==> Sends(attribs, maps, ai, first, last)
    ensures c.buffer != 0 ==> c.buffer == attribs[ai].vbo && Good(c, attribs, maps, first, last)
    ensures c.buffer != 0 ==> exists lo, hi :: CarriesUnion(c, attribs, maps, lo, hi, first, last)
  {
    c := Carried(0, 0, []);
    var a := attribs[ai];
    if !a.enabled || a.vbo == 0 {
      return;
    }
    var k := FindMapOf(maps, a.vbo);
    if k == |maps| || maps[k].explicitFlush || !maps[k].writable {
      return;
    }
    var m := maps[k];
    var lo, hi := UnionOf(attribs, a.vbo, ai, first, last);
    var start := if lo < 0 then 0 else lo;
    if hi <= start || start < m.offset || hi > m.offset + |m.bytes| {
      NotSent(attribs, maps, ai, lo, hi, first, last);
      return;
    }
    var local := start - m.offset;
    c := Carried(a.vbo, start % U32, m.bytes[local..local + (hi - start)]);
    PieceIsGood(c, attribs, maps, k, lo, hi, first, last);
    assert CarriesUnion(c, attribs, maps, lo, hi, first, last);
  }

  lemma NotSent(attribs: seq<Attrib>, maps: seq<Map>, ai: nat, lo: int, hi: int, first: int, last: int)
    requires |maps| > 0 && ai < |attribs| && Union(lo, hi, attribs, attribs[ai].vbo, first, last)
    requires !Sendable(maps, attribs[ai].vbo, lo, hi)
    ensures !Sends(attribs, maps, ai, first, last)
  {
    forall lo2, hi2 | Union(lo2, hi2, attribs, attribs[ai].vbo, first, last)
      ensures !Sendable(maps, attribs[ai].vbo, lo2, hi2)
    {
      UnionUnique(lo, hi, lo2, hi2, attribs, attribs[ai].vbo, first, last);
    }
  }

  /** glDrawArrays names first + count as the last vertex, one more than it draws. With the least ranges around the
      drawn vertices (up to hi) and the named ones (up to more), the buffer is sent exactly when its mapping has room
      for the extra vertex too; a mapping that ends with the drawn ones is not sent. */
  lemma ExtraVertex(attribs: seq<Attrib>, maps: seq<Map>, buffer: nat, lo: int, hi: int, more: int, first: int, count: nat)
    requires |maps| > 0 && count > 0 && Union(lo, hi, attribs, buffer, first, first + count - 1)
    requires Union(lo, more, attribs, buffer, first, first + count) && Start(lo) < hi
    ensures hi < more
    ensures var k := FindMap(maps, buffer, 1);
      Sendable(maps, buffer, lo, more) <==>
        Sendable(maps, buffer, lo, hi) && k < |maps| && more <= maps[k].offset + |maps[k].bytes|
  {
    var j :| 0 <= j < |attribs| && Shares(attribs[j], buffer) && hi == EndOf(attribs[j], first + count - 1);
    assert Spans(lo, more, attribs[j], first, first + count);
    NextVertex(attribs[j], first + count);
  }

  lemma NextVertex(a: Attrib, v: int)
    ensures EndOf(a, v) == EndOf(a, v - 1) + StrideOf(a)
  {
  }

  // ---- What it is for ---------------------------------------------------------------------------------------

  /** A byte that a draw of the vertices first to last reads through an attribute with a stride */
  ghost predicate Reads(a: Attrib, first: nat, last: nat, p: int) {
    a.stride != 0 && exists v: nat :: first <= v <= last && ReadsAt(a, v, p)
  }

  predicate ReadsAt(a: Attrib, v: nat, p: int) {
    a.pointer + v * a.stride <= p < a.pointer + v * a.stride + Element(a)
  }

  /** The stub's span of an attribute with a stride contains every byte it reads. */
  lemma SpanCovers(a: Attrib, first: nat, last: nat, lo: int, hi: int, p: int)
    requires Spans(lo, hi, a, first, last) && Reads(a, first, last, p) && a.size >= 1
    ensures lo <= p < hi
  {
    var v: nat :| first <= v <= last && ReadsAt(a, v, p);
    Bits.MulMono(first, v, a.stride);
    Bits.MulMono(v, last, a.stride);
    TypeSizeIs(a.kind);
    Bits.MulMono(1, a.size, ComponentBytes(a.kind));
  }

  /** Whenever a buffer is carried, so is every byte that its attributes read. */
  lemma CarriedCovers(c: Carried, attribs: seq<Attrib>, maps: seq<Map>, first: nat, last: nat, j: nat, p: int)
    requires |maps| > 0 && c.buffer != 0 && Good(c, attribs, maps, first, last)
    requires var m := maps[FindMap(maps, c.buffer, 1)]; m.offset + |m.bytes| <= U32
    requires j < |attribs| && Shares(attribs[j], c.buffer) && attribs[j].size >= 1
    requires Reads(attribs[j], first, last, p)
    ensures c.offset <= p < c.offset + |c.data|
    ensures var m := maps[FindMap(maps, c.buffer, 1)];
      0 <= p - m.offset < |m.bytes| && c.data[p - c.offset] == m.bytes[p - m.offset]
  {
    Bits.MulMono(0, first, StrideOf(attribs[j]));
    SpanCovers(attribs[j], first, last, c.offset, c.offset + |c.data|, p);
  }

  /** The same for an attribute declared with stride 0, which is tightly packed */
  ghost predicate ReadsTight(a: Attrib, first: nat, last: nat, p: int) {
    exists v: nat :: first <= v <= last && ReadsTightAt(a, v, p)
  }

  predicate ReadsTightAt(a: Attrib, v: nat, p: int) {
    a.pointer + v * Element(a) <= p < a.pointer + v * Element(a) + Element(a)
  }

  lemma Distribute(v: int, e: int)
    ensures (v + 1) * e == v * e + e
  {
  }

  /** What a tightly packed attribute reads starts no earlier than the stub counts, and ends with its last vertex. */
  lemma TightWithin(a: Attrib, first: nat, last: nat, p: int)
    requires 1 <= Element(a) && ReadsTight(a, first, last, p)
    ensures a.pointer + first <= p < a.pointer + (last + 1) * Element(a)
  {
    var v: nat :| first <= v <= last && ReadsTightAt(a, v, p);
    var e := Element(a);
    Bits.MulMono(v + 1, last + 1, e);
    Bits.MulMono(1, e, v);
    Distribute(v, e);
  }

  lemma TightLast(a: Attrib, first: nat, last: nat)
    requires 1 <= Element(a) && first <= last
    ensures ReadsTight(a, first, last, a.pointer + (last + 1) * Element(a) - 1)
  {
    Distribute(last, Element(a));
    assert ReadsTightAt(a, last, a.pointer + (last + 1) * Element(a) - 1);
  }

  lemma ElementPositive(a: Attrib)
    requires a.size >= 1
    ensures Element(a) >= 1
  {
    TypeSizeIs(a.kind);
    Bits.MulMono(1, a.size, ComponentBytes(a.kind));
  }

  /** Some attribute of the buffer ends, as the stub counts, no earlier than attribute a really does. */
  ghost predicate Reached(a: Attrib, attribs: seq<Attrib>, buffer: nat, last: nat) {
    exists k :: 0 <= k < |attribs| && Shares(attribs[k], buffer)
      && a.pointer + (last + 1) * Element(a) <= EndOf(attribs[k], last)
  }

  /** A tightly packed attribute is declared with stride 0, which the stub takes for 1: the union of what the buffer's
      attributes need covers it exactly when one of them reaches far enough. */
  lemma TightInUnion(lo: int, hi: int, attribs: seq<Attrib>, buffer: nat, first: nat, last: nat, j: nat)
    requires Union(lo, hi, attribs, buffer, first, last) && first <= last
    requires j < |attribs| && Shares(attribs[j], buffer) && attribs[j].stride == 0 && attribs[j].size >= 1
    ensures (forall p :: ReadsTight(attribs[j], first, last, p) ==> lo <= p < hi)
      <==> Reached(attribs[j], attribs, buffer, last)
  {
    var a := attribs[j];
    ElementPositive(a);
    assert Spans(lo, hi, a, first, last);
    if Reached(a, attribs, buffer, last) {
      var k :| 0 <= k < |attribs| && Shares(attribs[k], buffer)
        && a.pointer + (last + 1) * Element(a) <= EndOf(attribs[k], last);
      assert Spans(lo, hi, attribs[k], first, last);
      forall p | ReadsTight(a, first, last, p) ensures lo <= p < hi {
        TightWithin(a, first, last, p);
      }
    } else {
      TightLast(a, first, last);
      var k :| 0 <= k < |attribs| && Shares(attribs[k], buffer) && hi == EndOf(attribs[k], last);
      assert a.pointer + (last + 1) * Element(a) - 1 >= hi;
    }
  }

  /** So does what a draw carries. */
  lemma TightCarried(c: Carried, attribs: seq<Attrib>, maps: seq<Map>, lo: int, hi: int, first: nat, last: nat, j: nat)
    requires |maps| > 0 && CarriesUnion(c, attribs, maps, lo, hi, first, last) && first <= last
    requires var m := maps[FindMap(maps, c.buffer, 1)]; m.offset + |m.bytes| <= U32
    requires j < |attribs| && Shares(attribs[j], c.buffer) && attribs[j].stride == 0 && attribs[j].size >= 1
    ensures (forall p :: ReadsTight(attribs[j], first, last, p) ==> c.offset <= p < c.offset + |c.data|)
      <==> Reached(attribs[j], attribs, c.buffer, last)
  {
    TightInUnion(lo, hi, attribs, c.buffer, first, last, j);
    ElementPositive(attribs[j]);
    assert c.offset == Start(lo) && c.offset + |c.data| == hi;
    forall p | ReadsTight(attribs[j], first, last, p)
      ensures lo <= p < hi <==> c.offset <= p < c.offset + |c.data|
    {
      TightWithin(attribs[j], first, last, p);
    }
  }

  /** For an attribute alone in its buffer: its vertices have to fit the bytes counted for itself. */
  lemma TightAttribute(a: Attrib, first: nat, last: nat)
    requires a.stride == 0 && first <= last && a.size >= 1
    ensures (forall p :: ReadsTight(a, first, last, p) ==> StartOf(a, first) <= p < EndOf(a, last))
      <==> (last + 1) * Element(a) <= last + a.size * ComponentBytes(a.kind)
  {
    ElementPositive(a);
    TypeSizeIs(a.kind);
    if (last + 1) * Element(a) <= last + a.size * ComponentBytes(a.kind) {
      forall p | ReadsTight(a, first, last, p) ensures StartOf(a, first) <= p < EndOf(a, last) {
        TightWithin(a, first, last, p);
      }
    } else {
      TightLast(a, first, last);
      assert a.pointer + (last + 1) * Element(a) - 1 >= EndOf(a, last);
    }
  }

  /** For separate components that is: elements of one byte, or vertex 0 alone. For the packed types, whose four
      components are counted as four words: no vertex after the fifth. */
  lemma TightCases(a: Attrib, last: nat)
    requires a.size >= 1
    ensures var fits := (last + 1) * Element(a) <= last + a.size * ComponentBytes(a.kind);
      if PackedType(a.kind) then
        a.size == 4 ==> (fits <==> last <= 4)
      else fits <==> Element(a) == 1 || last == 0
  {
    var e := Element(a);
    ElementPositive(a);
    TypeSizeIs(a.kind);
    Distribute(last, e);
    if e >= 2 {
      Bits.MulMono(2, e, last);
    }
  }

  /** Of two vertices of three floats the second is not covered. */
  lemma TightExample()
    ensures var a := Attrib(true, 1, 3, 0x1406, 0, 0); ReadsTight(a, 0, 1, 13) && 13 >= EndOf(a, 1)
  {
    assert ReadsTightAt(Attrib(true, 1, 3, 0x1406, 0, 0), 1, 13);
  }

  // ---- The proxy's side -----------------------------------------------------------------------------------

  /** The real mapping of a buffer */
  class RealMap {
    const buffer: nat
    const offset: nat
    const bytes: array<byte>

    constructor (buffer: nat, offset: nat, bytes: array<byte>)
      ensures this.buffer == buffer && this.offset == offset && this.bytes == bytes
    {
      this.buffer, this.offset, this.bytes := buffer, offset, bytes;
    }

    /** The copy in h_glDrawArrays and h_glDrawElements: all of the data, or nothing if it does not fit */
    method Apply(c: Carried)
      modifies bytes
      ensures var fits := c.buffer == buffer && c.offset >= offset && c.offset + |c.data| <= offset + bytes.Length;
        forall i :: 0 <= i < bytes.Length ==>
          bytes[i] == if fits && c.offset <= offset + i < c.offset + |c.data| then c.data[offset + i - c.offset]
                      else old(bytes[i])
    {
      if c.buffer != buffer || c.offset < offset || c.offset + |c.data| > offset + bytes.Length {
        return;
      }
      var at := c.offset - offset;
      for i := 0 to |c.data|
        invariant forall k :: 0 <= k < bytes.Length ==>
          bytes[k] == if at <= k < at + i then c.data[k - at] else old(bytes[k])
      {
        bytes[at + i] := c.data[i];
      }
    }
  }

  /** A mapping agrees with the stub's copy m on every byte that an attribute with a stride reads from the buffer. */
  ghost predicate UpToDate(mapping: seq<byte>, m: Map, attribs: seq<Attrib>, buffer: nat, first: nat, last: nat)
    requires |mapping| == |m.bytes|
  {
    forall j, p :: 0 <= j < |attribs| && Shares(attribs[j], buffer) && Reads(attribs[j], first, last, p) ==>
      0 <= p - m.offset < |m.bytes| && mapping[p - m.offset] == m.bytes[p - m.offset]
  }

  /** After the draw message the real mapping of the carried buffer is up to date. */
  method DrawRefreshes(attribs: seq<Attrib>, maps: seq<Map>, first: nat, last: nat, mapped: RealMap) returns (c: Carried)
    requires |maps| > 0 && FindMap(maps, mapped.buffer, 1) < |maps|
    requires var m := maps[FindMap(maps, mapped.buffer, 1)];
      mapped.offset == m.offset && mapped.bytes.Length == |m.bytes| && m.offset + |m.bytes| <= U32
    requires forall j :: 0 <= j < |attribs| ==> attribs[j].size >= 1
    modifies mapped.bytes
    ensures c.buffer == mapped.buffer != 0 ==>
      UpToDate(mapped.bytes[..], maps[FindMap(maps, mapped.buffer, 1)], attribs, c.buffer, first, last)
  {
    c := VboPiggybackRange(attribs, maps, first, last);
    mapped.Apply(c);
    if c.buffer == mapped.buffer && c.buffer != 0 {
      Refreshed(c, attribs, maps, first, last, mapped.bytes[..]);
    }
  }

  /** The real mapping once the carried bytes are in it */
  lemma Refreshed(c: Carried, attribs: seq<Attrib>, maps: seq<Map>, first: nat, last: nat, mapping: seq<byte>)
    requires |maps| > 0 && c.buffer != 0 && Good(c, attribs, maps, first, last)
    requires var m := maps[FindMap(maps, c.buffer, 1)];
      && m.offset + |m.bytes| <= U32 && |mapping| == |m.bytes|
      && forall i :: 0 <= i < |mapping| && c.offset <= m.offset + i < c.offset + |c.data| ==>
           mapping[i] == c.data[m.offset + i - c.offset]
    requires forall j :: 0 <= j < |attribs| ==> attribs[j].size >= 1
    ensures UpToDate(mapping, maps[FindMap(maps, c.buffer, 1)], attribs, c.buffer, first, last)
  {
    var m := maps[FindMap(maps, c.buffer, 1)];
    forall j, p | 0 <= j < |attribs| && Shares(attribs[j], c.buffer) && Reads(attribs[j], first, last, p)
      ensures 0 <= p - m.offset < |m.bytes| && mapping[p - m.offset] == m.bytes[p - m.offset]
    {
      CarriedCovers(c, attribs, maps, first, last, j, p);
    }
  }
}
