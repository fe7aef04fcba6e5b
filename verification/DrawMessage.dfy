/** Draw messages: ArgWriter and ArgReader of include/gles_bridge_protocol.h, the encodings of glDrawArrays and
    glDrawElements in stub/gles2_stub.c, and their decodings in proxy/protocol/gles2.c. */
module DrawMessage {
  import opened Bytes

  const BRIDGE_ARGS_SIZE: nat := 256
  const MAX_VERTEX_ATTRIBS: nat := 16

  // ---- Cursors ----------------------------------------------------------------------------------------

  class ArgWriter {
    const buf: array<byte>
    var pos: nat

    ghost predicate Valid()
      reads this
    {
      pos <= buf.Length
    }

    /** What has been written */
    ghost function Done(): seq<byte>
      reads this, buf
      requires Valid()
    {
      buf[..pos]
    }

    /** aw_init */
    constructor (buf: array<byte>)
      ensures Valid() && this.buf == buf && pos == 0
    {
      this.buf, pos := buf, 0;
    }

    /** memcpy of an n-byte integer to the cursor */
    method Write(v: nat, n: nat)
      requires Valid() && pos + n <= buf.Length
      modifies this`pos, buf
      ensures Valid() && pos == old(pos) + n && Done() == old(Done()) + Le(v, n)
      ensures buf[pos..] == old(buf[pos + n..])
    {
      Put(v, n, pos);
      pos := pos + n;
    }

    /** memcpy of an n-byte integer to a given place */
    method Put(v: nat, n: nat, at: nat)
      requires at + n <= buf.Length
      modifies buf
      ensures buf[..] == old(buf[..at]) + Le(v, n) + old(buf[at + n..])
    {
      var i, w := 0, v;
      while i < n
        invariant i <= n
        invariant buf[..at + i] + Le(w, n - i) == old(buf[..at]) + Le(v, n)
        invariant buf[at + i..] == old(buf[at + i..])
      {
        ghost var was := buf[..];
        buf[at + i] := (w % 256) as byte;
        assert buf[..at + i + 1] == was[..at + i] + [(w % 256) as byte];
        assert buf[..at + i + 1] + Le(w / 256, n - i - 1) == was[..at + i] + Le(w, n - i);
        assert buf[at + i + 1..] == was[at + i..][1..] == old(buf[at + i..])[1..];
        w := w / 256;
        i := i + 1;
      }
      assert buf[..] == buf[..at + n] + buf[at + n..];
      assert Le(w, 0) == [];
    }

    /** What follows is appended to what is there. */
    method AwU32(v: nat, ghost rest: seq<byte>)
      requires Valid() && pos + 4 <= buf.Length
      modifies this`pos, buf
      ensures Valid() && pos == old(pos) + 4 && Done() + rest == old(Done()) + (Le(v, 4) + rest)
    {
      Write(v, 4);
      Assoc(old(Done()), Le(v, 4), rest);
    }

    method AwI32(v: int, ghost rest: seq<byte>)
      requires Valid() && pos + 4 <= buf.Length && -0x8000_0000 <= v < 0x8000_0000
      modifies this`pos, buf
      ensures Valid() && pos == old(pos) + 4 && Done() + rest == old(Done()) + (Le(AsU32(v), 4) + rest)
    {
      AwU32(AsU32(v), rest);
    }

    method AwU64(v: nat, ghost rest: seq<byte>)
      requires Valid() && pos + 8 <= buf.Length
      modifies this`pos, buf
      ensures Valid() && pos == old(pos) + 8 && Done() + rest == old(Done()) + (Le(v, 8) + rest)
    {
      Write(v, 8);
      Assoc(old(Done()), Le(v, 8), rest);
    }
  }

  lemma Assoc(a: seq<byte>, b: seq<byte>, c: seq<byte>)
    ensures (a + b) + c == a + (b + c)
  {
  }

  class ArgReader {
    const buf: array<byte>
    var pos: nat
    const cap: nat

    ghost predicate Valid()
      reads this
    {
      pos <= cap <= buf.Length
    }

    /** What is left to read */
    ghost function Rest(): seq<byte>
      reads this, buf
      requires Valid()
    {
      buf[pos..cap]
    }

    /** ar_init */
    constructor (buf: array<byte>, len: nat)
      requires len <= buf.Length
      ensures Valid() && this.buf == buf && pos == 0 && cap == len
    {
      this.buf, pos, cap := buf, 0, len;
    }

    method Read(n: nat) returns (v: nat)
      requires Valid() && n <= |Rest()|
      modifies this`pos
      ensures Valid() && v == UnLe(old(Rest())[..n]) && Rest() == old(Rest())[n..]
    {
      v := 0;
      var i := n;
      ghost var s := Rest()[..n];
      while i > 0
        invariant 0 <= i <= n && v == UnLe(s[i..])
      {
        i := i - 1;
        v := buf[pos + i] as nat + 256 * v;
        assert s[i] == buf[pos + i] && s[i..][1..] == s[i + 1..];
      }
      assert s[0..] == s;
      pos := pos + n;
      assert buf[pos..cap] == old(buf[pos..cap])[n..];
    }

    /** The next value is one that was written in front of the rest. */
    method ArU32(ghost v: nat, ghost rest: seq<byte>) returns (u: nat)
      requires Valid() && v < U32 && Rest() == Le(v, 4) + rest
      modifies this`pos
      ensures Valid() && u == v && Rest() == rest
    {
      u := Read(4);
      assert (Le(v, 4) + rest)[..4] == Le(v, 4) && (Le(v, 4) + rest)[4..] == rest;
      UnLeOfLe(v, 4) by { Widths(); }
    }

    method ArI32(ghost v: int, ghost rest: seq<byte>) returns (u: int)
      requires Valid() && -0x8000_0000 <= v < 0x8000_0000 && Rest() == Le(AsU32(v), 4) + rest
      modifies this`pos
      ensures Valid() && u == v && Rest() == rest
    {
      var w := ArU32(AsU32(v), rest);
      u := AsI32(w);
    }

    method ArU64(ghost v: nat, ghost rest: seq<byte>) returns (u: nat)
      requires Valid() && v < U64 && Rest() == Le(v, 8) + rest
      modifies this`pos
      ensures Valid() && u == v && Rest() == rest
    {
      u := Read(8);
      assert (Le(v, 8) + rest)[..8] == Le(v, 8) && (Le(v, 8) + rest)[8..] == rest;
      UnLeOfLe(v, 8) by { Widths(); }
    }
  }

  // ---- Messages -----------------------------------------------------------------------------------------

  /** A client-memory attribute and the arena offset its vertices were copied to */
  datatype Patch = Patch(attrib: nat, offset: nat)

  /** The range of a mapped vertex buffer that goes along with the draw; buffer 0 means none */
  datatype Range = Range(buffer: nat, offset: nat, length: nat) {
    predicate Valid() {
      buffer < U32 && offset < U32 && length < U32
    }
  }

  datatype Arrays = Arrays(mode: nat, first: int, count: int, patches: seq<Patch>, vbo: Range) {
    predicate Valid() {
      && mode < U32 && IsI32(first) && IsI32(count) && ValidPatches(patches) && vbo.Valid()
    }
  }

  datatype Indexed = Indexed(mode: nat, count: int, kind: nat, indices: nat, clientPtr: bool, patches: seq<Patch>,
                             ebo: Range, vbo: Range) {
    predicate Valid() {
      && mode < U32 && IsI32(count) && kind < U32 && indices < U64 && ValidPatches(patches)
      && ebo.Valid() && vbo.Valid()
    }
  }

  predicate IsI32(v: int) {
    -0x8000_0000 <= v < 0x8000_0000
  }

  predicate ValidPatches(patches: seq<Patch>) {
    |patches| <= MAX_VERTEX_ATTRIBS
    && forall i :: 0 <= i < |patches| ==> patches[i].attrib < MAX_VERTEX_ATTRIBS && patches[i].offset < U32
  }

  function PatchBytes(p: Patch): (s: seq<byte>)
    ensures |s| == 8
  {
    Le(p.attrib, 4) + Le(p.offset, 4)
  }

  function PatchesBytes(patches: seq<Patch>): (s: seq<byte>)
    ensures |s| == 8 * |patches|
  {
    if patches == [] then [] else PatchBytes(patches[0]) + PatchesBytes(patches[1..])
  }

  lemma {:induction false} PatchesAppend(patches: seq<Patch>, p: Patch)
    ensures PatchesBytes(patches + [p]) == PatchesBytes(patches) + PatchBytes(p)
    decreases |patches|
  {
    if patches == [] {
      assert [p][1..] == [];
    } else {
      assert (patches + [p])[1..] == patches[1..] + [p];
      PatchesAppend(patches[1..], p);
    }
  }

  function RangeBytes(r: Range): (s: seq<byte>)
    ensures |s| == 12
  {
    Le(r.buffer, 4) + (Le(r.offset, 4) + Le(r.length, 4))
  }

  /** The bytes that glDrawArrays leaves in the argument buffer */
  function ArraysBytes(m: Arrays): (s: seq<byte>)
    requires m.Valid()
    ensures |s| == 28 + 8 * |m.patches|
  {
    Le(m.mode, 4) + (Le(AsU32(m.first), 4) + (Le(AsU32(m.count), 4) + (Le(|m.patches|, 4)
      + (PatchesBytes(m.patches) + RangeBytes(m.vbo)))))
  }

  /** The bytes that glDrawElements leaves there */
  function IndexedBytes(m: Indexed): (s: seq<byte>)
    requires m.Valid()
    ensures |s| == 52 + 8 * |m.patches|
  {
    Le(m.mode, 4) + (Le(AsU32(m.count), 4) + (Le(m.kind, 4) + (Le(m.indices, 8) + (Le(if m.clientPtr then 1 else 0, 4)
      + (Le(|m.patches|, 4) + (PatchesBytes(m.patches) + (RangeBytes(m.ebo) + RangeBytes(m.vbo))))))))
  }

  // ---- Encoding ------------------------------------------------------------------------------------------

  /** AttribState, less what the message does not depend on */
  datatype Attrib = Attrib(enabled: bool, vbo: int, pointer: nat)

  /** Client memory that has to be copied */
  predicate Copied(a: Attrib) {
    a.enabled && a.vbo == 0 && a.pointer != 0
  }

  /** The patches for a run of attributes; offsets are where bridge_data_write put their vertices */
  function Patches(attribs: seq<Attrib>, offsets: seq<nat>): (p: seq<Patch>)
    requires |attribs| == |offsets|
    ensures |p| <= |attribs|
    ensures forall k :: 0 <= k < |p| ==>
      p[k].attrib < |attribs| && Copied(attribs[p[k].attrib]) && p[k].offset == offsets[p[k].attrib]
    decreases |attribs|
  {
    if attribs == [] then []
    else
      var n := |attribs| - 1;
      Patches(attribs[..n], offsets[..n]) + if Copied(attribs[n]) then [Patch(n, offsets[n])] else []
  }

  /** The pairs are those of the enabled attributes without a buffer and with a pointer, each with the offset of its
      vertices, in the order of the attributes. */
  ghost predicate ArePairs(p: seq<Patch>, attribs: seq<Attrib>, offsets: seq<nat>)
    requires |attribs| == |offsets|
  {
    && (forall i: nat, off: nat :: Patch(i, off) in p <==>
          && i < |attribs| && attribs[i].enabled && attribs[i].vbo == 0 && attribs[i].pointer != 0
          && off == offsets[i])
    && (forall j, k :: 0 <= j < k < |p| ==> p[j].attrib < p[k].attrib)
  }

  /** No attribute is left out, none is sent that should not be. */
  lemma {:induction false} PatchesComplete(attribs: seq<Attrib>, offsets: seq<nat>)
    requires |attribs| == |offsets|
    ensures ArePairs(Patches(attribs, offsets), attribs, offsets)
    decreases |attribs|
  {
    if attribs != [] {
      var n := |attribs| - 1;
      PatchesComplete(attribs[..n], offsets[..n]);
      forall i: nat | i < |attribs| && Copied(attribs[i]) ensures Patch(i, offsets[i]) in Patches(attribs, offsets) {
        if i < n {
          assert Copied(attribs[..n][i]) && Patch(i, offsets[..n][i]) in Patches(attribs[..n], offsets[..n]);
        }
      }
    }
  }

  /** Writing over the middle of what a buffer begins with */
  lemma Overwritten(buf: seq<byte>, a: seq<byte>, b: seq<byte>, c: seq<byte>, b': seq<byte>)
    requires |a + b + c| <= |buf| && buf[..|a + b + c|] == a + b + c && |b'| == |b|
    ensures (buf[..|a|] + b' + buf[|a| + |b|..])[..|a + b + c|] == a + b' + c
  {
    assert buf == a + b + c + buf[|a + b + c|..];
  }

  /** The counted list of patches: a placeholder, the pairs, and the count written back into the placeholder */
  method WritePatches(w: ArgWriter, attribs: seq<Attrib>, offsets: seq<nat>, ghost rest: seq<byte>)
    requires |attribs| == |offsets| == MAX_VERTEX_ATTRIBS
    requires w.Valid() && w.pos + 4 + 8 * |attribs| <= w.buf.Length
    modifies w`pos, w.buf
    ensures w.Valid()
    ensures var p := Patches(attribs, offsets);
      && w.Done() + rest == old(w.Done()) + (Le(|p|, 4) + (PatchesBytes(p) + rest))
      && w.pos == old(w.pos) + 4 + 8 * |p|
  {
    var countPos := w.pos;
    w.Write(0, 4);
    var count := WritePairs(w, attribs, offsets);
    ghost var pairs := PatchesBytes(Patches(attribs, offsets));
    Overwritten(w.buf[..], old(w.Done()), Le(0, 4), pairs, Le(count, 4));
    w.Put(count, 4, countPos);
    Assoc(old(w.Done()), Le(count, 4), pairs);
    Assoc(old(w.Done()), Le(count, 4) + pairs, rest);
    Assoc(Le(count, 4), pairs, rest);
  }

  method WritePairs(w: ArgWriter, attribs: seq<Attrib>, offsets: seq<nat>) returns (count: nat)
    requires |attribs| == |offsets| && w.Valid() && w.pos + 8 * |attribs| <= w.buf.Length
    modifies w`pos, w.buf
    ensures w.Valid() && count == |Patches(attribs, offsets)| && w.pos == old(w.pos) + 8 * count
    ensures w.Done() == old(w.Done()) + PatchesBytes(Patches(attribs, offsets))
  {
    count := 0;
    var i := 0;
    while i < |attribs|
      invariant i <= |attribs| && w.Valid()
      invariant count == |Patches(attribs[..i], offsets[..i])| <= i && w.pos == old(w.pos) + 8 * count
      invariant w.Done() == old(w.Done()) + PatchesBytes(Patches(attribs[..i], offsets[..i]))
    {
      ghost var p := Patches(attribs[..i], offsets[..i]);
      assert attribs[..i + 1][..i] == attribs[..i] && offsets[..i + 1][..i] == offsets[..i];
      if Copied(attribs[i]) {
        WritePair(w, Patch(i, offsets[i]));
        PatchesAppend(p, Patch(i, offsets[i]));
        Assoc(old(w.Done()), PatchesBytes(p), PatchBytes(Patch(i, offsets[i])));
        count := count + 1;
      } else {
        assert p + [] == p;
      }
      i := i + 1;
    }
    assert attribs[..i] == attribs && offsets[..i] == offsets;
  }

  method WritePair(w: ArgWriter, p: Patch)
    requires w.Valid() && w.pos + 8 <= w.buf.Length
    modifies w`pos, w.buf
    ensures w.Valid() && w.pos == old(w.pos) + 8 && w.Done() == old(w.Done()) + PatchBytes(p)
  {
    w.AwU32(p.attrib, Le(p.offset, 4));
    w.AwU32(p.offset, []);
    assert w.Done() + [] == w.Done() && Le(p.offset, 4) + [] == Le(p.offset, 4);
  }

  method WriteRange(w: ArgWriter, r: Range, ghost rest: seq<byte>)
    requires w.Valid() && w.pos + 12 <= w.buf.Length
    modifies w`pos, w.buf
    ensures w.Valid() && w.pos == old(w.pos) + 12 && w.Done() + rest == old(w.Done()) + (RangeBytes(r) + rest)
  {
    ghost var tail := Le(r.length, 4) + rest;
    w.AwU32(r.buffer, Le(r.offset, 4) + tail);
    w.AwU32(r.offset, tail);
    w.AwU32(r.length, rest);
    Assoc(Le(r.buffer, 4), Le(r.offset, 4) + Le(r.length, 4), rest);
    Assoc(Le(r.offset, 4), Le(r.length, 4), rest);
  }

  /** glDrawArrays: the message of the given call, at most 156 bytes of the 256 */
  method GlDrawArrays(args: array<byte>, mode: nat, first: int, count: int, attribs: seq<Attrib>, offsets: seq<nat>,
                      vbo: Range)
    returns (len: nat)
    requires args.Length == BRIDGE_ARGS_SIZE && |attribs| == |offsets| == MAX_VERTEX_ATTRIBS
    requires forall i :: 0 <= i < |offsets| ==> offsets[i] < U32
    requires mode < U32 && IsI32(first) && IsI32(count) && vbo.Valid()
    modifies args
    ensures var m := Arrays(mode, first, count, Patches(attribs, offsets), vbo);
      m.Valid() && len <= 156 && args[..len] == ArraysBytes(m)
    ensures ArePairs(Patches(attribs, offsets), attribs, offsets)
  {
    PatchesComplete(attribs, offsets);
    ghost var m := Arrays(mode, first, count, Patches(attribs, offsets), vbo);
    ghost var t1 := RangeBytes(vbo);
    ghost var t2 := Le(|m.patches|, 4) + (PatchesBytes(m.patches) + t1);
    ghost var t3 := Le(AsU32(count), 4) + t2;
    var w := new ArgWriter(args);
    w.AwU32(mode, Le(AsU32(first), 4) + t3);
    w.AwI32(first, t3);
    w.AwI32(count, t2);
    WritePatches(w, attribs, offsets, t1);
    assert t1 + [] == t1;
    WriteRange(w, vbo, []);
    len := w.pos;
    assert args[..len] + [] == args[..len];
  }

  /** The fixed part of an indexed draw */
  method WriteHead(w: ArgWriter, mode: nat, count: int, kind: nat, indices: nat, clientPtr: bool, ghost rest: seq<byte>)
    requires w.Valid() && w.pos + 24 <= w.buf.Length && IsI32(count)
    modifies w`pos, w.buf
    ensures w.Valid() && w.pos == old(w.pos) + 24
    ensures w.Done() + rest == old(w.Done()) + (Le(mode, 4) + (Le(AsU32(count), 4) + (Le(kind, 4)
      + (Le(indices, 8) + (Le(if clientPtr then 1 else 0, 4) + rest)))))
  {
    ghost var t := Le(if clientPtr then 1 else 0, 4) + rest;
    w.AwU32(mode, Le(AsU32(count), 4) + (Le(kind, 4) + (Le(indices, 8) + t)));
    w.AwI32(count, Le(kind, 4) + (Le(indices, 8) + t));
    w.AwU32(kind, Le(indices, 8) + t);
    w.AwU64(indices, t);
    w.AwU32(if clientPtr then 1 else 0, rest);
  }

  /** What glDrawElements sends. Without an element buffer the indices are client memory: the offset is 0, and pairs go
      along unless the pointer is null. */
  function Sent(mode: nat, count: int, kind: nat, elementBuffer: bool, indices: nat, attribs: seq<Attrib>,
                offsets: seq<nat>, ebo: Range, vbo: Range): Indexed
    requires |attribs| == |offsets|
  {
    Indexed(mode, count, kind, if elementBuffer then indices else 0, !elementBuffer,
            if !elementBuffer && indices != 0 then Patches(attribs, offsets) else [], ebo, vbo)
  }

  /** glDrawElements: at most 180 bytes. */
  method GlDrawElements(args: array<byte>, mode: nat, count: int, kind: nat, elementBuffer: bool, indices: nat,
                        attribs: seq<Attrib>, offsets: seq<nat>, ebo: Range, vbo: Range)
    returns (len: nat)
    requires args.Length == BRIDGE_ARGS_SIZE && |attribs| == |offsets| == MAX_VERTEX_ATTRIBS
    requires forall i :: 0 <= i < |offsets| ==> offsets[i] < U32
    requires mode < U32 && IsI32(count) && kind < U32 && indices < U64 && ebo.Valid() && vbo.Valid()
    modifies args
    ensures var m := Sent(mode, count, kind, elementBuffer, indices, attribs, offsets, ebo, vbo);
      m.Valid() && len <= 180 && args[..len] == IndexedBytes(m)
    ensures ArePairs(Patches(attribs, offsets), attribs, offsets)
  {
    PatchesComplete(attribs, offsets);
    ghost var m := Sent(mode, count, kind, elementBuffer, indices, attribs, offsets, ebo, vbo);
    ghost var t1 := RangeBytes(ebo) + RangeBytes(vbo);
    ghost var t2 := Le(|m.patches|, 4) + (PatchesBytes(m.patches) + t1);
    var w := new ArgWriter(args);
    var idx, clientPtr := 0, true;
    if elementBuffer {
      idx, clientPtr := indices, false;
    }
    WriteHead(w, mode, count, kind, idx, clientPtr, t2);
    if clientPtr && indices != 0 {
      WritePatches(w, attribs, offsets, t1);
    } else {
      assert PatchesBytes([]) + t1 == t1;
      w.AwU32(0, t1);
    }
    WriteRange(w, ebo, RangeBytes(vbo));
    assert RangeBytes(vbo) + [] == RangeBytes(vbo);
    WriteRange(w, vbo, []);
    len := w.pos;
    assert args[..len] + [] == args[..len];
  }

  // ---- Decoding ------------------------------------------------------------------------------------------

  method ReadPatches(r: ArgReader, ghost patches: seq<Patch>, ghost rest: seq<byte>) returns (p: seq<Patch>)
    requires r.Valid() && ValidPatches(patches) && r.Rest() == Le(|patches|, 4) + (PatchesBytes(patches) + rest)
    modifies r`pos
    ensures r.Valid() && p == patches && r.Rest() == rest
  {
    var count := r.ArU32(|patches|, PatchesBytes(patches) + rest);
    p := [];
    var i := 0;
    while i < count
      invariant i <= count == |patches| && p == patches[..i]
      invariant r.Valid() && r.Rest() == PatchesBytes(patches[i..]) + rest
    {
      ghost var after := PatchesBytes(patches[i + 1..]) + rest;
      assert patches[i..][1..] == patches[i + 1..] && patches[i..][0] == patches[i];
      assert r.Rest() == Le(patches[i].attrib, 4) + (Le(patches[i].offset, 4) + after);
      var attrib := r.ArU32(patches[i].attrib, Le(patches[i].offset, 4) + after);
      var offset := r.ArU32(patches[i].offset, after);
      p := p + [Patch(attrib, offset)];
      i := i + 1;
    }
    assert patches[i..] == [] && patches[..i] == patches;
    assert r.Rest() == [] + rest;
  }

  method ReadRange(r: ArgReader, ghost range: Range, ghost rest: seq<byte>) returns (x: Range)
    requires r.Valid() && range.Valid() && r.Rest() == RangeBytes(range) + rest
    modifies r`pos
    ensures r.Valid() && x == range && r.Rest() == rest
  {
    assert r.Rest() == Le(range.buffer, 4) + (Le(range.offset, 4) + (Le(range.length, 4) + rest));
    var buffer := r.ArU32(range.buffer, Le(range.offset, 4) + (Le(range.length, 4) + rest));
    var offset := r.ArU32(range.offset, Le(range.length, 4) + rest);
    var length := r.ArU32(range.length, rest);
    x := Range(buffer, offset, length);
  }

  /** h_glDrawArrays finds in the message what was put there. */
  method HGlDrawArrays(args: array<byte>, len: nat, ghost m: Arrays) returns (x: Arrays)
    requires len <= args.Length && m.Valid() && args[..len] == ArraysBytes(m)
    ensures x == m
  {
    var r := new ArgReader(args, len);
    ghost var tail := PatchesBytes(m.patches) + RangeBytes(m.vbo);
    var mode := r.ArU32(m.mode, Le(AsU32(m.first), 4) + (Le(AsU32(m.count), 4) + (Le(|m.patches|, 4) + tail)));
    var first := r.ArI32(m.first, Le(AsU32(m.count), 4) + (Le(|m.patches|, 4) + tail));
    var count := r.ArI32(m.count, Le(|m.patches|, 4) + tail);
    var patches := ReadPatches(r, m.patches, RangeBytes(m.vbo));
    assert RangeBytes(m.vbo) == RangeBytes(m.vbo) + [];
    var vbo := ReadRange(r, m.vbo, []);
    x := Arrays(mode, first, count, patches, vbo);
  }

  method ReadIndexed(args: array<byte>, len: nat, ghost m: Indexed) returns (x: Indexed)
    requires len <= args.Length && m.Valid() && args[..len] == IndexedBytes(m)
    ensures x == m
  {
    var r := new ArgReader(args, len);
    ghost var t1 := RangeBytes(m.ebo) + RangeBytes(m.vbo);
    ghost var t2 := Le(|m.patches|, 4) + (PatchesBytes(m.patches) + t1);
    ghost var t3 := Le(if m.clientPtr then 1 else 0, 4) + t2;
    var mode := r.ArU32(m.mode, Le(AsU32(m.count), 4) + (Le(m.kind, 4) + (Le(m.indices, 8) + t3)));
    var count := r.ArI32(m.count, Le(m.kind, 4) + (Le(m.indices, 8) + t3));
    var kind := r.ArU32(m.kind, Le(m.indices, 8) + t3);
    var indices := r.ArU64(m.indices, t3);
    var clientPtr := r.ArU32(if m.clientPtr then 1 else 0, t2);
    var patches := ReadPatches(r, m.patches, t1);
    var ebo := ReadRange(r, m.ebo, RangeBytes(m.vbo));
    assert RangeBytes(m.vbo) == RangeBytes(m.vbo) + [];
    var vbo := ReadRange(r, m.vbo, []);
    x := Indexed(mode, count, kind, indices, clientPtr != 0, patches, ebo, vbo);
  }

  /** h_glDrawElements keeps the index offset in a uintptr_t of its own width, 32 bits in the proxy's build:
      it gets the whole message exactly when the offset fits. */
  method HGlDrawElements(args: array<byte>, len: nat, pointers: nat, ghost m: Indexed) returns (x: Indexed)
    requires len <= args.Length && m.Valid() && args[..len] == IndexedBytes(m) && pointers > 0
    ensures x == m.(indices := m.indices % pointers)
    ensures x == m <==> m.indices < pointers
  {
    var raw := ReadIndexed(args, len, m);
    x := raw.(indices := raw.indices % pointers);
  }

  // ---- Both ends -----------------------------------------------------------------------------------------

  /** A draw message arrives as it was sent. */
  method DrawArraysArrives(mode: nat, first: int, count: int, attribs: seq<Attrib>, offsets: seq<nat>, vbo: Range)
    returns (x: Arrays)
    requires |attribs| == |offsets| == MAX_VERTEX_ATTRIBS && forall i :: 0 <= i < |offsets| ==> offsets[i] < U32
    requires mode < U32 && IsI32(first) && IsI32(count) && vbo.Valid()
    ensures x.mode == mode && x.first == first && x.count == count && x.vbo == vbo
    ensures ArePairs(x.patches, attribs, offsets)
  {
    var args := new byte[BRIDGE_ARGS_SIZE](_ => 0);
    var len := GlDrawArrays(args, mode, first, count, attribs, offsets, vbo);
    x := HGlDrawArrays(args, len, Arrays(mode, first, count, Patches(attribs, offsets), vbo));
  }

  /** With an element buffer the 32-bit proxy draws from the index offset that was sent exactly when that is below 2^32.
      Without one it draws from the indices that go along, and has the pairs unless their pointer was null. */
  method DrawElementsArrives(mode: nat, count: int, kind: nat, elementBuffer: bool, indices: nat, attribs: seq<Attrib>,
                             offsets: seq<nat>, ebo: Range, vbo: Range)
    returns (x: Indexed)
    requires |attribs| == |offsets| == MAX_VERTEX_ATTRIBS && forall i :: 0 <= i < |offsets| ==> offsets[i] < U32
    requires mode < U32 && IsI32(count) && kind < U32 && indices < U64 && ebo.Valid() && vbo.Valid()
    ensures x.mode == mode && x.count == count && x.kind == kind && x.ebo == ebo && x.vbo == vbo
    ensures x.clientPtr <==> !elementBuffer
    ensures elementBuffer ==> x.patches == [] && x.indices == indices % U32 && (x.indices == indices <==> indices < U32)
    ensures !elementBuffer ==> x.indices == 0
    ensures !elementBuffer ==> if indices != 0 then ArePairs(x.patches, attribs, offsets) else x.patches == []
  {
    var args := new byte[BRIDGE_ARGS_SIZE](_ => 0);
    var len := GlDrawElements(args, mode, count, kind, elementBuffer, indices, attribs, offsets, ebo, vbo);
    x := HGlDrawElements(args, len, U32, Sent(mode, count, kind, elementBuffer, indices, attribs, offsets, ebo, vbo));
  }

  /** An integer can be read off the front of a message in one way only. */
  lemma FrontIs(v: nat, w: nat, n: nat, s: seq<byte>, t: seq<byte>)
    requires v < Radix(n) && w < Radix(n) && Le(v, n) + s == Le(w, n) + t
    ensures v == w && s == t
  {
    assert (Le(v, n) + s)[..n] == Le(v, n) && (Le(w, n) + t)[..n] == Le(w, n);
    assert (Le(v, n) + s)[n..] == s && (Le(w, n) + t)[n..] == t;
    UnLeOfLe(v, n);
    UnLeOfLe(w, n);
  }

  lemma Front32(v: nat, w: nat, s: seq<byte>, t: seq<byte>)
    requires v < U32 && w < U32 && Le(v, 4) + s == Le(w, 4) + t
    ensures v == w && s == t
  {
    FrontIs(v, w, 4, s, t) by { Widths(); }
  }

  lemma {:induction false} PatchesFront(p: seq<Patch>, q: seq<Patch>, s: seq<byte>, t: seq<byte>)
    requires ValidPatches(p) && ValidPatches(q) && |p| == |q| && PatchesBytes(p) + s == PatchesBytes(q) + t
    ensures p == q && s == t
    decreases |p|
  {
    if p == [] {
      assert [] + s == s && [] + t == t;
    } else {
      var a, b := PatchesBytes(p[1..]) + s, PatchesBytes(q[1..]) + t;
      assert PatchesBytes(p) + s == Le(p[0].attrib, 4) + (Le(p[0].offset, 4) + a);
      assert PatchesBytes(q) + t == Le(q[0].attrib, 4) + (Le(q[0].offset, 4) + b);
      Front32(p[0].attrib, q[0].attrib, Le(p[0].offset, 4) + a, Le(q[0].offset, 4) + b);
      Front32(p[0].offset, q[0].offset, a, b);
      PatchesFront(p[1..], q[1..], s, t);
    }
  }

  lemma RangeFront(a: Range, b: Range, s: seq<byte>, t: seq<byte>)
    requires a.Valid() && b.Valid() && RangeBytes(a) + s == RangeBytes(b) + t
    ensures a == b && s == t
  {
    assert RangeBytes(a) + s == Le(a.buffer, 4) + (Le(a.offset, 4) + (Le(a.length, 4) + s));
    assert RangeBytes(b) + t == Le(b.buffer, 4) + (Le(b.offset, 4) + (Le(b.length, 4) + t));
    Front32(a.buffer, b.buffer, Le(a.offset, 4) + (Le(a.length, 4) + s), Le(b.offset, 4) + (Le(b.length, 4) + t));
    Front32(a.offset, b.offset, Le(a.length, 4) + s, Le(b.length, 4) + t);
    Front32(a.length, b.length, s, t);
  }

  /** Two draws with the same argument bytes are the same draw: nothing is lost, no count is ambiguous. */
  lemma ArraysBytesDecide(m: Arrays, k: Arrays)
    requires m.Valid() && k.Valid() && ArraysBytes(m) == ArraysBytes(k)
    ensures m == k
  {
    var r, q := RangeBytes(m.vbo), RangeBytes(k.vbo);
    var m3, k3 := Le(|m.patches|, 4) + (PatchesBytes(m.patches) + r), Le(|k.patches|, 4) + (PatchesBytes(k.patches) + q);
    var m2, k2 := Le(AsU32(m.count), 4) + m3, Le(AsU32(k.count), 4) + k3;
    Front32(m.mode, k.mode, Le(AsU32(m.first), 4) + m2, Le(AsU32(k.first), 4) + k2);
    Front32(AsU32(m.first), AsU32(k.first), m2, k2);
    Front32(AsU32(m.count), AsU32(k.count), m3, k3);
    Front32(|m.patches|, |k.patches|, PatchesBytes(m.patches) + r, PatchesBytes(k.patches) + q);
    PatchesFront(m.patches, k.patches, r, q);
    assert r + [] == q + [];
    RangeFront(m.vbo, k.vbo, [], []);
  }
}
