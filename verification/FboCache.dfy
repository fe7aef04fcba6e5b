/** proxy/protocol/gles2.c: the framebuffer attachment cache. Per context a table of 64 entries, searched
    and changed in place. */
module FboCache {
  import opened FboDriver

  const ENTRIES: nat := 64

  /** FboAttachEntry; fbo 0 means unused */
  datatype Entry = Entry(fbo: nat, attachment: nat, textarget: nat, texture: nat, level: int)

  /** One context's part of the cache: g_fbo_cache[c], g_fbo_draw[c], g_fbo_read[c] */
  datatype Row = Row(entries: seq<Entry>, draw: nat, read: nat)

  // ---- What the operations do to a row ------------------------------------------------------

  predicate DepthOrStencil(a: nat) {
    a == GL_DEPTH_ATTACHMENT || a == GL_STENCIL_ATTACHMENT || a == GL_DEPTH_STENCIL_ATTACHMENT
  }

  /** fbo_attachments_alias */
  predicate Alias(a: nat, b: nat) {
    a == b || (DepthOrStencil(a) && DepthOrStencil(b))
  }

  function Bound(r: Row, target: nat): nat {
    if target == GL_READ_FRAMEBUFFER then r.read else r.draw
  }

  function Clear(e: Entry): Entry {
    e.(fbo := 0)
  }

  function Blank(n: nat): (s: seq<Entry>)
    ensures |s| == n
  {
    seq(n, _ => Entry(0, 0, 0, 0, 0))
  }

  predicate AtKey(e: Entry, fbo: nat, attachment: nat) {
    e.fbo == fbo && e.attachment == attachment
  }

  /** First entry of a framebuffer's attachment, or the length. */
  function Find(s: seq<Entry>, fbo: nat, attachment: nat, i: nat): (k: nat)
    requires i <= |s|
    ensures i <= k <= |s| && (k < |s| ==> AtKey(s[k], fbo, attachment))
    ensures forall j :: i <= j < k ==> !AtKey(s[j], fbo, attachment)
    decreases |s| - i
  {
    if i == |s| || AtKey(s[i], fbo, attachment) then i else Find(s, fbo, attachment, i + 1)
  }

  /** First unused entry, or the length. */
  function FindFree(s: seq<Entry>, i: nat): (k: nat)
    requires i <= |s|
    ensures i <= k <= |s| && (k < |s| ==> s[k].fbo == 0)
    ensures forall j :: i <= j < k ==> s[j].fbo != 0
    decreases |s| - i
  {
    if i == |s| || s[i].fbo == 0 then i else FindFree(s, i + 1)
  }

  /** Is entry e about a depth/stencil alias, under another name, of this attachment? */
  predicate Shadows(e: Entry, fbo: nat, attachment: nat) {
    e.fbo == fbo && e.attachment != attachment && Alias(e.attachment, attachment)
  }

  function ClearShadows(s: seq<Entry>, fbo: nat, attachment: nat): (r: seq<Entry>)
    ensures |r| == |s|
  {
    seq(|s|, i requires 0 <= i < |s| => if Shadows(s[i], fbo, attachment) then Clear(s[i]) else s[i])
  }

  /** Put e into entry k if there is one, else into the first free entry, else into an emptied table. */
  function Store(s: seq<Entry>, k: nat, e: Entry): (r: seq<Entry>)
    requires 0 < |s| && k <= |s|
    ensures |r| == |s|
  {
    var slot := if k < |s| then k else FindFree(s, 0);
    if slot < |s| then s[slot := e] else Blank(|s|)[0 := e]
  }

  /** fbo_cache_attach: whether the driver call can be skipped, and the new table. */
  function Attach(r: Row, target: nat, attachment: nat, textarget: nat, texture: nat, level: int): (bool, Row)
    requires 0 < |r.entries|
  {
    var fbo := Bound(r, target);
    if fbo == 0 then (false, r)
    else
      var s, e := r.entries, Entry(fbo, attachment, textarget, texture, level);
      var k := Find(s, fbo, attachment, 0);
      if k < |s| && s[k] == e then (true, r)
      else (false, r.(entries := Store(ClearShadows(s, fbo, attachment), k, e)))
  }

  /** fbo_cache_invalidate_attachment */
  function Invalidate(r: Row, target: nat, attachment: nat): Row {
    var fbo, s := Bound(r, target), r.entries;
    r.(entries := seq(|s|, i requires 0 <= i < |s| =>
         if s[i].fbo == fbo && Alias(s[i].attachment, attachment) then Clear(s[i]) else s[i]))
  }

  /** fbo_cache_forget_textures, in one context */
  function ForgetTextures(r: Row, tex: seq<nat>): Row {
    var s := r.entries;
    r.(entries := seq(|s|, i requires 0 <= i < |s| =>
         if s[i].texture != 0 && s[i].texture in tex then Clear(s[i]) else s[i]))
  }

  /** fbo_cache_forget_fbos, for one name */
  function ForgetFb(r: Row, fb: nat): Row {
    var s := r.entries;
    if fb == 0 then r
    else
      Row(seq(|s|, i requires 0 <= i < |s| => if s[i].fbo == fb then Clear(s[i]) else s[i]),
          if r.draw == fb then 0 else r.draw, if r.read == fb then 0 else r.read)
  }

  function ForgetFbs(r: Row, fbs: seq<nat>): Row
    decreases |fbs|
  {
    if fbs == [] then r else ForgetFbs(ForgetFb(r, fbs[0]), fbs[1..])
  }

  lemma {:induction false} ForgetFbsAppend(r: Row, fbs: seq<nat>, fb: nat)
    ensures ForgetFbs(r, fbs + [fb]) == ForgetFb(ForgetFbs(r, fbs), fb)
    decreases |fbs|
  {
    if fbs == [] {
      assert fbs + [fb] == [fb];
    } else {
      assert (fbs + [fb])[1..] == fbs[1..] + [fb];
      ForgetFbsAppend(ForgetFb(r, fbs[0]), fbs[1..], fb);
    }
  }

  /** fbo_cache_bind */
  function BindRow(r: Row, target: nat, fb: nat): Row {
    r.(draw := if target == GL_FRAMEBUFFER || target == GL_DRAW_FRAMEBUFFER then fb else r.draw,
       read := if target == GL_FRAMEBUFFER || target == GL_READ_FRAMEBUFFER then fb else r.read)
  }

  function EmptyRow(): Row {
    Row(Blank(ENTRIES), 0, 0)
  }

  // ---- The cache as the proxy keeps it --------------------------------------------------------

  class Cache {
    const entries: array2<Entry>
    const draw: array<nat>
    const read: array<nat>
    var current: nat

    ghost predicate Valid()
      reads this
    {
      && entries.Length0 == CONTEXTS && entries.Length1 == ENTRIES
      && draw.Length == CONTEXTS && read.Length == CONTEXTS && draw != read
      && current < CONTEXTS
    }

    ghost function Line(c: nat): (s: seq<Entry>)
      reads this, entries
      requires Valid() && c < CONTEXTS
      ensures |s| == ENTRIES
    {
      seq(ENTRIES, i requires 0 <= i < ENTRIES reads this, entries => entries[c, i])
    }

    ghost function View(c: nat): (r: Row)
      reads this, entries, draw, read
      requires Valid() && c < CONTEXTS
      ensures |r.entries| == ENTRIES
    {
      Row(Line(c), draw[c], read[c])
    }

    constructor ()
      ensures Valid() && fresh(entries) && fresh(draw) && fresh(read) && current == 0
      ensures forall c :: 0 <= c < CONTEXTS ==> View(c) == EmptyRow()
    {
      entries := new Entry[CONTEXTS, ENTRIES]((_, _) => Entry(0, 0, 0, 0, 0));
      draw, read := new nat[CONTEXTS](_ => 0), new nat[CONTEXTS](_ => 0);
      current := 0;
    }

    method SetCurrent(c: nat)
      requires Valid() && c < CONTEXTS
      modifies this`current
      ensures Valid() && current == c && forall b :: 0 <= b < CONTEXTS ==> View(b) == old(View(b))
    {
      current := c;
      assert forall b :: 0 <= b < CONTEXTS ==> Line(b) == old(Line(b));
    }

    method BoundFb(target: nat) returns (fb: nat)
      requires Valid()
      ensures fb == Bound(View(current), target)
    {
      fb := if target == GL_READ_FRAMEBUFFER then read[current] else draw[current];
    }

    method Bind(target: nat, fb: nat)
      requires Valid()
      modifies draw, read
      ensures View(current) == BindRow(old(View(current)), target, fb)
      ensures forall c :: 0 <= c < CONTEXTS && c != current ==> View(c) == old(View(c))
    {
      if target == GL_FRAMEBUFFER || target == GL_DRAW_FRAMEBUFFER {
        draw[current] := fb;
      }
      if target == GL_FRAMEBUFFER || target == GL_READ_FRAMEBUFFER {
        read[current] := fb;
      }
    }

    /** fbo_cache_reset_ctx */
    method ResetCtx(c: nat)
      requires Valid()
      modifies entries, draw, read
      ensures c < CONTEXTS ==> View(c) == EmptyRow()
      ensures forall b :: 0 <= b < CONTEXTS && b != c ==> View(b) == old(View(b))
    {
      if c >= CONTEXTS {
        return;
      }
      Wipe(c);
      draw[c], read[c] := 0, 0;
    }

    /** memset of one context's entries */
    method Wipe(c: nat)
      requires Valid() && c < CONTEXTS
      modifies entries
      ensures Line(c) == Blank(ENTRIES)
      ensures forall b :: 0 <= b < CONTEXTS && b != c ==> Line(b) == old(Line(b))
    {
      for i := 0 to ENTRIES
        invariant forall j :: 0 <= j < i ==> entries[c, j] == Entry(0, 0, 0, 0, 0)
        invariant forall b, j :: 0 <= b < CONTEXTS && b != c && 0 <= j < ENTRIES ==> entries[b, j] == old(entries[b, j])
      {
        entries[c, i] := Entry(0, 0, 0, 0, 0);
      }
    }

    method InvalidateAttachment(target: nat, attachment: nat)
      requires Valid()
      modifies entries
      ensures View(current) == Invalidate(old(View(current)), target, attachment)
      ensures forall c :: 0 <= c < CONTEXTS && c != current ==> View(c) == old(View(c))
    {
      var fbo := BoundFb(target);
      ghost var want := Invalidate(View(current), target, attachment).entries;
      for i := 0 to ENTRIES
        invariant forall j :: 0 <= j < i ==> entries[current, j] == want[j]
        invariant forall j :: i <= j < ENTRIES ==> entries[current, j] == old(entries[current, j])
        invariant forall b, j :: 0 <= b < CONTEXTS && b != current && 0 <= j < ENTRIES ==>
          entries[b, j] == old(entries[b, j])
      {
        if entries[current, i].fbo == fbo && Alias(entries[current, i].attachment, attachment) {
          entries[current, i] := Clear(entries[current, i]);
        }
      }
      assert Line(current) == want;
    }

    /** The first entry of a framebuffer's attachment in the current context */
    method FindEntry(fbo: nat, attachment: nat) returns (k: nat)
      requires Valid()
      ensures k == Find(Line(current), fbo, attachment, 0) <= ENTRIES
    {
      k := 0;
      while k < ENTRIES
        invariant k <= ENTRIES && Find(Line(current), fbo, attachment, 0) == Find(Line(current), fbo, attachment, k)
      {
        if entries[current, k].fbo == fbo && entries[current, k].attachment == attachment {
          return;
        }
        k := k + 1;
      }
    }

    /** Changing depth or stencil also changes the aliased entries. */
    method ClearAliases(fbo: nat, attachment: nat, slot: nat)
      requires Valid() && slot == Find(Line(current), fbo, attachment, 0)
      modifies entries
      ensures Line(current) == ClearShadows(old(Line(current)), fbo, attachment)
      ensures forall c :: 0 <= c < CONTEXTS && c != current ==> Line(c) == old(Line(c))
    {
      ghost var want := ClearShadows(Line(current), fbo, attachment);
      for i := 0 to ENTRIES
        invariant forall j :: 0 <= j < i ==> entries[current, j] == want[j]
        invariant forall j :: i <= j < ENTRIES ==> entries[current, j] == old(entries[current, j])
        invariant forall b, j :: 0 <= b < CONTEXTS && b != current && 0 <= j < ENTRIES ==>
          entries[b, j] == old(entries[b, j])
      {
        var e := entries[current, i];
        if e.fbo == fbo && i != slot && e.attachment != attachment && Alias(e.attachment, attachment) {
          entries[current, i] := Clear(e);
        }
      }
      assert Line(current) == want;
    }

    /** Entry k, or the first free one, or the first after starting over */
    method Place(k: nat, e: Entry)
      requires Valid() && k <= ENTRIES
      modifies entries
      ensures Line(current) == Store(old(Line(current)), k, e)
      ensures forall c :: 0 <= c < CONTEXTS && c != current ==> Line(c) == old(Line(c))
    {
      var slot := k;
      if slot == ENTRIES {
        slot := 0;
        while slot < ENTRIES && entries[current, slot].fbo != 0
          invariant slot <= ENTRIES && FindFree(Line(current), 0) == FindFree(Line(current), slot)
        {
          slot := slot + 1;
        }
        if slot == ENTRIES {
          Wipe(current);
          slot := 0;
        }
      }
      ghost var was := Line(current);
      entries[current, slot] := e;
      assert Line(current) == was[slot := e];
    }

    /** fbo_cache_attach: true if this exact attachment is already in place */
    method AttachTo(target: nat, attachment: nat, textarget: nat, texture: nat, level: int) returns (hit: bool)
      requires Valid()
      modifies entries
      ensures hit == Attach(old(View(current)), target, attachment, textarget, texture, level).0
      ensures View(current) == Attach(old(View(current)), target, attachment, textarget, texture, level).1
      ensures forall c :: 0 <= c < CONTEXTS && c != current ==> View(c) == old(View(c))
    {
      var fbo := BoundFb(target);
      if fbo == 0 {
        return false;
      }
      var e := Entry(fbo, attachment, textarget, texture, level);
      var k := FindEntry(fbo, attachment);
      if k < ENTRIES && entries[current, k] == e {
        return true;
      }
      ClearAliases(fbo, attachment, k);
      Place(k, e);
      return false;
    }

    method ForgetTextureNames(tex: seq<nat>)
      requires Valid()
      modifies entries
      ensures forall c :: 0 <= c < CONTEXTS ==> View(c) == ForgetTextures(old(View(c)), tex)
    {
      var c := 0;
      while c < CONTEXTS
        invariant c <= CONTEXTS
        invariant forall b :: 0 <= b < c ==> Line(b) == ForgetTextures(old(View(b)), tex).entries
        invariant forall b :: c <= b < CONTEXTS ==> Line(b) == old(Line(b))
      {
        ForgetIn(c, tex);
        c := c + 1;
      }
    }

    method ForgetIn(c: nat, tex: seq<nat>)
      requires Valid() && c < CONTEXTS
      modifies entries
      ensures Line(c) == ForgetTextures(old(View(c)), tex).entries
      ensures forall b :: 0 <= b < CONTEXTS && b != c ==> Line(b) == old(Line(b))
    {
      ghost var want := ForgetTextures(View(c), tex).entries;
      for i := 0 to ENTRIES
        invariant forall j :: 0 <= j < i ==> entries[c, j] == want[j]
        invariant forall j :: i <= j < ENTRIES ==> entries[c, j] == old(entries[c, j])
        invariant forall b, j :: 0 <= b < CONTEXTS && b != c && 0 <= j < ENTRIES ==> entries[b, j] == old(entries[b, j])
      {
        var e := entries[c, i];
        if e.fbo != 0 {
          var k := 0;
          while k < |tex| && !(tex[k] != 0 && e.texture == tex[k])
            invariant k <= |tex| && forall m :: 0 <= m < k ==> !(tex[m] != 0 && e.texture == tex[m])
          {
            k := k + 1;
          }
          if k < |tex| {
            entries[c, i] := Clear(e);
          }
        }
      }
      assert Line(c) == want;
    }

    method ForgetFbNames(fbs: seq<nat>)
      requires Valid()
      modifies entries, draw, read
      ensures View(current) == ForgetFbs(old(View(current)), fbs)
      ensures forall c :: 0 <= c < CONTEXTS && c != current ==> View(c) == old(View(c))
    {
      var k := 0;
      while k < |fbs|
        invariant k <= |fbs| && View(current) == ForgetFbs(old(View(current)), fbs[..k])
        invariant forall c :: 0 <= c < CONTEXTS && c != current ==> View(c) == old(View(c))
      {
        ForgetFbName(fbs[k]);
        assert fbs[..k + 1] == fbs[..k] + [fbs[k]];
        ForgetFbsAppend(old(View(current)), fbs[..k], fbs[k]);
        k := k + 1;
      }
      assert fbs[..k] == fbs;
    }

    method ForgetFbName(fb: nat)
      requires Valid()
      modifies entries, draw, read
      ensures View(current) == ForgetFb(old(View(current)), fb)
      ensures forall c :: 0 <= c < CONTEXTS && c != current ==> View(c) == old(View(c))
    {
      if fb == 0 {
        return;
      }
      ForgetFbEntries(fb);
      if draw[current] == fb {
        draw[current] := 0;
      }
      if read[current] == fb {
        read[current] := 0;
      }
    }

    method ForgetFbEntries(fb: nat)
      requires Valid() && fb != 0
      modifies entries
      ensures Line(current) == ForgetFb(old(View(current)), fb).entries
      ensures forall c :: 0 <= c < CONTEXTS && c != current ==> Line(c) == old(Line(c))
    {
      ghost var want := ForgetFb(View(current), fb).entries;
      for i := 0 to ENTRIES
        invariant forall j :: 0 <= j < i ==> entries[current, j] == want[j]
        invariant forall j :: i <= j < ENTRIES ==> entries[current, j] == old(entries[current, j])
        invariant forall b, j :: 0 <= b < CONTEXTS && b != current && 0 <= j < ENTRIES ==>
          entries[b, j] == old(entries[b, j])
      {
        if entries[current, i].fbo == fb {
          entries[current, i] := Clear(entries[current, i]);
        }
      }
      assert Line(current) == want;
    }
  }
}
