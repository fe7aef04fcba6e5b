/** What the framebuffer cache remembers, and for how long: an attachment stays a hit until something that concerns it
    happens, or until an attachment that is new to a full table. */
module FboKnown {
  import opened FboDriver
  import opened FboCache
  import opened FboRefines

  predicate DepthOrStencilPoint(a: nat) {
    a in {GL_DEPTH_ATTACHMENT, GL_STENCIL_ATTACHMENT, GL_DEPTH_STENCIL_ATTACHMENT}
  }

  /** Setting one attachment can change what the other one shows. */
  predicate Related(a: nat, b: nat) {
    a == b || (DepthOrStencilPoint(a) && DepthOrStencilPoint(b))
  }

  /** Does the table remember this attachment of a framebuffer object? */
  predicate Knows(r: Row, e: Entry) {
    e.fbo != 0 && e in r.entries
  }

  /** A new attachment finds a place: its own entry, an unused one, or that of a related attachment. */
  predicate HasPlace(r: Row, fbo: nat, attachment: nat) {
    exists i :: 0 <= i < |r.entries| &&
      (r.entries[i].fbo == 0 || (r.entries[i].fbo == fbo && Related(r.entries[i].attachment, attachment)))
  }

  function Framebuffer(r: Row, target: nat): nat {
    if target == GL_READ_FRAMEBUFFER then r.read else r.draw
  }

  /** The command attaches e in context c. */
  predicate Attaches(p: Proxy, cmd: Command, c: nat, e: Entry)
    requires p.Valid() && c < CONTEXTS
  {
    && cmd.AttachTexture? && p.driver.current == c && e.fbo != 0
    && e == Entry(Framebuffer(p.rows[c], cmd.target), cmd.attachment, cmd.textarget, cmd.texture, cmd.level)
  }

  /** Nothing the command does concerns attachment e of context c, and it does not start a full table over. */
  predicate Spares(p: Proxy, cmd: Command, c: nat, e: Entry)
    requires p.Valid() && c < CONTEXTS
  {
    var here, r := p.driver.current == c, p.rows[c];
    match cmd
    case CreateContext(ctx, _) => c == 0 || ctx != c
    case AttachTexture(target, attachment, textarget, texture, level) =>
      var fbo := Framebuffer(r, target);
      here && fbo != 0 ==>
        || Knows(r, Entry(fbo, attachment, textarget, texture, level))
        || (!(fbo == e.fbo && Related(attachment, e.attachment)) && HasPlace(r, fbo, attachment))
    case AttachRenderbuffer(target, attachment, _) =>
      here ==> !(Framebuffer(r, target) == e.fbo && Related(attachment, e.attachment))
    case DeleteTextures(tex) => e.texture == 0 || e.texture !in tex
    case DeleteFramebuffers(fbs) => here ==> e.fbo !in fbs
    case _ => true
  }

  // ---- One table ------------------------------------------------------------------------------

  /** A call is skipped exactly when the table remembers its attachment. */
  lemma HitExactly(r: Row, target: nat, attachment: nat, textarget: nat, texture: nat, level: int)
    requires 0 < |r.entries| && Unique(r.entries)
    ensures Attach(r, target, attachment, textarget, texture, level).0
      <==> Knows(r, Entry(Framebuffer(r, target), attachment, textarget, texture, level))
  {
    var s, e := r.entries, Entry(Framebuffer(r, target), attachment, textarget, texture, level);
    var k := Find(s, e.fbo, attachment, 0);
    if Knows(r, e) {
      var i :| 0 <= i < |s| && s[i] == e;
      assert AtKey(s[i], e.fbo, attachment);
      assert k == i;
    }
  }

  lemma Stored(s: seq<Entry>, k: nat, e: Entry, q: Entry)
    requires 0 < |s| && Unique(s) && e.fbo != 0 && k == Find(s, e.fbo, e.attachment, 0) && q.fbo != 0
    ensures Unique(Store(s, k, e))
    ensures q in Store(s, k, e) <==>
      q == e || (q in s && !AtKey(q, e.fbo, e.attachment) && (k < |s| || exists i :: 0 <= i < |s| && s[i].fbo == 0))
  {
    var s' := Store(s, k, e);
    var slot := if k < |s| then k else FindFree(s, 0);
    if slot < |s| {
      assert s'[slot] == e;
      forall i, j | 0 <= i < j < |s'| && s'[i].fbo != 0 ensures !AtKey(s'[j], s'[i].fbo, s'[i].attachment) {
        assert i != slot && j != slot ==> !AtKey(s[j], s[i].fbo, s[i].attachment);
        assert k < |s| ==> !AtKey(s[j], s[i].fbo, s[i].attachment);
      }
      forall i | 0 <= i < |s| && i != slot ensures s'[i] == s[i] && !AtKey(s[i], e.fbo, e.attachment) {
        if k < i {
          assert !AtKey(s[i], s[k].fbo, s[k].attachment);
        }
      }
    } else {
      assert s'[0] == e;
    }
  }

  lemma ShadowsCleared(s: seq<Entry>, fbo: nat, attachment: nat, q: Entry)
    requires q.fbo != 0 && Unique(s)
    ensures var s1 := ClearShadows(s, fbo, attachment);
      && Unique(s1)
      && (q in s1 <==> q in s && !(q.fbo == fbo && q.attachment != attachment && Related(q.attachment, attachment)))
  {
    var s1 := ClearShadows(s, fbo, attachment);
    if q in s {
      var i :| 0 <= i < |s| && s[i] == q;
      assert s1[i] == if Shadows(q, fbo, attachment) then Clear(q) else q;
    }
    forall i, j | 0 <= i < j < |s1| && s1[i].fbo != 0 ensures !AtKey(s1[j], s1[i].fbo, s1[i].attachment) {
      assert !AtKey(s[j], s[i].fbo, s[i].attachment);
    }
  }

  /** What the table remembers after a call, and what it forgets */
  lemma AttachRemembers(r: Row, cmd: Command, q: Entry)
    requires 0 < |r.entries| && Unique(r.entries) && cmd.AttachTexture? && q.fbo != 0
    ensures
      var fbo := Framebuffer(r, cmd.target);
      var e := Entry(fbo, cmd.attachment, cmd.textarget, cmd.texture, cmd.level);
      var r' := Attach(r, cmd.target, cmd.attachment, cmd.textarget, cmd.texture, cmd.level).1;
      && Unique(r'.entries)
      && (Knows(r', q) <==>
            || (fbo != 0 && q == e)
            || (Knows(r, q) &&
                (fbo == 0 || Knows(r, e) ||
                 (!(q.fbo == fbo && Related(cmd.attachment, q.attachment)) && HasPlace(r, fbo, cmd.attachment)))))
  {
    var s, fbo := r.entries, Framebuffer(r, cmd.target);
    var e := Entry(fbo, cmd.attachment, cmd.textarget, cmd.texture, cmd.level);
    HitExactly(r, cmd.target, cmd.attachment, cmd.textarget, cmd.texture, cmd.level);
    if fbo != 0 && !Knows(r, e) {
      var k, s1 := Find(s, fbo, cmd.attachment, 0), ClearShadows(s, fbo, cmd.attachment);
      FindSkipsShadows(s, fbo, cmd.attachment, 0);
      ShadowsCleared(s, fbo, cmd.attachment, q);
      Stored(s1, k, e, q);
      PlaceLeft(r, fbo, cmd.attachment);
    }
  }

  /** A place is left exactly when clearing the related attachments leaves one, or there is an entry to replace. */
  lemma PlaceLeft(r: Row, fbo: nat, attachment: nat)
    requires fbo != 0
    ensures var s1 := ClearShadows(r.entries, fbo, attachment);
      HasPlace(r, fbo, attachment) <==>
        (Find(r.entries, fbo, attachment, 0) < |r.entries| || exists i :: 0 <= i < |s1| && s1[i].fbo == 0)
  {
    var s, s1 := r.entries, ClearShadows(r.entries, fbo, attachment);
    if HasPlace(r, fbo, attachment) {
      var i :| 0 <= i < |s| && (s[i].fbo == 0 || (s[i].fbo == fbo && Related(s[i].attachment, attachment)));
      assert s1[i].fbo == 0 || AtKey(s[i], fbo, attachment);
    }
    if i :| 0 <= i < |s1| && s1[i].fbo == 0 {
      assert s[i].fbo == 0 || Shadows(s[i], fbo, attachment);
    }
  }

  lemma InvalidateForgets(r: Row, target: nat, attachment: nat, q: Entry)
    requires Unique(r.entries) && q.fbo != 0
    ensures var r' := Invalidate(r, target, attachment);
      && Unique(r'.entries)
      && (Knows(r', q) <==> Knows(r, q) && !(Framebuffer(r, target) == q.fbo && Related(attachment, q.attachment)))
  {
    var s, s' := r.entries, Invalidate(r, target, attachment).entries;
    if q in s {
      var i :| 0 <= i < |s| && s[i] == q;
      assert s'[i] == q || s'[i] == Clear(q);
    }
    forall i, j | 0 <= i < j < |s'| && s'[i].fbo != 0 ensures !AtKey(s'[j], s'[i].fbo, s'[i].attachment) {
      assert !AtKey(s[j], s[i].fbo, s[i].attachment);
    }
  }

  lemma TexturesForgotten(r: Row, tex: seq<nat>, q: Entry)
    requires Unique(r.entries) && q.fbo != 0
    ensures var r' := ForgetTextures(r, tex);
      Unique(r'.entries) && (Knows(r', q) <==> Knows(r, q) && (q.texture == 0 || q.texture !in tex))
  {
    var s, s' := r.entries, ForgetTextures(r, tex).entries;
    if q in s {
      var i :| 0 <= i < |s| && s[i] == q;
      assert s'[i] == q || s'[i] == Clear(q);
    }
    forall i, j | 0 <= i < j < |s'| && s'[i].fbo != 0 ensures !AtKey(s'[j], s'[i].fbo, s'[i].attachment) {
      assert !AtKey(s[j], s[i].fbo, s[i].attachment);
    }
  }

  lemma FbForgotten(r: Row, fb: nat, q: Entry)
    requires Unique(r.entries) && q.fbo != 0
    ensures var r' := ForgetFb(r, fb); Unique(r'.entries) && (Knows(r', q) <==> Knows(r, q) && q.fbo != fb)
  {
    var s, s' := r.entries, ForgetFb(r, fb).entries;
    if q in s {
      var i :| 0 <= i < |s| && s[i] == q;
      assert s'[i] == q || s'[i] == Clear(q);
    }
    forall i, j | 0 <= i < j < |s'| && s'[i].fbo != 0 ensures !AtKey(s'[j], s'[i].fbo, s'[i].attachment) {
      assert !AtKey(s[j], s[i].fbo, s[i].attachment);
    }
  }

  lemma {:induction false} FbsForgotten(r: Row, fbs: seq<nat>, q: Entry)
    requires Unique(r.entries) && q.fbo != 0
    ensures var r' := ForgetFbs(r, fbs); Unique(r'.entries) && (Knows(r', q) <==> Knows(r, q) && q.fbo !in fbs)
    decreases |fbs|
  {
    if fbs != [] {
      FbForgotten(r, fbs[0], q);
      FbsForgotten(ForgetFb(r, fbs[0]), fbs[1..], q);
      assert q.fbo in fbs <==> q.fbo == fbs[0] || q.fbo in fbs[1..];
    }
  }

  // ---- One command ----------------------------------------------------------------------------

  /** After any command, a context's table remembers what the command attached and what it spared, nothing else. */
  lemma KnownAfter(p: Proxy, cmd: Command, c: nat, q: Entry)
    requires p.Valid() && c < CONTEXTS && Unique(p.rows[c].entries) && q.fbo != 0
    ensures var p' := Handle(p, cmd);
      && p'.Valid() && Unique(p'.rows[c].entries)
      && (Knows(p'.rows[c], q) <==> Attaches(p, cmd, c, q) || (Knows(p.rows[c], q) && Spares(p, cmd, c, q)))
  {
    HandleValid(p, cmd);
    var r := p.rows[c];
    match cmd
    case AttachTexture(_, _, _, _, _) => AttachRemembers(r, cmd, q);
    case AttachRenderbuffer(target, attachment, _) => InvalidateForgets(r, target, attachment, q);
    case DeleteTextures(tex) => TexturesForgotten(r, tex, q);
    case DeleteFramebuffers(fbs) => FbsForgotten(r, fbs, q);
    case _ =>
  }

  // ---- Runs -----------------------------------------------------------------------------------

  /** Every command spares the attachment. */
  predicate AllSpare(p: Proxy, cmds: seq<Command>, c: nat, e: Entry)
    requires p.Valid() && c < CONTEXTS
    decreases |cmds|
  {
    if cmds == [] then true
    else
      HandleValid(p, cmds[0]);
      Spares(p, cmds[0], c, e) && AllSpare(Handle(p, cmds[0]), cmds[1..], c, e)
  }

  /** Some command made the attachment, and every later one spared it. */
  predicate Standing(p: Proxy, cmds: seq<Command>, c: nat, e: Entry)
    requires p.Valid() && c < CONTEXTS
    decreases |cmds|
  {
    if cmds == [] then false
    else
      HandleValid(p, cmds[0]);
      var q, rest := Handle(p, cmds[0]), cmds[1..];
      (Attaches(p, cmds[0], c, e) && AllSpare(q, rest, c, e)) || Standing(q, rest, c, e)
  }

  /** For every sequence of commands, over any contexts: a table remembers exactly what it remembered at first and every
      command spared, and what some command attached and every later one spared. */
  lemma {:induction false} KnownExactly(p: Proxy, cmds: seq<Command>, c: nat, e: Entry)
    requires p.Valid() && c < CONTEXTS && Unique(p.rows[c].entries) && e.fbo != 0
    ensures var q := HandleAll(p, cmds);
      && q.Valid() && Unique(q.rows[c].entries)
      && (Knows(q.rows[c], e) <==> (Knows(p.rows[c], e) && AllSpare(p, cmds, c, e)) || Standing(p, cmds, c, e))
    decreases |cmds|
  {
    if cmds != [] {
      KnownAfter(p, cmds[0], c, e);
      KnownExactly(Handle(p, cmds[0]), cmds[1..], c, e);
    }
  }

  /** From the start on, a call is skipped exactly when its attachment was made before and spared since. */
  lemma SkippedExactly(p: Proxy, cmds: seq<Command>, cmd: Command)
    requires Start(p) && cmd.AttachTexture?
    ensures HandleAll(p, cmds).Valid()
    ensures
      var q := HandleAll(p, cmds);
      var c := q.driver.current;
      var e := Entry(Framebuffer(q.rows[c], cmd.target), cmd.attachment, cmd.textarget, cmd.texture, cmd.level);
      (e.fbo != 0 && Standing(p, cmds, c, e)) <==>
        Attach(q.rows[c], cmd.target, cmd.attachment, cmd.textarget, cmd.texture, cmd.level).0
  {
    var q := HandleAll(p, cmds);
    KnownExactly(p, cmds, 0, Entry(1, 0, 0, 0, 0));
    var c := q.driver.current;
    var e := Entry(Framebuffer(q.rows[c], cmd.target), cmd.attachment, cmd.textarget, cmd.texture, cmd.level);
    KnownExactly(p, cmds, c, if e.fbo != 0 then e else e.(fbo := 1));
    HitExactly(q.rows[c], cmd.target, cmd.attachment, cmd.textarget, cmd.texture, cmd.level);
  }

  // ---- How long a table has room --------------------------------------------------------------

  function Taken(s: seq<Entry>): set<nat> {
    set i: nat | i < |s| && s[i].fbo != 0
  }

  lemma Larger(a: set<nat>, b: set<nat>)
    requires a <= b
    ensures |a| <= |b|
  {
    assert b == a + (b - a);
  }

  lemma {:induction false} AllTaken(s: seq<Entry>)
    requires forall i :: 0 <= i < |s| ==> s[i].fbo != 0
    ensures |Taken(s)| == |s|
  {
    if s != [] {
      var n := |s| - 1;
      AllTaken(s[..n]);
      assert Taken(s) == Taken(s[..n]) + {n};
    }
  }

  /** While fewer than all entries are taken, an attachment starts nothing over. */
  lemma RoomIsPlace(r: Row, fbo: nat, attachment: nat)
    requires |Taken(r.entries)| < |r.entries|
    ensures HasPlace(r, fbo, attachment)
  {
    var s := r.entries;
    if forall i :: 0 <= i < |s| ==> s[i].fbo != 0 {
      AllTaken(s);
    }
  }

  predicate AttachesIn(p: Proxy, cmd: Command, c: nat)
    requires p.Valid()
  {
    cmd.AttachTexture? && p.driver.current == c
  }

  /** An attachment takes at most one entry, nothing else takes any. */
  lemma TakesAtMostOne(p: Proxy, cmd: Command, c: nat)
    requires p.Valid() && c < CONTEXTS
    ensures |Taken(Handle(p, cmd).rows[c].entries)|
      <= |Taken(p.rows[c].entries)| + if AttachesIn(p, cmd, c) then 1 else 0
  {
    var s, r' := p.rows[c].entries, Handle(p, cmd).rows[c];
    if AttachesIn(p, cmd, c) {
      StoreTakesOne(p.rows[c], cmd);
    } else {
      if cmd.DeleteFramebuffers? && p.driver.current == c {
        ForgetTakesNone(p.rows[c], cmd.fbs);
      }
      Larger(Taken(r'.entries), Taken(s));
    }
  }

  lemma StoreTakesOne(r: Row, cmd: Command)
    requires 0 < |r.entries| && cmd.AttachTexture?
    ensures |Taken(Attach(r, cmd.target, cmd.attachment, cmd.textarget, cmd.texture, cmd.level).1.entries)|
      <= |Taken(r.entries)| + 1
  {
    var s := r.entries;
    var s' := Attach(r, cmd.target, cmd.attachment, cmd.textarget, cmd.texture, cmd.level).1.entries;
    var fbo := Bound(r, cmd.target);
    var k, s1 := Find(s, fbo, cmd.attachment, 0), ClearShadows(s, fbo, cmd.attachment);
    var slot := if k < |s| then k else FindFree(s1, 0);
    var at := if slot < |s| then slot else 0;
    assert Taken(s') <= Taken(s) + {at};
    Larger(Taken(s'), Taken(s) + {at});
  }

  lemma {:induction false} ForgetTakesNone(r: Row, fbs: seq<nat>)
    ensures Taken(ForgetFbs(r, fbs).entries) <= Taken(r.entries)
    decreases |fbs|
  {
    if fbs != [] {
      ForgetTakesNone(ForgetFb(r, fbs[0]), fbs[1..]);
    }
  }

  /** The number of attachments that the commands make in a context */
  function Made(p: Proxy, cmds: seq<Command>, c: nat): nat
    requires p.Valid()
    decreases |cmds|
  {
    if cmds == [] then 0
    else
      HandleValid(p, cmds[0]);
      (if AttachesIn(p, cmds[0], c) then 1 else 0) + Made(Handle(p, cmds[0]), cmds[1..], c)
  }

  /** The command is none of those that concern the attachment, full table or not. */
  predicate Unconcerned(p: Proxy, cmd: Command, c: nat, e: Entry)
    requires p.Valid() && c < CONTEXTS
  {
    if cmd.AttachTexture? && p.driver.current == c then
      Framebuffer(p.rows[c], cmd.target) == e.fbo && Related(cmd.attachment, e.attachment) ==> Attaches(p, cmd, c, e)
    else Spares(p, cmd, c, e)
  }

  predicate AllUnconcerned(p: Proxy, cmds: seq<Command>, c: nat, e: Entry)
    requires p.Valid() && c < CONTEXTS
    decreases |cmds|
  {
    cmds == [] || (
      HandleValid(p, cmds[0]);
      Unconcerned(p, cmds[0], c, e) && AllUnconcerned(Handle(p, cmds[0]), cmds[1..], c, e))
  }

  /** A remembered attachment outlives any number of commands that do not concern it, as long as the attachments among
      them find room: entries taken and attachments made are no more than the table holds. */
  lemma {:induction false} RememberedWhileRoom(p: Proxy, cmds: seq<Command>, c: nat, e: Entry)
    requires p.Valid() && c < CONTEXTS && Unique(p.rows[c].entries) && Knows(p.rows[c], e)
    requires |Taken(p.rows[c].entries)| + Made(p, cmds, c) <= ENTRIES && AllUnconcerned(p, cmds, c, e)
    ensures HandleAll(p, cmds).Valid() && Knows(HandleAll(p, cmds).rows[c], e)
    decreases |cmds|
  {
    if cmds != [] {
      var cmd := cmds[0];
      if AttachesIn(p, cmd, c) {
        RoomIsPlace(p.rows[c], Framebuffer(p.rows[c], cmd.target), cmd.attachment);
      }
      KnownAfter(p, cmd, c, e);
      TakesAtMostOne(p, cmd, c);
      RememberedWhileRoom(Handle(p, cmd), cmds[1..], c, e);
    }
  }
}
