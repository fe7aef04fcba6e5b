/** What the texture shadow remembers, and for how long: a binding stays known until the texture is deleted, another one
    is bound in its place, or the shadow starts afresh. */
module ShadowKnown {
  import opened ShadowTex
  import opened ShadowRefines

  /** Four targets on thirty-two units */
  predicate TrackedPlace(unit: nat, target: nat) {
    GL_TEXTURE0 <= unit < GL_TEXTURE0 + 32
    && target in {GL_TEXTURE_2D, GL_TEXTURE_2D_ARRAY, GL_TEXTURE_CUBE_MAP, GL_TEXTURE_3D}
  }

  /** Context c's shadow has name v at a unit and target. */
  predicate Knows(s: Stub, c: nat, unit: nat, target: nat, v: nat)
    requires s.Valid() && c < MAX_CONTEXTS
  {
    s.shadows[c].initialised && exists i :: 0 <= i < SLOTS && Place(i) == (unit, target) && s.shadows[c].bound[i] == v
  }

  /** The current context's shadow starts afresh with the next call: it is new, or a context has been created. */
  predicate Fresh(s: Stub)
    requires s.Valid()
  {
    s.pending > 0 || !s.shadows[s.current].initialised
  }

  /** The unit that the stub takes for the active one */
  function ActiveUnit(s: Stub): nat
    requires s.Valid()
  {
    if Fresh(s) then GL_TEXTURE0 else s.shadows[s.current].active
  }

  predicate BindsAt(s: Stub, cmd: Command, c: nat, unit: nat, target: nat)
    requires s.Valid()
  {
    cmd.Bind? && s.current == c && ActiveUnit(s) == unit && cmd.target == target
  }

  /** The command leaves v at the place: it binds v there, or starts the shadow afresh with 0 everywhere. */
  predicate Makes(s: Stub, cmd: Command, c: nat, unit: nat, target: nat, v: nat)
    requires s.Valid()
  {
    && (cmd.Active? || cmd.Bind?) && s.current == c
    && if BindsAt(s, cmd, c, unit, target) then cmd.name == v else Fresh(s) && v == 0
  }

  /** The command changes nothing about v at the place. */
  predicate Spares(s: Stub, cmd: Command, c: nat, unit: nat, target: nat, v: nat)
    requires s.Valid()
  {
    match cmd
    case Delete(tex) => v == 0 || v !in tex
    case MakeCurrent(_) => true
    case CreateContext(_, _) => true
    case _ => !BindsAt(s, cmd, c, unit, target) && !(s.pending > 0 && (c == s.current || c == s.pending))
  }

  // ---- One call -------------------------------------------------------------------------------------

  lemma PlaceHasSlot(unit: nat, target: nat)
    ensures TrackedPlace(unit, target) <==> TexSlot(target, unit).Some?
    ensures TrackedPlace(unit, target) ==> exists i :: 0 <= i < SLOTS && Place(i) == (unit, target)
  {
    PlaceOfSlot(target, unit);
    var slot := TexSlot(target, unit);
    assert slot.Some? ==> Place(slot.value) == (unit, target);
  }

  /** glActiveTexture is dropped exactly when its unit is the one known to be active. */
  lemma ActiveDroppedExactly(s: Stub, texture: nat)
    requires s.Valid()
    ensures !ActiveTexture(s, texture).0 <==> texture == ActiveUnit(s)
  {
  }

  /** glBindTexture is dropped exactly when the place is tracked and the name is known to be bound there. */
  lemma BindDroppedExactly(s: Stub, target: nat, name: nat)
    requires s.Valid()
    ensures !BindTexture(s, target, name).0 <==>
      && TrackedPlace(ActiveUnit(s), target)
      && if Fresh(s) then name == 0 else Knows(s, s.current, ActiveUnit(s), target, name)
  {
    PlaceHasSlot(ActiveUnit(s), target);
    PlaceOfSlot(target, ActiveUnit(s));
  }

  // ---- One command ------------------------------------------------------------------------------------

  predicate Calls(cmd: Command) {
    cmd.Active? || cmd.Bind?
  }

  lemma {:induction false} DeletedForgotten(s: Stub, tex: seq<nat>, c: nat, i: nat)
    requires s.Valid() && c < MAX_CONTEXTS && i < SLOTS
    ensures var x, x' := s.shadows[c], InvalidateAll(s, tex).shadows[c];
      && x'.initialised == x.initialised && x'.active == x.active
      && x'.bound[i] == if x.bound[i] != 0 && x.bound[i] in tex then SHADOW_TEX_INVALID else x.bound[i]
    decreases |tex|
  {
    if tex != [] {
      DeletedForgotten(InvalidateTexture(s, tex[0]), tex[1..], c, i);
    }
  }

  /** A place has one slot. */
  lemma KnowsIs(s: Stub, c: nat, unit: nat, target: nat, v: nat)
    requires s.Valid() && c < MAX_CONTEXTS && TrackedPlace(unit, target)
    ensures TexSlot(target, unit).Some?
    ensures Knows(s, c, unit, target, v)
      <==> s.shadows[c].initialised && s.shadows[c].bound[TexSlot(target, unit).value] == v
  {
    PlaceHasSlot(unit, target);
    PlaceOfSlot(target, unit);
  }

  /** What a call does before anything else */
  lemma AccessLeaves(s: Stub, c: nat, i: nat)
    requires s.Valid() && c < MAX_CONTEXTS && i < SLOTS
    ensures var x, x', there := s.shadows[c], Access(s).shadows[c], s.pending > 0 && c == s.pending;
      if c == s.current then x'.initialised && x'.bound[i] == if Fresh(s) then 0 else x.bound[i]
      else (x'.initialised <==> x.initialised && !there) && (x'.initialised ==> x'.bound[i] == x.bound[i])
  {
  }

  lemma CallKnows(s: Stub, cmd: Command, c: nat, unit: nat, target: nat, v: nat)
    requires s.Valid() && c < MAX_CONTEXTS && TrackedPlace(unit, target) && Calls(cmd)
    ensures var s' := if cmd.Active? then ActiveTexture(s, cmd.texture).1 else BindTexture(s, cmd.target, cmd.name).1;
      s'.Valid() && (Knows(s', c, unit, target, v)
        <==> Makes(s, cmd, c, unit, target, v) || (Knows(s, c, unit, target, v) && Spares(s, cmd, c, unit, target, v)))
  {
    var s' := if cmd.Active? then ActiveTexture(s, cmd.texture).1 else BindTexture(s, cmd.target, cmd.name).1;
    assert s'.Valid();
    KnowsIs(s, c, unit, target, v);
    KnowsIs(s', c, unit, target, v);
    var k := TexSlot(target, unit).value;
    AccessLeaves(s, c, k);
    if cmd.Bind? {
      BindPuts(s, cmd, c, unit, target);
    }
  }

  /** glBindTexture changes the slot of its place and no other. */
  lemma BindPuts(s: Stub, cmd: Command, c: nat, unit: nat, target: nat)
    requires s.Valid() && c < MAX_CONTEXTS && TrackedPlace(unit, target) && cmd.Bind?
    ensures TexSlot(target, unit).Some?
    ensures
      var x, x' := Access(s).shadows[c], BindTexture(s, cmd.target, cmd.name).1.shadows[c];
      var k := TexSlot(target, unit).value;
      && |x'.bound| == SLOTS && x'.initialised == x.initialised
      && x'.bound[k] == if BindsAt(s, cmd, c, unit, target) then cmd.name else x.bound[k]
  {
    PlaceHasSlot(unit, target);
    PlaceOfSlot(target, unit);
    PlaceOfSlot(cmd.target, ActiveUnit(s));
  }

  /** After any command, a context's shadow has at a tracked place what the command left there and what it spared,
      nothing else. */
  lemma KnownAfter(w: World, cmd: Command, c: nat, unit: nat, target: nat, v: nat)
    requires w.Valid() && c < MAX_CONTEXTS && TrackedPlace(unit, target) && v != SHADOW_TEX_INVALID
    ensures Knows(Handle(w, cmd).stub, c, unit, target, v) <==>
      || Makes(w.stub, cmd, c, unit, target, v)
      || (Knows(w.stub, c, unit, target, v) && Spares(w.stub, cmd, c, unit, target, v))
  {
    if Calls(cmd) {
      CallKnows(w.stub, cmd, c, unit, target, v);
    } else if cmd.Delete? {
      forall i | 0 <= i < SLOTS
        ensures Handle(w, cmd).stub.shadows[c].bound[i] == v <==>
          w.stub.shadows[c].bound[i] == v && (v == 0 || v !in cmd.tex)
      {
        DeletedForgotten(w.stub, cmd.tex, c, i);
      }
      DeletedForgotten(w.stub, cmd.tex, c, 0);
    }
  }

  /** The unit known to be active is the one that the context's last glActiveTexture named, until the shadow starts
      afresh. */
  lemma ActiveAfter(w: World, cmd: Command, c: nat)
    requires w.Valid() && c < MAX_CONTEXTS
    ensures var s, x, x' := w.stub, w.stub.shadows[c], Handle(w, cmd).stub.shadows[c];
      if Calls(cmd) && s.current == c then
        x'.initialised && x'.active == if cmd.Active? then cmd.texture else ActiveUnit(s)
      else
        && (x'.initialised <==> x.initialised && !(Calls(cmd) && s.pending > 0 && s.pending == c))
        && (x'.initialised ==> x'.active == x.active)
    ensures Calls(cmd) ==> !Fresh(Handle(w, cmd).stub)
  {
    if cmd.Delete? {
      DeletedForgotten(w.stub, cmd.tex, c, 0);
    }
  }

  // ---- Runs -------------------------------------------------------------------------------------------

  predicate AllSpare(w: World, cmds: seq<Command>, c: nat, unit: nat, target: nat, v: nat)
    requires w.Valid()
    decreases |cmds|
  {
    cmds == []
    || (Spares(w.stub, cmds[0], c, unit, target, v) && AllSpare(Handle(w, cmds[0]), cmds[1..], c, unit, target, v))
  }

  /** Some command left v at the place, and every later one spared it. */
  predicate Standing(w: World, cmds: seq<Command>, c: nat, unit: nat, target: nat, v: nat)
    requires w.Valid()
    decreases |cmds|
  {
    cmds != [] && (
      var q, rest := Handle(w, cmds[0]), cmds[1..];
      || (Makes(w.stub, cmds[0], c, unit, target, v) && AllSpare(q, rest, c, unit, target, v))
      || Standing(q, rest, c, unit, target, v))
  }

  /** For every sequence of commands, over any contexts: the shadow has exactly what it had at first and every command
      spared, and what some command left and every later one spared. */
  lemma {:induction false} KnownExactly(w: World, cmds: seq<Command>, c: nat, unit: nat, target: nat, v: nat)
    requires w.Valid() && c < MAX_CONTEXTS && TrackedPlace(unit, target) && v != SHADOW_TEX_INVALID
    ensures HandleAll(w, cmds).Valid()
    ensures Knows(HandleAll(w, cmds).stub, c, unit, target, v) <==>
      || (Knows(w.stub, c, unit, target, v) && AllSpare(w, cmds, c, unit, target, v))
      || Standing(w, cmds, c, unit, target, v)
    decreases |cmds|
  {
    if cmds != [] {
      KnownAfter(w, cmds[0], c, unit, target, v);
      KnownExactly(Handle(w, cmds[0]), cmds[1..], c, unit, target, v);
    }
  }

  /** A binding that was made is not sent again: whatever happens in between in any context, if every command spares it
      and the context's unit is active once more, the repeated glBindTexture is dropped. */
  lemma RepeatIsDropped(w: World, target: nat, name: nat, cmds: seq<Command>)
    requires w.Valid() && name != SHADOW_TEX_INVALID && TrackedPlace(ActiveUnit(w.stub), target)
    ensures
      var c, unit, w' := w.stub.current, ActiveUnit(w.stub), Handle(w, Bind(target, name));
      var q := HandleAll(w', cmds);
      q.Valid() && (
        && AllSpare(w', cmds, c, unit, target, name)
        && q.stub.current == c && ActiveUnit(q.stub) == unit && !Fresh(q.stub) ==>
          !BindTexture(q.stub, target, name).0)
  {
    var c, unit := w.stub.current, ActiveUnit(w.stub);
    var w' := Handle(w, Bind(target, name));
    KnownAfter(w, Bind(target, name), c, unit, target, name);
    KnownExactly(w', cmds, c, unit, target, name);
    BindDroppedExactly(HandleAll(w', cmds).stub, target, name);
  }
}
