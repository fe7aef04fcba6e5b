/** Dropping the texture calls that the shadow finds redundant leaves the driver in the state it would have
    if every call were sent: texture names are shared and reused, objects are not. */
module ShadowRefines {
  import opened ShadowTex
  import opened Options

  // ---- The driver ---------------------------------------------------------------------------------

  /** A texture object; its first bind fixes its target (OpenGL ES 3.2, section 8.1). */
  datatype Obj = Obj(id: nat, target: nat)

  /** bindings: what is bound at each (unit, target); nothing means the default texture */
  datatype Context = Context(group: nat, active: nat, bindings: map<(nat, nat), Obj>)

  /** names: object of each (share group, name) */
  datatype Driver = Driver(contexts: seq<Context>, current: nat, names: map<(nat, nat), Obj>, next: nat, units: nat) {
    predicate Valid() {
      |contexts| == MAX_CONTEXTS && current < MAX_CONTEXTS
    }
  }

  datatype Command =
    | MakeCurrent(ctx: nat)
    | CreateContext(ctx: nat, group: nat)
    | Active(texture: nat)
    | Bind(target: nat, name: nat)
    | Delete(tex: seq<nat>)

  function Here(d: Driver): Context
    requires d.Valid()
  {
    d.contexts[d.current]
  }

  function SetHere(d: Driver, x: Context): (d': Driver)
    requires d.Valid()
    ensures d'.Valid() && d'.current == d.current
  {
    d.(contexts := d.contexts[d.current := x])
  }

  predicate UnitExists(d: Driver, texture: nat) {
    GL_TEXTURE0 <= texture < GL_TEXTURE0 + d.units
  }

  /** An active unit that does not exist is rejected. */
  function ActiveHere(d: Driver, texture: nat): (d': Driver)
    requires d.Valid()
    ensures d'.Valid() && d'.current == d.current
  {
    if UnitExists(d, texture) then SetHere(d, Here(d).(active := texture)) else d
  }

  /** A bind of an existing texture to another target is rejected. */
  function BindHere(d: Driver, target: nat, name: nat): (d': Driver)
    requires d.Valid()
    ensures d'.Valid() && d'.current == d.current
  {
    var x := Here(d);
    var at, k := (x.active, target), (x.group, name);
    if name == 0 then SetHere(d, x.(bindings := x.bindings - {at}))
    else if k in d.names then
      if d.names[k].target == target then SetHere(d, x.(bindings := x.bindings[at := d.names[k]])) else d
    else
      var obj := Obj(d.next, target);
      SetHere(d, x.(bindings := x.bindings[at := obj])).(names := d.names[k := obj], next := d.next + 1)
  }

  /** The name is free again; the object is unbound from the current context only (section 5.1.2). */
  function DeleteOne(d: Driver, name: nat): (d': Driver)
    requires d.Valid()
    ensures d'.Valid() && d'.current == d.current
  {
    var x := Here(d);
    var k := (x.group, name);
    if name == 0 || k !in d.names then d
    else
      var kept := map b | b in x.bindings && x.bindings[b] != d.names[k] :: x.bindings[b];
      SetHere(d, x.(bindings := kept)).(names := d.names - {k})
  }

  function DeleteAll(d: Driver, tex: seq<nat>): (d': Driver)
    requires d.Valid()
    ensures d'.Valid() && d'.current == d.current
    decreases |tex|
  {
    if tex == [] then d else DeleteAll(DeleteOne(d, tex[0]), tex[1..])
  }

  function Do(d: Driver, cmd: Command): (d': Driver)
    requires d.Valid()
    ensures d'.Valid()
  {
    match cmd
    case MakeCurrent(ctx) => if ctx < MAX_CONTEXTS then d.(current := ctx) else d
    case CreateContext(ctx, group) =>
      if 0 < ctx < MAX_CONTEXTS then d.(contexts := d.contexts[ctx := Context(group, GL_TEXTURE0, map[])]) else d
    case Active(texture) => if d.current != 0 then ActiveHere(d, texture) else d
    case Bind(target, name) => if d.current != 0 then BindHere(d, target, name) else d
    case Delete(tex) => if d.current != 0 then DeleteAll(d, tex) else d
  }

  function DoAll(d: Driver, cmds: seq<Command>): (d': Driver)
    requires d.Valid()
    ensures d'.Valid()
    decreases |cmds|
  {
    if cmds == [] then d else DoAll(Do(d, cmds[0]), cmds[1..])
  }

  // ---- The stub in front of it --------------------------------------------------------------------

  datatype World = World(stub: Stub, driver: Driver) {
    predicate Valid() {
      stub.Valid() && driver.Valid() && stub.current == driver.current
    }
  }

  function Handle(w: World, cmd: Command): (w': World)
    requires w.Valid()
    ensures w'.Valid()
  {
    var s, d := w.stub, w.driver;
    match cmd
    case MakeCurrent(ctx) => World(if ctx < MAX_CONTEXTS then s.(current := ctx) else s, Do(d, cmd))
    case CreateContext(ctx, _) => World(if 0 < ctx then s.(pending := ctx) else s, Do(d, cmd))
    case Active(texture) =>
      var (send, s') := ActiveTexture(s, texture);
      World(s', if send then Do(d, cmd) else d)
    case Bind(target, name) =>
      var (send, s') := BindTexture(s, target, name);
      World(s', if send then Do(d, cmd) else d)
    case Delete(tex) => World(InvalidateAll(s, tex), Do(d, cmd))
  }

  function HandleAll(w: World, cmds: seq<Command>): World
    requires w.Valid()
    decreases |cmds|
  {
    if cmds == [] then w else HandleAll(Handle(w, cmds[0]), cmds[1..])
  }

  // ---- What the shadow claims -----------------------------------------------------------------------

  function TargetOf(kind: nat): nat {
    if kind == 0 then GL_TEXTURE_2D else if kind == 1 then GL_TEXTURE_2D_ARRAY
    else if kind == 2 then GL_TEXTURE_CUBE_MAP else GL_TEXTURE_3D
  }

  /** The (unit, target) that the i-th tracked name is about */
  function Place(i: nat): (nat, nat) {
    (GL_TEXTURE0 + i % MAX_TEXTURE_UNITS, TargetOf(i / MAX_TEXTURE_UNITS))
  }

  lemma PlaceOfSlot(target: nat, unit: nat)
    ensures TexSlot(target, unit).Some? ==> Place(TexSlot(target, unit).value) == (unit, target)
    ensures forall i :: 0 <= i < SLOTS && Place(i) == (unit, target) ==> TexSlot(target, unit) == Some(i)
  {
  }

  /** The marker claims nothing, nor does a name that the driver would not bind to the target. */
  predicate NoClaim(d: Driver, group: nat, target: nat, v: nat) {
    v == SHADOW_TEX_INVALID || (v != 0 && (group, v) in d.names && d.names[(group, v)].target != target)
  }

  predicate Bound(d: Driver, x: Context, at: (nat, nat), v: nat) {
    if v == 0 then at !in x.bindings
    else (x.group, v) in d.names && at in x.bindings && x.bindings[at] == d.names[(x.group, v)]
  }

  /** The name v at (unit, target) is what is bound there, or claims nothing. */
  predicate Claim(d: Driver, x: Context, at: (nat, nat), v: nat) {
    NoClaim(d, x.group, at.1, v) || Bound(d, x, at, v)
  }

  predicate NothingTracked(x: Context) {
    forall i :: 0 <= i < SLOTS ==> Place(i) !in x.bindings
  }

  /** What a fresh context has, as far as the shadow tracks it */
  predicate Pristine(x: Context) {
    x.active == GL_TEXTURE0 && NothingTracked(x)
  }

  predicate Claims(d: Driver, x: Context, bound: seq<nat>)
    requires |bound| == SLOTS
  {
    forall i :: 0 <= i < SLOTS ==> Claim(d, x, Place(i), bound[i])
  }

  predicate Tracked(unit: nat) {
    GL_TEXTURE0 <= unit < GL_TEXTURE0 + MAX_TEXTURE_UNITS
  }

  /** The shadow claims nothing about a unit. */
  predicate Unclaimed(d: Driver, group: nat, bound: seq<nat>, unit: nat)
    requires |bound| == SLOTS
  {
    forall i :: 0 <= i < SLOTS && Place(i).0 == unit ==> NoClaim(d, group, Place(i).1, bound[i])
  }

  /** The shadow has taken over an active unit that the driver has rejected. It sends and records nothing wrong as
      long as the unit that is really active has no claims. */
  predicate Astray(d: Driver, x: Context, sh: Shadow)
    requires |sh.bound| == SLOTS
  {
    !UnitExists(d, sh.active) && !Tracked(sh.active) && Unclaimed(d, x.group, sh.bound, x.active)
  }

  predicate Coherent(d: Driver, x: Context, sh: Shadow)
    requires |sh.bound| == SLOTS
  {
    if sh.initialised then Claims(d, x, sh.bound) && (sh.active == x.active || Astray(d, x, sh)) else Pristine(x)
  }

  predicate NamesOk(d: Driver) {
    && (forall k :: k in d.names ==> d.names[k].id < d.next)
    && (forall k, m :: k in d.names && m in d.names && k != m ==> d.names[k].id != d.names[m].id)
  }

  predicate ContextOk(w: World, c: nat)
    requires w.Valid() && c < MAX_CONTEXTS
  {
    if w.stub.pending == c then Pristine(w.driver.contexts[c])
    else Coherent(w.driver, w.driver.contexts[c], w.stub.shadows[c])
  }

  predicate Inv(w: World) {
    w.Valid() && NamesOk(w.driver) && forall c :: 0 < c < MAX_CONTEXTS ==> ContextOk(w, c)
  }

  /** The next access wipes the shadow of the current context. */
  predicate Wiped(w: World)
    requires w.Valid()
  {
    w.stub.pending > 0 && w.driver.current != 0
  }

  /** The shadow that a glActiveTexture or glBindTexture call finds */
  function Found(w: World): (sh: Shadow)
    requires w.Valid()
    ensures |sh.bound| == SLOTS && sh.initialised
  {
    Access(w.stub).shadows[w.stub.current]
  }

  /** The commands for which the filter is right. A glActiveTexture or glBindTexture that finds a wiped shadow repairs
      the rest of the damage. A unit that the driver rejects must leave nothing behind. A bind of the marker's own name
      must be sent or have no effect. A reset that is overwritten must have been unnecessary. */
  predicate Clean(w: World, cmd: Command)
    requires w.Valid()
  {
    var d, x, sh := w.driver, Here(w.driver), Found(w);
    match cmd
    case Active(texture) =>
      d.current == 0 ||
      (&& (Wiped(w) ==> NothingTracked(x))
       && (Wiped(w) && texture == GL_TEXTURE0 ==> x.active == GL_TEXTURE0)
       && (|| UnitExists(d, texture) || texture == sh.active || texture == x.active
           || (!Tracked(texture) && Unclaimed(d, x.group, sh.bound, x.active))))
    case Bind(target, name) =>
      d.current == 0 ||
      (var slot := TexSlot(target, sh.active);
       && (Wiped(w) ==> x.active == GL_TEXTURE0)
       && (Wiped(w) ==> forall i :: 0 <= i < SLOTS && Place(i) in x.bindings ==> slot == Some(i) && name != 0)
       && (name == SHADOW_TEX_INVALID && slot.Some? && sh.bound[slot.value] == SHADOW_TEX_INVALID ==>
             MarkerIdle(d, target)))
    case CreateContext(ctx, _) =>
      ctx > 0 && 0 < w.stub.pending < MAX_CONTEXTS && w.stub.pending != ctx ==>
        Coherent(d, d.contexts[w.stub.pending], w.stub.shadows[w.stub.pending])
    case MakeCurrent(_) => true
    case Delete(_) => true
  }

  /** The texture named like the marker is bound already, or the driver would reject the bind. */
  predicate MarkerIdle(d: Driver, target: nat)
    requires d.Valid()
  {
    var x := Here(d);
    var at, k := (x.active, target), (x.group, SHADOW_TEX_INVALID);
    k in d.names && (d.names[k].target == target ==> at in x.bindings && x.bindings[at] == d.names[k])
  }

  /** What that condition on a reset comes to, the context being fresh: its shadow was never set up, or it names texture
      unit 0 (or a unit that was rejected, with nothing claimed about unit 0) and every entry is 0 or claims nothing. */
  lemma UnnecessaryReset(d: Driver, x: Context, sh: Shadow)
    requires |sh.bound| == SLOTS && Pristine(x)
    ensures Coherent(d, x, sh) <==>
      || !sh.initialised
      || (&& (sh.active == GL_TEXTURE0 || Astray(d, x, sh))
          && forall i :: 0 <= i < SLOTS ==> sh.bound[i] == 0 || NoClaim(d, x.group, Place(i).1, sh.bound[i]))
  {
    forall i | 0 <= i < SLOTS
      ensures Claim(d, x, Place(i), sh.bound[i]) <==> sh.bound[i] == 0 || NoClaim(d, x.group, Place(i).1, sh.bound[i])
    {
      assert Place(i) !in x.bindings;
    }
  }

  predicate AllClean(w: World, cmds: seq<Command>)
    requires w.Valid()
    decreases |cmds|
  {
    cmds == [] || (Clean(w, cmds[0]) && AllClean(Handle(w, cmds[0]), cmds[1..]))
  }

  // ---- One command ----------------------------------------------------------------------------------

  /** Names only gain entries and the context is the same. */
  lemma Frame(d: Driver, d': Driver, x: Context, sh: Shadow)
    requires |sh.bound| == SLOTS && Coherent(d, x, sh) && d'.units == d.units
    requires forall k :: k in d.names ==> k in d'.names && d'.names[k] == d.names[k]
    ensures Coherent(d', x, sh)
  {
    if sh.initialised {
      forall i | 0 <= i < SLOTS ensures Claim(d', x, Place(i), sh.bound[i]) {
        assert Claim(d, x, Place(i), sh.bound[i]);
      }
    }
  }

  /** A fresh shadow is right exactly for a context without tracked state. */
  lemma InitialIsRight(d: Driver, x: Context)
    ensures Coherent(d, x, Initial()) <==> Pristine(x)
  {
    if Coherent(d, x, Initial()) {
      forall i | 0 <= i < SLOTS ensures Place(i) !in x.bindings {
        assert Claim(d, x, Place(i), Initial().bound[i]);
      }
    }
  }

  /** The reset that follows eglCreateContext leaves a right shadow for the current context exactly when that
      context has no tracked state: its own bindings are forgotten along with those of the new one. */
  lemma ResetIsRightExactly(w: World)
    requires Inv(w) && w.stub.pending > 0 && w.driver.current != 0
    ensures Coherent(w.driver, Here(w.driver), Access(w.stub).shadows[w.stub.current]) <==> Pristine(Here(w.driver))
  {
    InitialIsRight(w.driver, Here(w.driver));
  }

  /** What an access leaves: right shadows of the other contexts, and of the current one unless it is wiped */
  lemma AccessKeeps(w: World)
    requires Inv(w)
    ensures var a := Access(w.stub);
      && a.Valid() && a.pending == 0 && a.current == w.stub.current
      && (forall c :: 0 < c < MAX_CONTEXTS && c != a.current ==> ContextOk(World(a, w.driver), c))
      && (w.driver.current != 0 ==>
            if Wiped(w) then Found(w) == Initial() else Coherent(w.driver, Here(w.driver), Found(w)))
  {
    var a := World(Access(w.stub), w.driver);
    forall c | 0 < c < MAX_CONTEXTS && c != w.stub.current ensures ContextOk(a, c) {
      assert ContextOk(w, c);
    }
    if w.driver.current != 0 && !Wiped(w) {
      assert ContextOk(w, w.stub.current);
      InitialIsRight(w.driver, Here(w.driver));
    }
  }

  /** A step of the current context after an access. */
  lemma OtherContexts(w: World, s': Stub, d': Driver)
    requires Inv(w) && s'.Valid() && d'.Valid() && s'.current == d'.current == w.stub.current && s'.pending == 0
    requires forall c :: 0 < c < MAX_CONTEXTS && c != w.stub.current ==>
      d'.contexts[c] == w.driver.contexts[c] && s'.shadows[c] == Access(w.stub).shadows[c]
    requires d'.units == w.driver.units
    requires forall k :: k in w.driver.names ==> k in d'.names && d'.names[k] == w.driver.names[k]
    ensures forall c :: 0 < c < MAX_CONTEXTS && c != w.stub.current ==> ContextOk(World(s', d'), c)
  {
    AccessKeeps(w);
    var a := World(Access(w.stub), w.driver);
    forall c | 0 < c < MAX_CONTEXTS && c != w.stub.current ensures ContextOk(World(s', d'), c) {
      assert ContextOk(a, c);
      Frame(w.driver, d', w.driver.contexts[c], a.stub.shadows[c]);
    }
  }

  /** glActiveTexture on the shadow it finds, right or wiped */
  lemma ActiveFound(d: Driver, sh: Shadow, texture: nat)
    requires d.Valid() && |sh.bound| == SLOTS && sh.initialised
    requires var x := Here(d);
      || Coherent(d, x, sh)
      || (sh == Initial() && NothingTracked(x) && (texture == GL_TEXTURE0 ==> x.active == GL_TEXTURE0))
    requires var x := Here(d);
      || UnitExists(d, texture) || texture == sh.active || texture == x.active
      || (!Tracked(texture) && Unclaimed(d, x.group, sh.bound, x.active))
    ensures var d' := ActiveHere(d, texture);
      && Coherent(d', Here(d'), sh.(active := texture)) && (texture == sh.active ==> d' == d)
  {
    var x, d' := Here(d), ActiveHere(d, texture);
    assert d.contexts[d.current := x] == d.contexts;
    forall i | 0 <= i < SLOTS ensures Claim(d', Here(d'), Place(i), sh.bound[i]) {
      assert sh != Initial() ==> Claim(d, x, Place(i), sh.bound[i]);
    }
    if !UnitExists(d, texture) && texture != x.active && texture != sh.active {
      assert Astray(d, x, sh.(active := texture));
    }
  }

  lemma ActiveStep(w: World, texture: nat)
    requires Inv(w) && Clean(w, Active(texture))
    ensures Inv(Handle(w, Active(texture))) && Handle(w, Active(texture)).driver == Do(w.driver, Active(texture))
  {
    AccessKeeps(w);
    var w' := Handle(w, Active(texture));
    if w.driver.current != 0 {
      ActiveFound(w.driver, Found(w), texture);
      assert Found(w).(active := Found(w).active) == Found(w);
      assert ContextOk(w', w'.stub.current);
    }
    OtherContexts(w, w'.stub, w'.driver);
  }

  /** A dropped bind would have changed nothing. */
  lemma DroppedBind(d: Driver, sh: Shadow, target: nat, name: nat)
    requires d.Valid() && |sh.bound| == SLOTS && sh.initialised && Coherent(d, Here(d), sh)
    requires TexSlot(target, sh.active).Some? && sh.bound[TexSlot(target, sh.active).value] == name
    requires name == SHADOW_TEX_INVALID ==> MarkerIdle(d, target)
    ensures BindHere(d, target, name) == d
  {
    var x, i := Here(d), TexSlot(target, sh.active).value;
    PlaceOfSlot(target, sh.active);
    assert sh.active == x.active;
    assert Claim(d, x, Place(i), name);
    assert d.contexts[d.current := x] == d.contexts;
    if name == 0 {
      assert x.bindings - {(x.active, target)} == x.bindings;
    } else if !NoClaim(d, x.group, target, name) || name == SHADOW_TEX_INVALID {
      assert d.names[(x.group, name)].target == target ==>
        x.bindings[(x.active, target) := d.names[(x.group, name)]] == x.bindings;
    }
  }

  /** A bind that is sent is what the shadow claims from then on; one that the driver rejects claims nothing. */
  lemma SentBind(d: Driver, sh: Shadow, target: nat, name: nat, sh': Shadow)
    requires d.Valid() && NamesOk(d) && |sh.bound| == SLOTS && sh.initialised && Coherent(d, Here(d), sh)
    requires var slot := TexSlot(target, sh.active);
      sh' == if slot.Some? then sh.(bound := sh.bound[slot.value := name]) else sh
    ensures var d' := BindHere(d, target, name); NamesOk(d') && Coherent(d', Here(d'), sh')
  {
    var d' := BindHere(d, target, name);
    var x, x' := Here(d), Here(d');
    PlaceOfSlot(target, sh.active);
    forall i | 0 <= i < SLOTS ensures Claim(d', x', Place(i), sh'.bound[i]) {
      assert Claim(d, x, Place(i), sh.bound[i]);
      SentKeeps(d, target, name, i, sh.bound[i]);
      SentClaim(d, target, name);
      if sh'.bound[i] == sh.bound[i] && sh.active == x.active && Place(i) == (x.active, target) {
        PlaceOfSlot(target, x.active);
      }
    }
    if sh.active != x.active {
      assert Astray(d', x', sh');
    }
  }

  /** After a bind, claims about other places are as true as before. */
  lemma SentKeeps(d: Driver, target: nat, name: nat, i: nat, v: nat)
    requires d.Valid() && NamesOk(d) && i < SLOTS && Claim(d, Here(d), Place(i), v)
    ensures NoClaim(d, Here(d).group, Place(i).1, v) || Place(i) != (Here(d).active, target) ==>
      Claim(BindHere(d, target, name), Here(BindHere(d, target, name)), Place(i), v)
  {
  }

  /** A wiped shadow is right again if nothing but this place was tracked. */
  lemma SentBindWiped(d: Driver, target: nat, name: nat, sh': Shadow)
    requires d.Valid() && NamesOk(d) && Here(d).active == GL_TEXTURE0
    requires var slot := TexSlot(target, GL_TEXTURE0);
      && (forall i :: 0 <= i < SLOTS && Place(i) in Here(d).bindings ==> slot == Some(i) && name != 0)
      && sh' == if slot.Some? then Initial().(bound := Initial().bound[slot.value := name]) else Initial()
    ensures var d' := BindHere(d, target, name); NamesOk(d') && Coherent(d', Here(d'), sh')
  {
    var d' := BindHere(d, target, name);
    PlaceOfSlot(target, GL_TEXTURE0);
    forall i | 0 <= i < SLOTS ensures Claim(d', Here(d'), Place(i), sh'.bound[i]) {
      if TexSlot(target, GL_TEXTURE0) == Some(i) {
        SentClaim(d, target, name);
      }
    }
  }

  lemma SentClaim(d: Driver, target: nat, name: nat)
    requires d.Valid()
    ensures var d' := BindHere(d, target, name); Claim(d', Here(d'), (Here(d).active, target), name)
  {
  }

  /** glBindTexture on the shadow it finds, right or wiped */
  lemma BindFound(d: Driver, sh: Shadow, target: nat, name: nat, sh': Shadow)
    requires d.Valid() && NamesOk(d) && |sh.bound| == SLOTS && sh.initialised
    requires var slot := TexSlot(target, sh.active);
      && (|| Coherent(d, Here(d), sh)
          || (&& sh == Initial() && Here(d).active == GL_TEXTURE0
              && forall i :: 0 <= i < SLOTS && Place(i) in Here(d).bindings ==> slot == Some(i) && name != 0))
      && sh' == if slot.Some? then sh.(bound := sh.bound[slot.value := name]) else sh
    requires var slot := TexSlot(target, sh.active);
      slot.Some? && sh.bound[slot.value] == name == SHADOW_TEX_INVALID ==> MarkerIdle(d, target)
    ensures var slot, d' := TexSlot(target, sh.active), BindHere(d, target, name);
      && NamesOk(d') && Coherent(d', Here(d'), sh')
      && (slot.Some? && sh.bound[slot.value] == name ==> d' == d && sh' == sh)
  {
    var slot := TexSlot(target, sh.active);
    if slot.Some? && sh.bound[slot.value] == name {
      InitialIsRight(d, Here(d));
      DroppedBind(d, sh, target, name);
    } else if Coherent(d, Here(d), sh) {
      SentBind(d, sh, target, name, sh');
    } else {
      SentBindWiped(d, target, name, sh');
    }
  }

  lemma BindStep(w: World, target: nat, name: nat)
    requires Inv(w) && Clean(w, Bind(target, name))
    ensures Inv(Handle(w, Bind(target, name)))
    ensures Handle(w, Bind(target, name)).driver == Do(w.driver, Bind(target, name))
  {
    AccessKeeps(w);
    var w' := Handle(w, Bind(target, name));
    if w.driver.current != 0 {
      var sh := Found(w);
      var slot := TexSlot(target, sh.active);
      BindFound(w.driver, sh, target, name, if slot.Some? then sh.(bound := sh.bound[slot.value := name]) else sh);
      assert ContextOk(w', w'.stub.current);
    }
    OtherContexts(w, w'.stub, w'.driver);
  }

  /** Deleting a name spoils only claims about that name, in every context. */
  lemma DeleteOneKeeps(w: World, name: nat)
    requires Inv(w) && w.driver.current != 0
    ensures Inv(World(InvalidateTexture(w.stub, name), DeleteOne(w.driver, name)))
  {
    var w' := World(InvalidateTexture(w.stub, name), DeleteOne(w.driver, name));
    forall c | 0 < c < MAX_CONTEXTS ensures ContextOk(w', c) {
      assert ContextOk(w, c);
      var x, x', sh, sh' := w.driver.contexts[c], w'.driver.contexts[c], w.stub.shadows[c], w'.stub.shadows[c];
      if w.stub.pending != c && sh.initialised {
        forall i | 0 <= i < SLOTS ensures Claim(w'.driver, x', Place(i), sh'.bound[i]) {
          assert Claim(w.driver, x, Place(i), sh.bound[i]);
        }
      }
    }
  }

  lemma {:induction false} DeleteAllKeeps(w: World, tex: seq<nat>)
    requires Inv(w) && w.driver.current != 0
    ensures Inv(World(InvalidateAll(w.stub, tex), DeleteAll(w.driver, tex)))
    decreases |tex|
  {
    if tex != [] {
      DeleteOneKeeps(w, tex[0]);
      DeleteAllKeeps(World(InvalidateTexture(w.stub, tex[0]), DeleteOne(w.driver, tex[0])), tex[1..]);
    }
  }

  /** Marking alone, when no context is current, spoils nothing. */
  lemma {:induction false} MarkingKeeps(w: World, tex: seq<nat>)
    requires Inv(w)
    ensures Inv(World(InvalidateAll(w.stub, tex), w.driver))
    decreases |tex|
  {
    if tex != [] {
      var s := InvalidateTexture(w.stub, tex[0]);
      forall c | 0 < c < MAX_CONTEXTS ensures ContextOk(World(s, w.driver), c) {
        assert ContextOk(w, c);
        var x, sh := w.driver.contexts[c], w.stub.shadows[c];
        if w.stub.pending != c && sh.initialised {
          forall i | 0 <= i < SLOTS ensures Claim(w.driver, x, Place(i), s.shadows[c].bound[i]) {
            assert Claim(w.driver, x, Place(i), sh.bound[i]);
          }
        }
      }
      MarkingKeeps(World(s, w.driver), tex[1..]);
    }
  }

  lemma CreateStep(w: World, ctx: nat, group: nat)
    requires Inv(w) && Clean(w, CreateContext(ctx, group))
    ensures Inv(Handle(w, CreateContext(ctx, group)))
  {
    var w' := Handle(w, CreateContext(ctx, group));
    forall c | 0 < c < MAX_CONTEXTS ensures ContextOk(w', c) {
      assert ContextOk(w, c);
    }
  }

  lemma MakeCurrentStep(w: World, ctx: nat)
    requires Inv(w)
    ensures Inv(Handle(w, MakeCurrent(ctx)))
  {
    var w' := Handle(w, MakeCurrent(ctx));
    forall c | 0 < c < MAX_CONTEXTS ensures ContextOk(w', c) {
      assert ContextOk(w, c);
    }
  }

  lemma Step(w: World, cmd: Command)
    requires Inv(w) && Clean(w, cmd)
    ensures Inv(Handle(w, cmd)) && Handle(w, cmd).driver == Do(w.driver, cmd)
  {
    match cmd
    case MakeCurrent(ctx) => MakeCurrentStep(w, ctx);
    case CreateContext(ctx, group) => CreateStep(w, ctx, group);
    case Active(texture) => ActiveStep(w, texture);
    case Bind(target, name) => BindStep(w, target, name);
    case Delete(tex) =>
      if w.driver.current != 0 {
        DeleteAllKeeps(w, tex);
      } else {
        MarkingKeeps(w, tex);
      }
  }

  // ---- Runs -----------------------------------------------------------------------------------------

  predicate Start(w: World) {
    && w.Valid() && w.stub.pending == 0 && w.driver.names == map[]
    && forall c :: 0 <= c < MAX_CONTEXTS ==>
         w.stub.shadows[c] == Zero() && w.driver.contexts[c].active == GL_TEXTURE0 && w.driver.contexts[c].bindings == map[]
  }

  lemma {:induction false} RunsAgree(w: World, cmds: seq<Command>)
    requires Inv(w) && AllClean(w, cmds)
    ensures HandleAll(w, cmds).driver == DoAll(w.driver, cmds) && Inv(HandleAll(w, cmds))
    decreases |cmds|
  {
    if cmds != [] {
      Step(w, cmds[0]);
      RunsAgree(Handle(w, cmds[0]), cmds[1..]);
    }
  }

  /** From fresh contexts, through deletion and reuse of names, over any contexts and share groups. */
  lemma FilterIsInvisible(w: World, cmds: seq<Command>)
    requires Start(w) && AllClean(w, cmds)
    ensures HandleAll(w, cmds).driver == DoAll(w.driver, cmds)
  {
    RunsAgree(w, cmds);
  }

  // ---- Where the conditions are needed ----------------------------------------------------------------

  /** A dropped bind of the marker's own name is right exactly when that texture is bound there already (or
      the driver would reject the bind). */
  lemma MarkerDrop(d: Driver, target: nat)
    requires d.Valid()
    ensures BindHere(d, target, SHADOW_TEX_INVALID) == d <==> MarkerIdle(d, target)
  {
    var x := Here(d);
    var at, k := (x.active, target), (x.group, SHADOW_TEX_INVALID);
    var d' := BindHere(d, target, SHADOW_TEX_INVALID);
    if k !in d.names {
      assert d'.next != d.next;
    } else if d.names[k].target == target {
      assert Here(d').bindings[at] == d.names[k];
      if at in x.bindings && x.bindings[at] == d.names[k] {
        assert x.bindings[at := d.names[k]] == x.bindings;
        assert d.contexts[d.current := x] == d.contexts;
      }
    }
  }

  lemma HandleTwo(w: World, a: Command, b: Command)
    requires w.Valid()
    ensures HandleAll(w, [a, b]) == Handle(Handle(w, a), b)
    ensures DoAll(w.driver, [a, b]) == Do(Do(w.driver, a), b)
  {
    assert [a, b][1..] == [b] && [b][1..] == [];
    assert HandleAll(Handle(w, a), [b]) == Handle(Handle(w, a), b);
    assert DoAll(Do(w.driver, a), [b]) == Do(Do(w.driver, a), b);
  }

  /** Texture 5 is bound, deleted, and then the texture named like the marker is bound: that call is lost. */
  lemma MarkerIsLost(w: World)
    requires Start(w) && w.driver.current == 1
    ensures var w1 := Handle(w, Bind(GL_TEXTURE_2D, 5));
      var cmds := [Delete([5]), Bind(GL_TEXTURE_2D, SHADOW_TEX_INVALID)];
      HandleAll(w1, cmds).driver != DoAll(w1.driver, cmds)
  {
    var w1 := Handle(w, Bind(GL_TEXTURE_2D, 5));
    var w2 := Handle(w1, Delete([5]));
    var bind := Bind(GL_TEXTURE_2D, SHADOW_TEX_INVALID);
    HandleTwo(w1, Delete([5]), bind);
    assert w1.stub.shadows[1].bound[0] == 5 && w1.stub.shadows[1].initialised;
    assert [5][1..] == [];
    assert w2.stub == InvalidateTexture(w1.stub, 5);
    assert w2.stub.shadows[1].bound[0] == SHADOW_TEX_INVALID;
    assert !BindTexture(w2.stub, GL_TEXTURE_2D, SHADOW_TEX_INVALID).0;
    assert (w2.driver.contexts[1].group, SHADOW_TEX_INVALID) !in w2.driver.names;
    MarkerDrop(w2.driver, GL_TEXTURE_2D);
  }

  /** With texture 5 bound in context 1, context 2 is created and texture 0 is bound: that call is lost. */
  lemma CreateContextLosesBind(w: World)
    requires Start(w) && w.driver.current == 1
    ensures var w1 := Handle(w, Bind(GL_TEXTURE_2D, 5));
      var cmds := [CreateContext(2, 0), Bind(GL_TEXTURE_2D, 0)];
      HandleAll(w1, cmds).driver != DoAll(w1.driver, cmds)
  {
    var w1 := Handle(w, Bind(GL_TEXTURE_2D, 5));
    var w2 := Handle(w1, CreateContext(2, 0));
    HandleTwo(w1, CreateContext(2, 0), Bind(GL_TEXTURE_2D, 0));
    assert Access(w2.stub).shadows[1] == Initial();
    assert !BindTexture(w2.stub, GL_TEXTURE_2D, 0).0;
    var at := (GL_TEXTURE0, GL_TEXTURE_2D);
    assert at in w2.driver.contexts[1].bindings;
    assert at !in Do(w2.driver, Bind(GL_TEXTURE_2D, 0)).contexts[1].bindings;
  }
}
