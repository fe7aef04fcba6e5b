/** The conditions under which the texture shadow is invisible are exact: every command that breaks one can be noticed,
    at once or by commands that keep them all. */
module ShadowExact {
  import opened ShadowTex
  import opened ShadowRefines
  import opened Options

  /** cmds are right by themselves, and the driver can tell that something was dropped. */
  ghost predicate Differs(w: World, cmds: seq<Command>)
    requires w.Valid()
  {
    AllClean(w, cmds) && HandleAll(w, cmds).driver != DoAll(w.driver, cmds)
  }

  lemma Before(w: World, cmd: Command, cmds: seq<Command>)
    requires w.Valid() && Clean(w, cmd) && Handle(w, cmd).driver == Do(w.driver, cmd)
    requires Differs(Handle(w, cmd), cmds)
    ensures Differs(w, [cmd] + cmds)
  {
    assert ([cmd] + cmds)[1..] == cmds;
  }

  lemma Last(w: World, cmd: Command)
    requires w.Valid() && Clean(w, cmd) && Handle(w, cmd).driver != Do(w.driver, cmd)
    ensures Differs(w, [cmd])
  {
    assert [cmd][1..] == [];
    assert HandleAll(Handle(w, cmd), []) == Handle(w, cmd);
    assert DoAll(Do(w.driver, cmd), []) == Do(w.driver, cmd);
  }

  /** What holds even where a shadow is wrong. At least 32 texture units exist (OpenGL ES 3.2 guarantees 96). */
  predicate Base(w: World) {
    && w.Valid() && NamesOk(w.driver) && w.driver.units >= MAX_TEXTURE_UNITS
    && (0 < w.stub.pending < MAX_CONTEXTS ==> Pristine(w.driver.contexts[w.stub.pending]))
  }

  /** A context is current, no reset is due, and the shadow is initialised. */
  predicate Ready(w: World) {
    Base(w) && w.stub.pending == 0 && w.driver.current != 0 && w.stub.shadows[w.stub.current].initialised
  }

  lemma ReadyFound(w: World)
    requires Ready(w)
    ensures Access(w.stub) == w.stub && Found(w) == w.stub.shadows[w.stub.current] && !Wiped(w)
  {
  }

  // ---- A wrong entry of the current context ----------------------------------------------------------

  /** Binding what a wrong entry claims is lost. */
  lemma WrongHere(w: World, i: nat)
    requires Ready(w) && i < SLOTS && Place(i).0 == Here(w.driver).active == Found(w).active
    requires !Claim(w.driver, Here(w.driver), Place(i), Found(w).bound[i])
    ensures Differs(w, [Bind(Place(i).1, Found(w).bound[i])])
  {
    ReadyFound(w);
    var d, x := w.driver, Here(w.driver);
    var target, v := Place(i).1, Found(w).bound[i];
    PlaceOfSlot(target, x.active);
    assert TexSlot(target, x.active) == Some(i);
    BindShows(d, target, v);
    Last(w, Bind(target, v));
  }

  /** A bind that is neither rejected nor in place already changes the driver. */
  lemma BindShows(d: Driver, target: nat, v: nat)
    requires d.Valid() && !Claim(d, Here(d), (Here(d).active, target), v)
    ensures BindHere(d, target, v) != d
  {
    var x, d' := Here(d), BindHere(d, target, v);
    var at, k := (x.active, target), (x.group, v);
    if v == 0 {
      assert at !in Here(d').bindings;
    } else if k in d.names {
      assert Here(d').bindings[at] == d.names[k];
    } else {
      assert d'.next != d.next;
    }
  }

  /** Making a wrong entry's unit the active one first */
  lemma WrongEntry(w: World, i: nat) returns (cmds: seq<Command>)
    requires Ready(w) && i < SLOTS
    requires !Claim(w.driver, Here(w.driver), Place(i), Found(w).bound[i])
    requires Found(w).active == Here(w.driver).active || !UnitExists(w.driver, Found(w).active)
    ensures Differs(w, cmds) && cmds != [] && (cmds[0].Active? || cmds[0].Bind?)
  {
    ReadyFound(w);
    var unit := Place(i).0;
    var w' := Handle(w, Active(unit));
    var d, d' := w.driver, w'.driver;
    assert UnitExists(d, unit);
    if Found(w).active == unit {
      assert d.contexts[d.current := Here(d)] == d.contexts;
    }
    assert d' == Do(d, Active(unit)) && Found(w') == Found(w).(active := unit);
    assert Here(d') == Here(d).(active := unit);
    assert !Claim(d', Here(d'), Place(i), Found(w').bound[i]);
    WrongHere(w', i);
    cmds := [Active(unit)] + [Bind(Place(i).1, Found(w).bound[i])];
    Before(w, Active(unit), [Bind(Place(i).1, Found(w).bound[i])]);
  }

  /** A name nobody uses */
  lemma {:induction false} FreshName(used: set<nat>) returns (n: nat)
    ensures forall m :: m in used ==> m < n
    decreases |used|
  {
    if used == {} {
      n := 0;
    } else {
      var m :| m in used;
      var k := FreshName(used - {m});
      n := if m < k then k else m + 1;
      assert forall j :: j in used ==> j == m || j in used - {m};
    }
  }

  /** While the shadow has a unit that the driver has rejected, binds go to a unit whose entries stay as they are. */
  lemma WrongUnit(w: World, i: nat) returns (cmds: seq<Command>)
    requires Ready(w) && i < SLOTS && !UnitExists(w.driver, Found(w).active) && Place(i).0 == Here(w.driver).active
    requires !NoClaim(w.driver, Here(w.driver).group, Place(i).1, Found(w).bound[i])
    ensures Differs(w, cmds) && cmds != [] && (cmds[0].Active? || cmds[0].Bind?)
  {
    ReadyFound(w);
    var d, x, sh := w.driver, Here(w.driver), Found(w);
    var target, v := Place(i).1, sh.bound[i];
    var used := set k | k in d.names :: k.1;
    var n := FreshName(used + {v, SHADOW_TEX_INVALID});
    assert v < n && SHADOW_TEX_INVALID < n && n !in used;
    assert (x.group, n) in d.names ==> (x.group, n).1 in used;
    var w' := Handle(w, Bind(target, n));
    assert TexSlot(target, sh.active).None?;
    assert w'.driver == BindHere(d, target, n) && w'.stub == w.stub;
    assert Place(i) == (x.active, target);
    assert Here(w'.driver).bindings[Place(i)] == Obj(d.next, target);
    var d' := w'.driver;
    if v != 0 {
      assert v != n && (x.group, v) != (x.group, n);
      assert (x.group, v) in d.names ==> d'.names[(x.group, v)] == d.names[(x.group, v)] && d.names[(x.group, v)].id < d.next;
    }
    assert !NoClaim(d', x.group, target, v) && !Bound(d', Here(d'), Place(i), v);
    BindKeepsNames(d, target, n);
    var more := WrongEntry(w', i);
    cmds := [Bind(target, n)] + more;
    Before(w, Bind(target, n), more);
  }

  lemma BindKeepsNames(d: Driver, target: nat, n: nat)
    requires d.Valid() && NamesOk(d)
    ensures NamesOk(BindHere(d, target, n))
  {
  }

  /** Every shadow that is wrong for the current context can be noticed. */
  lemma WrongShadow(w: World) returns (cmds: seq<Command>)
    requires Ready(w) && !Coherent(w.driver, Here(w.driver), Found(w))
    ensures Differs(w, cmds) && cmds != [] && (cmds[0].Active? || cmds[0].Bind?)
  {
    ReadyFound(w);
    var d, x, sh := w.driver, Here(w.driver), Found(w);
    if sh.active != x.active && UnitExists(d, sh.active) {
      cmds := [Active(sh.active)];
      assert Here(ActiveHere(d, sh.active)).active != x.active;
      Last(w, Active(sh.active));
    } else if sh.active != x.active && !Astray(d, x, sh) {
      var i :| 0 <= i < SLOTS && Place(i).0 == x.active && !NoClaim(d, x.group, Place(i).1, sh.bound[i]);
      cmds := WrongUnit(w, i);
    } else {
      var i :| 0 <= i < SLOTS && !Claim(d, x, Place(i), sh.bound[i]);
      cmds := WrongEntry(w, i);
    }
  }

  // ---- Any wrong shadow --------------------------------------------------------------------------------

  /** Without a current context a call only does what is due. */
  lemma Settle(w: World)
    requires Base(w) && w.driver.current == 0
    ensures var cmd := Active(GL_TEXTURE0); var w' := Handle(w, cmd);
      && Clean(w, cmd) && w'.driver == Do(w.driver, cmd) == w.driver && w'.stub.pending == 0 && Base(w')
      && forall c :: 0 < c < MAX_CONTEXTS && c != w.stub.pending ==> w'.stub.shadows[c] == w.stub.shadows[c]
  {
  }

  /** The shadow of a context without one is set up by the next call. */
  lemma Touched(w: World) returns (cmds: seq<Command>)
    requires Base(w) && w.stub.pending == 0 && w.driver.current != 0
    requires !Coherent(w.driver, Here(w.driver), w.stub.shadows[w.stub.current])
    ensures Differs(w, cmds)
  {
    if Ready(w) {
      ReadyFound(w);
      cmds := WrongShadow(w);
    } else {
      InitialIsRight(w.driver, Here(w.driver));
      var w1 := World(Access(w.stub), w.driver);
      assert Found(w1) == Initial() == Found(w);
      cmds := WrongShadow(w1);
      assert cmds != [];
      SameFound(w, w1, cmds);
    }
  }

  lemma SameFound(w: World, w1: World, cmds: seq<Command>)
    requires w.Valid() && w.stub.pending == 0 && w1 == World(Access(w.stub), w.driver)
    requires Differs(w1, cmds) && cmds != [] && (cmds[0].Active? || cmds[0].Bind?)
    ensures Differs(w, cmds)
  {
    assert Access(w1.stub) == Access(w.stub);
    assert Handle(w1, cmds[0]) == Handle(w, cmds[0]);
  }

  lemma WrongContext(w: World, c: nat) returns (cmds: seq<Command>)
    requires Base(w) && 0 < c < MAX_CONTEXTS && c != w.stub.pending
    requires !Coherent(w.driver, w.driver.contexts[c], w.stub.shadows[c])
    ensures Differs(w, cmds)
  {
    var w1 := Handle(w, MakeCurrent(0));
    Settle(w1);
    var w2 := Handle(w1, Active(GL_TEXTURE0));
    var w3 := Handle(w2, MakeCurrent(c));
    var more := Touched(w3);
    Before(w2, MakeCurrent(c), more);
    Before(w1, Active(GL_TEXTURE0), [MakeCurrent(c)] + more);
    cmds := [MakeCurrent(0)] + ([Active(GL_TEXTURE0)] + ([MakeCurrent(c)] + more));
    Before(w, MakeCurrent(0), [Active(GL_TEXTURE0)] + ([MakeCurrent(c)] + more));
  }

  // ---- Exactness ---------------------------------------------------------------------------------------

  lemma UncleanActive(w: World, texture: nat)
    requires Inv(w) && !Clean(w, Active(texture)) && Handle(w, Active(texture)).driver == Do(w.driver, Active(texture))
    ensures !ContextOk(Handle(w, Active(texture)), w.driver.current)
  {
    AccessKeeps(w);
    var w' := Handle(w, Active(texture));
    var d, x, sh := w.driver, Here(w.driver), Found(w);
    var d', x', sh' := w'.driver, Here(w'.driver), w'.stub.shadows[w.stub.current];
    assert sh' == sh.(active := texture) && x'.bindings == x.bindings && x'.group == x.group && d'.names == d.names;
    if i :| Wiped(w) && 0 <= i < SLOTS && Place(i) in x.bindings {
      assert !Claim(d', x', Place(i), sh'.bound[i]);
    }
  }

  lemma UncleanBind(w: World, target: nat, name: nat)
    requires Inv(w) && !Clean(w, Bind(target, name))
    requires Handle(w, Bind(target, name)).driver == Do(w.driver, Bind(target, name))
    ensures !ContextOk(Handle(w, Bind(target, name)), w.driver.current)
  {
    AccessKeeps(w);
    MarkerDrop(w.driver, target);
    var w' := Handle(w, Bind(target, name));
    var d, x, sh := w.driver, Here(w.driver), Found(w);
    var d', x', sh' := w'.driver, Here(w'.driver), w'.stub.shadows[w.stub.current];
    PlaceOfSlot(target, sh.active);
    if i :| Wiped(w) && x.active == GL_TEXTURE0 && 0 <= i < SLOTS && Place(i) in x.bindings
            && !(TexSlot(target, sh.active) == Some(i) && name != 0) {
      assert !Claim(d', x', Place(i), sh'.bound[i]);
    }
  }

  /** A command that breaks a condition goes wrong at once or leaves a wrong shadow. */
  lemma UncleanBreaks(w: World, cmd: Command) returns (c: nat)
    requires Inv(w) && w.driver.units >= MAX_TEXTURE_UNITS
    requires !Clean(w, cmd) && Handle(w, cmd).driver == Do(w.driver, cmd)
    ensures var w' := Handle(w, cmd);
      && Base(w') && 0 < c < MAX_CONTEXTS && c != w'.stub.pending
      && !Coherent(w'.driver, w'.driver.contexts[c], w'.stub.shadows[c])
  {
    if cmd.CreateContext? {
      c := w.stub.pending;
    } else {
      c := w.driver.current;
      if cmd.Active? {
        UncleanActive(w, cmd.texture);
      } else {
        UncleanBind(w, cmd.target, cmd.name);
        BindKeepsNames(w.driver, cmd.target, cmd.name);
      }
    }
  }

  /** The filtered run from w and the unfiltered run from d end in the same driver state. */
  predicate Agree(w: World, d: Driver, cmds: seq<Command>)
    requires w.Valid() && d.Valid()
  {
    HandleAll(w, cmds).driver == DoAll(d, cmds)
  }

  /** For every command in every state that clean commands lead to: the filter is invisible, now and for all clean
      commands to come, if and only if the command meets its condition. */
  lemma CleanExactly(w: World, cmd: Command)
    requires Inv(w) && w.driver.units >= MAX_TEXTURE_UNITS
    ensures Clean(w, cmd) <==>
      forall cmds :: AllClean(Handle(w, cmd), cmds) ==> Agree(Handle(w, cmd), Do(w.driver, cmd), cmds)
  {
    var w', d' := Handle(w, cmd), Do(w.driver, cmd);
    if Clean(w, cmd) {
      Step(w, cmd);
      forall cmds | AllClean(w', cmds) ensures Agree(w', d', cmds) {
        RunsAgree(w', cmds);
      }
    } else if w'.driver != d' {
      assert AllClean(w', []) && !Agree(w', d', []);
    } else {
      var c := UncleanBreaks(w, cmd);
      var cmds := WrongContext(w', c);
      assert AllClean(w', cmds) && !Agree(w', d', cmds);
    }
  }

  // ---- Instances ---------------------------------------------------------------------------------------

  lemma OneMore(w: World, d: Driver, cmd: Command, cmds: seq<Command>)
    requires w.Valid() && d.Valid()
    ensures HandleAll(w, [cmd] + cmds) == HandleAll(Handle(w, cmd), cmds)
    ensures DoAll(d, [cmd] + cmds) == DoAll(Do(d, cmd), cmds)
  {
    assert ([cmd] + cmds)[1..] == cmds;
  }

  /** A unit that does not exist is made active; the bind that follows goes to unit 0 unseen, and undoing it is lost. */
  lemma RejectedUnitLosesBind(w: World)
    requires Start(w) && w.driver.current == 1 && MAX_TEXTURE_UNITS <= w.driver.units < 1000
    ensures var cmds := [Active(GL_TEXTURE0 + 1000)] + ([Bind(GL_TEXTURE_2D, 5)]
                      + ([Active(GL_TEXTURE0)] + ([Bind(GL_TEXTURE_2D, 0)] + [])));
      !Agree(w, w.driver, cmds)
  {
    var a, b, c, e := Active(GL_TEXTURE0 + 1000), Bind(GL_TEXTURE_2D, 5), Active(GL_TEXTURE0), Bind(GL_TEXTURE_2D, 0);
    var d := w.driver;
    OneMore(w, d, a, [b] + ([c] + ([e] + [])));
    var w1, d1 := Handle(w, a), Do(d, a);
    OneMore(w1, d1, b, [c] + ([e] + []));
    var w2, d2 := Handle(w1, b), Do(d1, b);
    OneMore(w2, d2, c, [e] + []);
    var w3, d3 := Handle(w2, c), Do(d2, c);
    OneMore(w3, d3, e, []);
    var w4, d4 := Handle(w3, e), Do(d3, e);
    var at := (GL_TEXTURE0, GL_TEXTURE_2D);
    assert d1 == w1.driver == d && at in w2.driver.contexts[1].bindings && d3.contexts[1].active == GL_TEXTURE0;
    assert w3.stub.shadows[1].bound == Initial().bound && w4.driver == w3.driver;
    assert at !in d4.contexts[1].bindings && at in w4.driver.contexts[1].bindings;
  }

  /** Context 2 has texture 5 bound and is created anew; before any call resets its shadow, context 3 is created. The
      reset of context 2 is forgotten, and its next bind of texture 5 is lost. */
  lemma OverwrittenResetLosesBind(w: World)
    requires Start(w) && w.driver.current == 2 && w.driver.units >= 2
    ensures var w1 := Handle(Handle(w, Bind(GL_TEXTURE_2D, 5)), CreateContext(2, 0));
      var cmds := [CreateContext(3, 0)] + ([MakeCurrent(3)] + ([Active(GL_TEXTURE0 + 1)]
                  + ([MakeCurrent(2)] + ([Bind(GL_TEXTURE_2D, 5)] + []))));
      !Agree(w1, w1.driver, cmds)
  {
    var a, b, c := CreateContext(3, 0), MakeCurrent(3), Active(GL_TEXTURE0 + 1);
    var e, f := MakeCurrent(2), Bind(GL_TEXTURE_2D, 5);
    var w1 := Handle(Handle(w, f), CreateContext(2, 0));
    assert w1.stub.shadows[2].initialised && w1.stub.shadows[2].bound[0] == 5;
    OneMore(w1, w1.driver, a, [b] + ([c] + ([e] + ([f] + []))));
    var w2, d2 := Handle(w1, a), Do(w1.driver, a);
    OneMore(w2, d2, b, [c] + ([e] + ([f] + [])));
    var w3, d3 := Handle(w2, b), Do(d2, b);
    OneMore(w3, d3, c, [e] + ([f] + []));
    var w4, d4 := Handle(w3, c), Do(d3, c);
    OneMore(w4, d4, e, [f] + []);
    var w5, d5 := Handle(w4, e), Do(d4, e);
    OneMore(w5, d5, f, []);
    assert w5.stub.pending == 0 && w5.stub.shadows[2] == w1.stub.shadows[2];
    var at := (GL_TEXTURE0, GL_TEXTURE_2D);
    assert w5.driver.contexts[2].bindings == map[] == d5.contexts[2].bindings;
    assert at in Do(d5, f).contexts[2].bindings && Handle(w5, f).driver == w5.driver;
  }
}
