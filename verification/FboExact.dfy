/** The condition under which the framebuffer cache is invisible is exact: an attachment that breaks it is recorded all
    the same, and a later call is skipped that should have reached the driver. */
module FboExact {
  import opened FboDriver
  import opened FboCache
  import opened FboRefines

  /** The cached run from p and the uncached run from d end in the same driver state. */
  predicate Agree(p: Proxy, d: Driver, cmds: seq<Command>)
    requires p.Valid() && d.Valid()
  {
    HandleAll(p, cmds).driver == DoAll(d, cmds)
  }

  lemma OneMore(p: Proxy, d: Driver, cmd: Command, cmds: seq<Command>)
    requires p.Valid() && d.Valid()
    ensures Handle(p, cmd).Valid() && Agree(p, d, [cmd] + cmds) == Agree(Handle(p, cmd), Do(d, cmd), cmds)
    ensures AllClean(d, [cmd] + cmds) == (Clean(d, cmd) && AllClean(Do(d, cmd), cmds))
  {
    HandleValid(p, cmd);
    assert ([cmd] + cmds)[1..] == cmds;
  }

  lemma Same(p: Proxy, d: Driver)
    requires p.Valid() && d.Valid()
    ensures Agree(p, d, []) <==> p.driver == d
    ensures AllClean(d, [])
  {
  }

  /** What the cache has stored it finds again. */
  lemma StoredIsFound(s: seq<Entry>, k: nat, e: Entry)
    requires 0 < |s| && e.fbo != 0 && k == Find(s, e.fbo, e.attachment, 0)
    ensures var s' := Store(s, k, e); var j := Find(s', e.fbo, e.attachment, 0); j < |s'| && s'[j] == e
  {
    var s' := Store(s, k, e);
    var slot := if k < |s| then k else FindFree(s, 0);
    var at := if slot < |s| then slot else 0;
    assert s'[at] == e && forall i :: 0 <= i < at ==> !AtKey(s'[i], e.fbo, e.attachment);
  }

  /** After a miss the same attachment is a hit. */
  lemma MissThenHit(r: Row, target: nat, attachment: nat, textarget: nat, texture: nat, level: int, target2: nat)
    requires 0 < |r.entries| && Bound(r, target) != 0 && Bound(r, target2) == Bound(r, target)
    requires !Attach(r, target, attachment, textarget, texture, level).0
    ensures var r' := Attach(r, target, attachment, textarget, texture, level).1;
      |r'.entries| == |r.entries| && Attach(r', target2, attachment, textarget, texture, level).0
  {
    var fbo, s := Bound(r, target), r.entries;
    var e := Entry(fbo, attachment, textarget, texture, level);
    var k := Find(s, fbo, attachment, 0);
    FindSkipsShadows(s, fbo, attachment, 0);
    StoredIsFound(ClearShadows(s, fbo, attachment), k, e);
  }

  /** The same attachment, through a target that the driver knows */
  function Proper(cmd: Command): (c: Command)
    requires cmd.AttachTexture?
    ensures c.AttachTexture? && KnownTarget(c.target)
  {
    match cmd
    case AttachTexture(target, attachment, textarget, texture, level) =>
      if KnownTarget(target) then cmd else AttachTexture(GL_DRAW_FRAMEBUFFER, attachment, textarget, texture, level)
  }

  /** A hit is passed over, whatever the driver would do. */
  lemma Skipped(p: Proxy, cmd: Command)
    requires p.Valid() && cmd.AttachTexture?
    requires Attach(p.rows[p.driver.current], cmd.target, cmd.attachment, cmd.textarget, cmd.texture, cmd.level).0
    ensures Handle(p, cmd).Valid() && Handle(p, cmd).driver == p.driver
  {
    HandleValid(p, cmd);
  }

  /** What the cache recognises is in place. */
  lemma HitIsClean(d: Driver, r: Row, cmd: Command)
    requires d.Valid() && d.current != 0 && RowOk(d, d.current, r) && cmd.AttachTexture?
    ensures Attach(r, cmd.target, cmd.attachment, cmd.textarget, cmd.texture, cmd.level).0 ==> Clean(d, cmd)
  {
    var k := Find(r.entries, Bound(r, cmd.target), cmd.attachment, 0);
    if k < |r.entries| {
      assert EntryOk(d, d.current, r.entries[k]);
    }
  }

  /** A rejected attachment that misses leaves the driver as it is and an entry for it. */
  lemma Recorded(p: Proxy, cmd: Command)
    requires Inv(p) && !Clean(p.driver, cmd)
    ensures var p' := Handle(p, cmd); var c := Proper(cmd);
      && p'.Valid() && p'.driver == Do(p.driver, cmd) == p.driver
      && Attach(p'.rows[p.driver.current], c.target, c.attachment, c.textarget, c.texture, c.level).0
  {
    var d, r := p.driver, p.rows[p.driver.current];
    assert RowOk(d, d.current, r);
    HandleValid(p, cmd);
    HitIsClean(d, r, cmd);
    MissThenHit(r, cmd.target, cmd.attachment, cmd.textarget, cmd.texture, cmd.level, Proper(cmd).target);
  }

  /** A miss leaves a truthful row exactly when the driver accepts the attachment or has it in place: the entry is made
      before the driver is asked. */
  lemma RecordIsTruthful(d: Driver, r: Row, cmd: Command)
    requires DriverOk(d) && d.current != 0 && RowOk(d, d.current, r) && cmd.AttachTexture?
    requires BoundTo(Here(d), cmd.target) != 0
    requires !Attach(r, cmd.target, cmd.attachment, cmd.textarget, cmd.texture, cmd.level).0
    ensures RowOk(Do(d, cmd), d.current, Attach(r, cmd.target, cmd.attachment, cmd.textarget, cmd.texture, cmd.level).1)
      <==> Clean(d, cmd)
  {
    if Clean(d, cmd) {
      MissIsRecorded(d, r, cmd);
    } else {
      var fbo, s := Bound(r, cmd.target), r.entries;
      var e := Entry(fbo, cmd.attachment, cmd.textarget, cmd.texture, cmd.level);
      FindSkipsShadows(s, fbo, cmd.attachment, 0);
      StoredIsFound(ClearShadows(s, fbo, cmd.attachment), Find(s, fbo, cmd.attachment, 0), e);
      assert !EntryOk(Do(d, cmd), d.current, e);
    }
  }

  /** Attaching an image that is not in place changes the driver. */
  lemma AttachShows(d: Driver, cmd: Command)
    requires d.Valid() && d.current != 0 && cmd.AttachTexture? && CanAttach(Here(d), cmd.target)
    requires TextureKnown(d, Here(d).group, cmd.texture) && !InPlace(d, cmd)
    ensures Do(d, cmd) != d
  {
    var x, d' := Here(d), Do(d, cmd);
    var fb := BoundTo(x, cmd.target);
    var image := ImageOf(d, x.group, cmd.textarget, cmd.texture, cmd.level);
    assert Here(d').fbos[fb] == SetPoints(x.fbos[fb], cmd.attachment, image);
    assert Shows(Here(d').fbos[fb], cmd.attachment, image);
  }

  /** Whatever is rejected but recorded makes some later call go missing. */
  lemma RejectedShows(p: Proxy, cmd: Command) returns (cmds: seq<Command>)
    requires Inv(p) && !Clean(p.driver, cmd)
    ensures Handle(p, cmd).Valid()
    ensures AllClean(Do(p.driver, cmd), cmds) && !Agree(Handle(p, cmd), Do(p.driver, cmd), cmds)
  {
    Recorded(p, cmd);
    assert RowOk(p.driver, p.driver.current, p.rows[p.driver.current]);
    var p', c := Handle(p, cmd), Proper(cmd);
    if TextureKnown(p.driver, Here(p.driver).group, cmd.texture) {
      cmds := [c] + [];
      SkippedShows(p', c);
    } else {
      cmds := [CreateTexture(cmd.texture)] + ([c] + []);
      CreatedShows(p', c);
    }
  }

  /** A recorded attachment of a missing texture: once the texture exists, attaching it is skipped. */
  lemma CreatedShows(p: Proxy, c: Command)
    requires p.Valid() && DriverOk(p.driver) && p.driver.current != 0
    requires c.AttachTexture? && CanAttach(Here(p.driver), c.target)
    requires !TextureKnown(p.driver, Here(p.driver).group, c.texture)
    requires Attach(p.rows[p.driver.current], c.target, c.attachment, c.textarget, c.texture, c.level).0
    ensures var cmds := [CreateTexture(c.texture)] + ([c] + []);
      AllClean(p.driver, cmds) && !Agree(p, p.driver, cmds)
  {
    var create := CreateTexture(c.texture);
    FreshIsNotInPlace(p.driver, c);
    OneMore(p, p.driver, create, [c] + []);
    SkippedShows(Handle(p, create), c);
  }

  /** Attach a missing texture (rejected), create it, attach it again: the second call is skipped. */
  lemma RejectedAttachIsSkippedLater(p: Proxy, c: Command)
    requires Inv(p) && p.driver.current != 0 && c.AttachTexture? && CanAttach(Here(p.driver), c.target)
    requires !TextureKnown(p.driver, Here(p.driver).group, c.texture)
    ensures !Agree(p, p.driver, [c] + ([CreateTexture(c.texture)] + ([c] + [])))
  {
    Recorded(p, c);
    OneMore(p, p.driver, c, [CreateTexture(c.texture)] + ([c] + []));
    CreatedShows(Handle(p, c), c);
  }

  lemma SkippedShows(p: Proxy, c: Command)
    requires p.Valid() && p.driver.current != 0 && c.AttachTexture? && CanAttach(Here(p.driver), c.target)
    requires TextureKnown(p.driver, Here(p.driver).group, c.texture) && !InPlace(p.driver, c)
    requires Attach(p.rows[p.driver.current], c.target, c.attachment, c.textarget, c.texture, c.level).0
    ensures AllClean(p.driver, [c] + []) && !Agree(p, p.driver, [c] + [])
  {
    Skipped(p, c);
    AttachShows(p.driver, c);
    OneMore(p, p.driver, c, []);
    Same(Handle(p, c), Do(p.driver, c));
  }

  /** A texture that has just been created is attached nowhere. */
  lemma FreshIsNotInPlace(d: Driver, c: Command)
    requires DriverOk(d) && d.current != 0 && c.AttachTexture? && !TextureKnown(d, Here(d).group, c.texture)
    ensures !InPlace(Do(d, CreateTexture(c.texture)), c)
  {
    var x := Here(d);
    var fb := BoundTo(x, c.target);
    if fb in x.fbos {
      assert OldContext(x, d.nextObj) && OldPoints(x.fbos[fb], d.nextObj);
    }
  }

  /** For every command in every state that clean commands lead to: skipping is invisible, now and for all clean
      commands to come, if and only if the command is no attachment, or the driver accepts it, or it is in place. */
  lemma CleanExactly(p: Proxy, cmd: Command)
    requires Inv(p)
    ensures Handle(p, cmd).Valid()
    ensures Clean(p.driver, cmd) <==>
      forall cmds :: AllClean(Do(p.driver, cmd), cmds) ==> Agree(Handle(p, cmd), Do(p.driver, cmd), cmds)
  {
    HandleValid(p, cmd);
    var p', d' := Handle(p, cmd), Do(p.driver, cmd);
    if Clean(p.driver, cmd) {
      Step(p, cmd);
      forall cmds | AllClean(d', cmds) ensures Agree(p', d', cmds) {
        RunsAgree(p', cmds);
      }
    } else {
      var cmds := RejectedShows(p, cmd);
      assert AllClean(d', cmds) && !Agree(p', d', cmds);
    }
  }
}
