/** Skipping glFramebufferTexture2D calls that the cache recognises leaves the driver in the state it would
    have without any skipping, for every sequence of commands whose recorded attachments the driver accepts. */
module FboRefines {
  import opened FboDriver
  import opened FboCache

  datatype Proxy = Proxy(driver: Driver, rows: seq<Row>) {
    predicate Valid() {
      driver.Valid() && |rows| == CONTEXTS && forall c :: 0 <= c < CONTEXTS ==> |rows[c].entries| == ENTRIES
    }
  }

  function SetRow(p: Proxy, r: Row): seq<Row>
    requires p.Valid()
  {
    p.rows[p.driver.current := r]
  }

  function ForgetEverywhere(rows: seq<Row>, tex: seq<nat>): (r: seq<Row>)
    ensures |r| == |rows|
  {
    seq(|rows|, c requires 0 <= c < |rows| => ForgetTextures(rows[c], tex))
  }

  /** The handlers with the cache in front of the driver */
  function Handle(p: Proxy, cmd: Command): Proxy
    requires p.Valid()
  {
    var d, r := p.driver, p.rows[p.driver.current];
    match cmd
    case CreateContext(ctx, group) => Proxy(Do(d, cmd), if 0 < ctx < CONTEXTS then p.rows[ctx := EmptyRow()] else p.rows)
    case Bind(target, fb) => Proxy(Do(d, cmd), SetRow(p, BindRow(r, target, fb)))
    case AttachTexture(target, attachment, textarget, texture, level) =>
      var (hit, r') := Attach(r, target, attachment, textarget, texture, level);
      Proxy(if hit then d else Do(d, cmd), SetRow(p, r'))
    case AttachRenderbuffer(target, attachment, _) => Proxy(Do(d, cmd), SetRow(p, Invalidate(r, target, attachment)))
    case DeleteTextures(tex) => Proxy(Do(d, cmd), ForgetEverywhere(p.rows, tex))
    case DeleteFramebuffers(fbs) => Proxy(Do(d, cmd), SetRow(p, ForgetFbs(r, fbs)))
    case _ => Proxy(Do(d, cmd), p.rows)
  }

  lemma {:induction false} ForgetFbsKeepsSize(r: Row, fbs: seq<nat>)
    ensures |ForgetFbs(r, fbs).entries| == |r.entries|
    decreases |fbs|
  {
    if fbs != [] {
      ForgetFbsKeepsSize(ForgetFb(r, fbs[0]), fbs[1..]);
    }
  }

  lemma HandleValid(p: Proxy, cmd: Command)
    requires p.Valid()
    ensures Handle(p, cmd).Valid()
  {
    if cmd.DeleteFramebuffers? {
      ForgetFbsKeepsSize(p.rows[p.driver.current], cmd.fbs);
    }
  }

  // ---- What an entry claims -----------------------------------------------------------------

  predicate EntryOk(d: Driver, c: nat, e: Entry)
    requires d.Valid() && c < CONTEXTS
  {
    var x := d.contexts[c];
    e.fbo != 0 ==>
      && e.fbo in x.fbos && TextureKnown(d, x.group, e.texture)
      && Shows(x.fbos[e.fbo], e.attachment, ImageOf(d, x.group, e.textarget, e.texture, e.level))
  }

  /** Every point behind an attachment enum holds the image. */
  predicate Shows(points: Points, attachment: nat, image: Image) {
    if attachment == GL_DEPTH_STENCIL_ATTACHMENT then
      At(points, GL_DEPTH_ATTACHMENT) == image && At(points, GL_STENCIL_ATTACHMENT) == image
    else At(points, attachment) == image
  }

  predicate Unique(s: seq<Entry>) {
    forall i, j :: 0 <= i < j < |s| && s[i].fbo != 0 ==> !AtKey(s[j], s[i].fbo, s[i].attachment)
  }

  predicate EntriesOk(d: Driver, c: nat, s: seq<Entry>)
    requires d.Valid() && c < CONTEXTS
  {
    forall i :: 0 <= i < |s| ==> EntryOk(d, c, s[i])
  }

  predicate RowOk(d: Driver, c: nat, r: Row)
    requires d.Valid() && c < CONTEXTS
  {
    var x := d.contexts[c];
    && |r.entries| == ENTRIES && Unique(r.entries) && EntriesOk(d, c, r.entries)
    && r.draw == x.draw && r.read == x.read
    && (x.draw != 0 ==> x.draw in x.fbos) && (x.read != 0 ==> x.read in x.fbos)
  }

  /** Different names stand for different objects, and absent points are the only empty ones. */
  predicate NamesOk(d: Driver) {
    && (forall k :: k in d.names ==> d.names[k] < d.nextObj)
    && (forall k, m :: k in d.names && m in d.names && k != m ==> d.names[k] != d.names[m])
  }

  predicate Plain(points: Points) {
    forall p :: p in points ==> points[p] != NoImage
  }

  predicate PlainContext(x: Context) {
    forall f :: f in x.fbos ==> Plain(x.fbos[f])
  }

  /** Only existing or former texture objects are attached. */
  predicate OldPoints(points: Points, next: nat) {
    forall p :: p in points && points[p].TexImage? ==> points[p].obj < next
  }

  predicate OldContext(x: Context, next: nat) {
    forall f :: f in x.fbos ==> OldPoints(x.fbos[f], next)
  }

  predicate DriverOk(d: Driver) {
    && d.Valid() && NamesOk(d)
    && forall c :: 0 <= c < CONTEXTS ==> PlainContext(d.contexts[c]) && OldContext(d.contexts[c], d.nextObj)
  }

  predicate Inv(p: Proxy) {
    p.Valid() && DriverOk(p.driver) && forall c :: 0 < c < CONTEXTS ==> RowOk(p.driver, c, p.rows[c])
  }

  /** The driver accepts an attachment that the cache would record, or it is in place already. */
  predicate Clean(d: Driver, cmd: Command)
    requires d.Valid()
  {
    var x := Here(d);
    cmd.AttachTexture? && d.current != 0 && BoundTo(x, cmd.target) != 0 ==>
      && TextureKnown(d, x.group, cmd.texture)
      && (KnownTarget(cmd.target) || InPlace(d, cmd))
  }

  predicate InPlace(d: Driver, cmd: Command)
    requires d.Valid() && cmd.AttachTexture?
  {
    var x := Here(d);
    var fb := BoundTo(x, cmd.target);
    fb in x.fbos && Shows(x.fbos[fb], cmd.attachment, ImageOf(d, x.group, cmd.textarget, cmd.texture, cmd.level))
  }

  // ---- The driver keeps its shape -------------------------------------------------------------

  lemma PlainEqual(a: Points, b: Points)
    requires Plain(a) && Plain(b) && forall p :: At(a, p) == At(b, p)
    ensures a == b
  {
    assert forall p :: p in a <==> At(a, p) != NoImage;
    assert forall p :: p in b <==> At(b, p) != NoImage;
    assert forall p :: p in a ==> a[p] == At(a, p) == At(b, p) == b[p];
  }

  lemma DeleteTextureOk(d: Driver, t: nat)
    requires DriverOk(d)
    ensures DriverOk(DeleteTexture(d, t))
  {
  }

  lemma {:induction false} DeleteTexturesOk(d: Driver, tex: seq<nat>)
    requires DriverOk(d)
    ensures DriverOk(DeleteTextureList(d, tex))
    decreases |tex|
  {
    if tex != [] {
      DeleteTextureOk(d, tex[0]);
      DeleteTexturesOk(DeleteTexture(d, tex[0]), tex[1..]);
    }
  }

  lemma {:induction false} DeleteFbsPlain(x: Context, fbs: seq<nat>, next: nat)
    requires PlainContext(x) && OldContext(x, next)
    ensures PlainContext(DeleteFbList(x, fbs)) && OldContext(DeleteFbList(x, fbs), next)
    decreases |fbs|
  {
    if fbs != [] {
      DeleteFbsPlain(DeleteFb(x, fbs[0]), fbs[1..], next);
    }
  }

  lemma DriverStays(d: Driver, cmd: Command)
    requires DriverOk(d)
    ensures DriverOk(Do(d, cmd))
  {
    if cmd.DeleteTextures? {
      DeleteTexturesOk(d, cmd.tex);
    } else if cmd.DeleteFramebuffers? {
      DeleteFbsPlain(Here(d), cmd.fbs, d.nextObj);
    }
  }

  // ---- Rows -----------------------------------------------------------------------------------

  /** Names only gain entries and the context is untouched. */
  lemma RowFrame(d: Driver, d': Driver, c: nat, r: Row)
    requires d.Valid() && d'.Valid() && c < CONTEXTS && RowOk(d, c, r)
    requires d'.contexts[c] == d.contexts[c]
    requires forall k :: k in d.names ==> k in d'.names && d'.names[k] == d.names[k]
    ensures RowOk(d', c, r)
  {
    forall i | 0 <= i < |r.entries| ensures EntryOk(d', c, r.entries[i]) {
      assert EntryOk(d, c, r.entries[i]);
    }
  }

  /** Clearing some entries keeps a table right. */
  lemma Cleared(d: Driver, c: nat, s: seq<Entry>, s': seq<Entry>)
    requires d.Valid() && c < CONTEXTS && Unique(s) && EntriesOk(d, c, s) && |s'| == |s|
    requires forall i :: 0 <= i < |s| ==> s'[i] == s[i] || s'[i] == Clear(s[i])
    ensures Unique(s') && EntriesOk(d, c, s')
  {
    forall i | 0 <= i < |s'| ensures EntryOk(d, c, s'[i]) {
      assert EntryOk(d, c, s[i]);
    }
    forall i, j | 0 <= i < j < |s'| && s'[i].fbo != 0 ensures !AtKey(s'[j], s'[i].fbo, s'[i].attachment) {
      assert !AtKey(s[j], s[i].fbo, s[i].attachment);
    }
  }

  /** Points of unrelated attachments are different points. */
  lemma Unrelated(points: Points, a: nat, b: nat, image: Image, other: Image)
    requires !Alias(a, b) && Shows(points, b, other)
    ensures Shows(SetPoints(points, a, image), b, other)
  {
  }

  /** After setting an attachment, every entry about no alias of it still tells the truth. */
  lemma SetKeepsEntry(d: Driver, fbo: nat, attachment: nat, image: Image, e: Entry)
    requires d.Valid() && fbo != 0 && fbo in Here(d).fbos && EntryOk(d, d.current, e)
    requires e.fbo == fbo ==> !Alias(attachment, e.attachment)
    ensures var x := Here(d);
      EntryOk(SetHere(d, x.(fbos := x.fbos[fbo := SetPoints(x.fbos[fbo], attachment, image)])), d.current, e)
  {
    var x := Here(d);
    if e.fbo == fbo {
      Unrelated(x.fbos[fbo], attachment, e.attachment, image,
                ImageOf(d, x.group, e.textarget, e.texture, e.level));
    }
  }

  /** The new entry replaces the only one of its attachment, or takes a free place, or the table starts over. */
  lemma StoredOk(d: Driver, c: nat, s: seq<Entry>, k: nat, e: Entry)
    requires d.Valid() && c < CONTEXTS && Unique(s) && 0 < |s|
    requires k == Find(s, e.fbo, e.attachment, 0) && e.fbo != 0 && EntryOk(d, c, e)
    requires forall i :: 0 <= i < |s| && !AtKey(s[i], e.fbo, e.attachment) ==> EntryOk(d, c, s[i])
    ensures Unique(Store(s, k, e)) && EntriesOk(d, c, Store(s, k, e))
  {
    var slot := if k < |s| then k else FindFree(s, 0);
    var s' := Store(s, k, e);
    if slot < |s| {
      forall i | 0 <= i < |s'| ensures EntryOk(d, c, s'[i]) {
        if k < i {
          assert k < |s| ==> !AtKey(s[i], s[k].fbo, s[k].attachment);
        }
      }
      forall i, j | 0 <= i < j < |s'| && s'[i].fbo != 0 ensures !AtKey(s'[j], s'[i].fbo, s'[i].attachment) {
        if i != slot && j != slot {
          assert !AtKey(s[j], s[i].fbo, s[i].attachment);
        } else if k < |s| {
          assert !AtKey(s[j], s[i].fbo, s[i].attachment);
        }
      }
    }
  }

  /** A hit means that the driver call would change nothing. */
  lemma HitIsIdle(d: Driver, r: Row, cmd: Command)
    requires DriverOk(d) && d.current != 0 && RowOk(d, d.current, r) && cmd.AttachTexture?
    requires Attach(r, cmd.target, cmd.attachment, cmd.textarget, cmd.texture, cmd.level).0
    ensures Do(d, cmd) == d
  {
    var x, fbo := Here(d), Bound(r, cmd.target);
    var k := Find(r.entries, fbo, cmd.attachment, 0);
    assert EntryOk(d, d.current, r.entries[k]);
    var image := ImageOf(d, x.group, cmd.textarget, cmd.texture, cmd.level);
    var points := x.fbos[fbo];
    assert Plain(points);
    PlainEqual(SetPoints(points, cmd.attachment, image), points);
    assert x.fbos[fbo := points] == x.fbos;
    assert d.contexts[d.current := x] == d.contexts;
  }

  /** A miss is passed on and recorded. */
  lemma MissIsRecorded(d: Driver, r: Row, cmd: Command)
    requires DriverOk(d) && d.current != 0 && RowOk(d, d.current, r) && cmd.AttachTexture? && Clean(d, cmd)
    requires !Attach(r, cmd.target, cmd.attachment, cmd.textarget, cmd.texture, cmd.level).0
    ensures RowOk(Do(d, cmd), d.current, Attach(r, cmd.target, cmd.attachment, cmd.textarget, cmd.texture, cmd.level).1)
  {
    var x, fbo, s := Here(d), Bound(r, cmd.target), r.entries;
    if fbo == 0 {
      assert Do(d, cmd).contexts[d.current] == x;
      RowFrame(d, Do(d, cmd), d.current, r);
    } else {
      var d' := Do(d, cmd);
      var e := Entry(fbo, cmd.attachment, cmd.textarget, cmd.texture, cmd.level);
      var k := Find(s, fbo, cmd.attachment, 0);
      var s1 := ClearShadows(s, fbo, cmd.attachment);
      var image := ImageOf(d, x.group, cmd.textarget, cmd.texture, cmd.level);
      Cleared(d, d.current, s, s1);
      FindSkipsShadows(s, fbo, cmd.attachment, 0);
      forall i | 0 <= i < |s1| && !AtKey(s1[i], fbo, cmd.attachment) ensures EntryOk(d', d.current, s1[i]) {
        assert EntryOk(d, d.current, s1[i]);
        if KnownTarget(cmd.target) {
          SetKeepsEntry(d, fbo, cmd.attachment, image, s1[i]);
        }
      }
      StoredOk(d', d.current, s1, k, e);
    }
  }

  lemma {:induction false} FindSkipsShadows(s: seq<Entry>, fbo: nat, attachment: nat, i: nat)
    requires i <= |s| && fbo != 0
    ensures Find(ClearShadows(s, fbo, attachment), fbo, attachment, i) == Find(s, fbo, attachment, i)
    decreases |s| - i
  {
    if i < |s| && !AtKey(s[i], fbo, attachment) {
      FindSkipsShadows(s, fbo, attachment, i + 1);
    }
  }

  lemma RenderbufferRow(d: Driver, r: Row, cmd: Command)
    requires DriverOk(d) && d.current != 0 && RowOk(d, d.current, r) && cmd.AttachRenderbuffer?
    ensures RowOk(Do(d, cmd), d.current, Invalidate(r, cmd.target, cmd.attachment))
  {
    var x, fbo, d' := Here(d), Bound(r, cmd.target), Do(d, cmd);
    var s1 := Invalidate(r, cmd.target, cmd.attachment).entries;
    Cleared(d, d.current, r.entries, s1);
    forall i | 0 <= i < |s1| ensures EntryOk(d', d.current, s1[i]) {
      assert EntryOk(d, d.current, s1[i]);
      if CanAttach(x, cmd.target) {
        SetKeepsEntry(d, fbo, cmd.attachment, RbImage(cmd.obj), s1[i]);
      }
    }
  }

  lemma BindKeepsRow(d: Driver, r: Row, cmd: Command)
    requires DriverOk(d) && d.current != 0 && RowOk(d, d.current, r) && cmd.Bind?
    ensures RowOk(Do(d, cmd), d.current, BindRow(r, cmd.target, cmd.fb))
  {
    var d' := Do(d, cmd);
    forall i | 0 <= i < |r.entries| ensures EntryOk(d', d.current, r.entries[i]) {
      assert EntryOk(d, d.current, r.entries[i]);
    }
  }

  // ---- Deleting -------------------------------------------------------------------------------

  /** Deleting a texture harms no entry about another name, in any context. */
  lemma DeleteTextureEntry(d: Driver, t: nat, c: nat, e: Entry)
    requires DriverOk(d) && c < CONTEXTS && EntryOk(d, c, e) && (e.texture == 0 || e.texture != t)
    ensures EntryOk(DeleteTexture(d, t), c, e)
  {
  }

  lemma {:induction false} DeleteTexturesEntry(d: Driver, tex: seq<nat>, c: nat, e: Entry)
    requires DriverOk(d) && c < CONTEXTS && EntryOk(d, c, e) && (e.texture == 0 || e.texture !in tex)
    ensures EntryOk(DeleteTextureList(d, tex), c, e)
    decreases |tex|
  {
    if tex != [] {
      DeleteTextureEntry(d, tex[0], c, e);
      DeleteTextureOk(d, tex[0]);
      DeleteTexturesEntry(DeleteTexture(d, tex[0]), tex[1..], c, e);
    }
  }

  lemma {:induction false} DeleteTexturesBindings(d: Driver, tex: seq<nat>, c: nat)
    requires d.Valid() && c < CONTEXTS
    ensures var x, x' := d.contexts[c], DeleteTextureList(d, tex).contexts[c];
      x'.draw == x.draw && x'.read == x.read && x'.fbos.Keys == x.fbos.Keys
    decreases |tex|
  {
    if tex != [] {
      DeleteTexturesBindings(DeleteTexture(d, tex[0]), tex[1..], c);
    }
  }

  lemma DeleteTexturesRow(d: Driver, tex: seq<nat>, c: nat, r: Row)
    requires DriverOk(d) && c < CONTEXTS && RowOk(d, c, r)
    ensures RowOk(DeleteTextureList(d, tex), c, ForgetTextures(r, tex))
  {
    var s1 := ForgetTextures(r, tex).entries;
    Cleared(d, c, r.entries, s1);
    DeleteTexturesBindings(d, tex, c);
    forall i | 0 <= i < |s1| ensures EntryOk(DeleteTextureList(d, tex), c, s1[i]) {
      assert EntryOk(d, c, s1[i]);
      if s1[i].fbo != 0 {
        DeleteTexturesEntry(d, tex, c, s1[i]);
      }
    }
  }

  lemma DeleteFbRow(d: Driver, fb: nat, r: Row)
    requires d.Valid() && RowOk(d, d.current, r)
    ensures RowOk(SetHere(d, DeleteFb(Here(d), fb)), d.current, ForgetFb(r, fb))
  {
    var d', s1 := SetHere(d, DeleteFb(Here(d), fb)), ForgetFb(r, fb).entries;
    Cleared(d, d.current, r.entries, s1);
    forall i | 0 <= i < |s1| ensures EntryOk(d', d.current, s1[i]) {
      assert EntryOk(d, d.current, s1[i]) && EntryOk(d, d.current, r.entries[i]);
    }
  }

  lemma {:induction false} DeleteFbsRow(d: Driver, fbs: seq<nat>, r: Row)
    requires d.Valid() && RowOk(d, d.current, r)
    ensures RowOk(SetHere(d, DeleteFbList(Here(d), fbs)), d.current, ForgetFbs(r, fbs))
    decreases |fbs|
  {
    if fbs == [] {
      assert d.contexts[d.current := Here(d)] == d.contexts;
    } else {
      var d1 := SetHere(d, DeleteFb(Here(d), fbs[0]));
      DeleteFbRow(d, fbs[0], r);
      DeleteFbsRow(d1, fbs[1..], ForgetFb(r, fbs[0]));
      var x := DeleteFbList(Here(d1), fbs[1..]);
      assert SetHere(d1, x).contexts == SetHere(d, x).contexts;
    }
  }

  lemma DeleteRenderbufferRow(d: Driver, r: Row, cmd: Command)
    requires DriverOk(d) && d.current != 0 && RowOk(d, d.current, r) && cmd.DeleteRenderbuffer?
    ensures RowOk(Do(d, cmd), d.current, r)
  {
    forall i | 0 <= i < |r.entries| ensures EntryOk(Do(d, cmd), d.current, r.entries[i]) {
      assert EntryOk(d, d.current, r.entries[i]);
    }
  }

  // ---- One command ----------------------------------------------------------------------------

  /** The row of the current context after a command */
  lemma RowHere(p: Proxy, cmd: Command)
    requires Inv(p) && Clean(p.driver, cmd) && p.driver.current != 0 && !cmd.MakeCurrent? && !cmd.CreateContext?
    ensures RowOk(Do(p.driver, cmd), p.driver.current, Handle(p, cmd).rows[p.driver.current])
    ensures Handle(p, cmd).driver == Do(p.driver, cmd)
  {
    var d, r := p.driver, p.rows[p.driver.current];
    assert RowOk(d, d.current, r);
    match cmd
    case Bind(_, _) => BindKeepsRow(d, r, cmd);
    case AttachTexture(target, attachment, textarget, texture, level) =>
      if Attach(r, target, attachment, textarget, texture, level).0 {
        HitIsIdle(d, r, cmd);
      } else {
        MissIsRecorded(d, r, cmd);
      }
    case AttachRenderbuffer(_, _, _) => RenderbufferRow(d, r, cmd);
    case DeleteTextures(tex) => DeleteTexturesRow(d, tex, d.current, r);
    case DeleteFramebuffers(fbs) => DeleteFbsRow(d, fbs, r);
    case DeleteRenderbuffer(_) => DeleteRenderbufferRow(d, r, cmd);
    case CreateTexture(_) => RowFrame(d, Do(d, cmd), d.current, r);
  }

  /** The rows of the other contexts */
  lemma RowThere(p: Proxy, cmd: Command, c: nat)
    requires Inv(p) && 0 < c < CONTEXTS && (c != p.driver.current || cmd.MakeCurrent? || cmd.CreateContext?)
    ensures RowOk(Do(p.driver, cmd), c, Handle(p, cmd).rows[c])
  {
    var d, r := p.driver, p.rows[c];
    assert RowOk(d, c, r);
    if cmd.DeleteTextures? {
      if d.current != 0 {
        DeleteTexturesRow(d, cmd.tex, c, r);
      } else {
        Cleared(d, c, r.entries, ForgetTextures(r, cmd.tex).entries);
      }
    } else if !(cmd.CreateContext? && cmd.ctx == c) {
      RowFrame(d, Do(d, cmd), c, r);
    }
  }

  lemma Step(p: Proxy, cmd: Command)
    requires Inv(p) && Clean(p.driver, cmd)
    ensures Inv(Handle(p, cmd)) && Handle(p, cmd).driver == Do(p.driver, cmd)
  {
    HandleValid(p, cmd);
    DriverStays(p.driver, cmd);
    if p.driver.current != 0 && !cmd.MakeCurrent? && !cmd.CreateContext? {
      RowHere(p, cmd);
    }
    forall c | 0 < c < CONTEXTS ensures RowOk(Do(p.driver, cmd), c, Handle(p, cmd).rows[c]) {
      if c != p.driver.current || cmd.MakeCurrent? || cmd.CreateContext? {
        RowThere(p, cmd, c);
      }
    }
  }

  // ---- Runs -----------------------------------------------------------------------------------

  function HandleAll(p: Proxy, cmds: seq<Command>): Proxy
    requires p.Valid()
    decreases |cmds|
  {
    if cmds == [] then p
    else
      HandleValid(p, cmds[0]);
      HandleAll(Handle(p, cmds[0]), cmds[1..])
  }

  predicate AllClean(d: Driver, cmds: seq<Command>)
    requires d.Valid()
    decreases |cmds|
  {
    cmds == [] || (Clean(d, cmds[0]) && AllClean(Do(d, cmds[0]), cmds[1..]))
  }

  /** A fresh driver and an empty cache */
  predicate Start(p: Proxy) {
    && p.Valid() && p.driver.names == map[]
    && forall c :: 0 <= c < CONTEXTS ==>
         p.rows[c] == EmptyRow()
         && p.driver.contexts[c].draw == p.driver.contexts[c].read == 0 && p.driver.contexts[c].fbos == map[]
  }

  lemma {:induction false} RunsAgree(p: Proxy, cmds: seq<Command>)
    requires Inv(p) && AllClean(p.driver, cmds)
    ensures HandleAll(p, cmds).driver == DoAll(p.driver, cmds)
    decreases |cmds|
  {
    if cmds != [] {
      Step(p, cmds[0]);
      RunsAgree(Handle(p, cmds[0]), cmds[1..]);
    }
  }

  /** For every sequence of commands over any number of contexts and share groups, the driver ends in the
      same state with and without skipped calls. */
  lemma SkippingIsInvisible(p: Proxy, cmds: seq<Command>)
    requires Start(p) && AllClean(p.driver, cmds)
    ensures HandleAll(p, cmds).driver == DoAll(p.driver, cmds)
  {
    RunsAgree(p, cmds);
  }

  // ---- The handlers ---------------------------------------------------------------------------

  /** The handlers of proxy/protocol/gles2.c and egl.c that touch the cache; driver stands for the calls into
      GL. */
  class Handlers {
    const cache: Cache
    var driver: Driver

    ghost predicate Valid()
      reads this, cache
    {
      cache.Valid() && driver.Valid() && driver.current == cache.current
    }

    ghost function View(): Proxy
      reads this, cache, cache.entries, cache.draw, cache.read
      requires Valid()
    {
      Proxy(driver, seq(CONTEXTS, c requires 0 <= c < CONTEXTS && cache.Valid()
        reads this, cache, cache.entries, cache.draw, cache.read => cache.View(c)))
    }

    constructor (driver: Driver)
      requires driver.Valid() && driver.current == 0
      ensures Valid() && fresh(cache) && fresh(cache.entries) && fresh(cache.draw) && fresh(cache.read)
      ensures View() == Proxy(driver, seq(CONTEXTS, c => EmptyRow()))
    {
      cache := new Cache();
      this.driver := driver;
    }

    method Run(cmd: Command)
      requires Valid() && View().Valid()
      modifies this, cache, cache.entries, cache.draw, cache.read
      ensures Valid() && View().driver == Handle(old(View()), cmd).driver
      ensures View().rows == Handle(old(View()), cmd).rows
    {
      match cmd
      case MakeCurrent(ctx) =>
        if ctx < CONTEXTS {
          cache.SetCurrent(ctx);
        }
        driver := Do(driver, cmd);
      case CreateContext(ctx, group) =>
        driver := Do(driver, cmd);
        if ctx != 0 {
          cache.ResetCtx(ctx);
        }
      case Bind(target, fb) =>
        driver := Do(driver, cmd);
        cache.Bind(target, fb);
      case AttachTexture(target, attachment, textarget, texture, level) =>
        var hit := cache.AttachTo(target, attachment, textarget, texture, level);
        if !hit {
          driver := Do(driver, cmd);
        }
      case AttachRenderbuffer(target, attachment, obj) =>
        driver := Do(driver, cmd);
        cache.InvalidateAttachment(target, attachment);
      case DeleteTextures(tex) =>
        cache.ForgetTextureNames(tex);
        driver := Do(driver, cmd);
      case DeleteFramebuffers(fbs) =>
        cache.ForgetFbNames(fbs);
        driver := Do(driver, cmd);
      case DeleteRenderbuffer(obj) =>
        driver := Do(driver, cmd);
      case CreateTexture(name) =>
        driver := Do(driver, cmd);
    }
  }
}
