/** What an OpenGL ES driver keeps about framebuffer attachments (OpenGL ES 3.2, sections 5.1.2 and 9.2):
    framebuffers belong to one context, texture names to a share group, and the two depth/stencil points
    can be set together. */
module FboDriver {

  const GL_FRAMEBUFFER: nat := 0x8D40
  const GL_READ_FRAMEBUFFER: nat := 0x8CA8
  const GL_DRAW_FRAMEBUFFER: nat := 0x8CA9
  const GL_DEPTH_ATTACHMENT: nat := 0x8D00
  const GL_STENCIL_ATTACHMENT: nat := 0x8D20
  const GL_DEPTH_STENCIL_ATTACHMENT: nat := 0x821A

  const CONTEXTS: nat := 9

  /** What an attachment point holds */
  datatype Image = NoImage | TexImage(obj: nat, textarget: nat, level: int) | RbImage(obj: nat)

  type Points = map<nat, Image>

  datatype Context = Context(group: nat, draw: nat, read: nat, fbos: map<nat, Points>)

  /** names: texture object of each (share group, name); current 0: no context is current */
  datatype Driver = Driver(contexts: seq<Context>, current: nat, names: map<(nat, nat), nat>, nextObj: nat) {
    predicate Valid() {
      |contexts| == CONTEXTS && current < CONTEXTS
    }
  }

  datatype Command =
    | MakeCurrent(ctx: nat)
    | CreateContext(ctx: nat, group: nat)
    | CreateTexture(name: nat)
    | Bind(target: nat, fb: nat)
    | AttachTexture(target: nat, attachment: nat, textarget: nat, texture: nat, level: int)
    | AttachRenderbuffer(target: nat, attachment: nat, obj: nat)
    | DeleteTextures(tex: seq<nat>)
    | DeleteFramebuffers(fbs: seq<nat>)
    | DeleteRenderbuffer(obj: nat)

  /** The attachment points that an attachment enum stands for. */
  predicate Covers(attachment: nat, point: nat) {
    if attachment == GL_DEPTH_STENCIL_ATTACHMENT then point == GL_DEPTH_ATTACHMENT || point == GL_STENCIL_ATTACHMENT
    else point == attachment
  }

  function At(points: Points, point: nat): Image {
    if point in points then points[point] else NoImage
  }

  /** A detached point is absent. */
  function SetPoints(points: Points, attachment: nat, image: Image): (r: Points)
    ensures forall p :: At(r, p) == if Covers(attachment, p) then image else At(points, p)
  {
    var rest := map p | p in points && !Covers(attachment, p) :: points[p];
    if image == NoImage then rest
    else if attachment == GL_DEPTH_STENCIL_ATTACHMENT then
      rest[GL_DEPTH_ATTACHMENT := image][GL_STENCIL_ATTACHMENT := image]
    else rest[attachment := image]
  }

  /** An image disappears from the points that hold it. */
  function Without(points: Points, gone: Image -> bool): (r: Points)
    ensures forall p :: At(r, p) == if gone(At(points, p)) then NoImage else At(points, p)
  {
    map p | p in points && !gone(points[p]) :: points[p]
  }

  predicate KnownTarget(target: nat) {
    target == GL_FRAMEBUFFER || target == GL_DRAW_FRAMEBUFFER || target == GL_READ_FRAMEBUFFER
  }

  function BoundTo(x: Context, target: nat): nat {
    if target == GL_READ_FRAMEBUFFER then x.read else x.draw
  }

  function Here(d: Driver): Context
    requires d.Valid()
  {
    d.contexts[d.current]
  }

  function SetHere(d: Driver, x: Context): (d': Driver)
    requires d.Valid()
    ensures d'.Valid()
  {
    d.(contexts := d.contexts[d.current := x])
  }

  /** glBindFramebuffer; a first bind creates the object. */
  function BindFb(x: Context, target: nat, fb: nat): Context {
    if !KnownTarget(target) then x
    else
      x.(draw := if target == GL_READ_FRAMEBUFFER then x.draw else fb,
         read := if target == GL_DRAW_FRAMEBUFFER then x.read else fb,
         fbos := if fb == 0 || fb in x.fbos then x.fbos else x.fbos[fb := map[]])
  }

  /** glFramebufferTexture2D and glFramebufferRenderbuffer are rejected on the default framebuffer. */
  predicate CanAttach(x: Context, target: nat) {
    KnownTarget(target) && BoundTo(x, target) != 0 && BoundTo(x, target) in x.fbos
  }

  function AttachImage(x: Context, target: nat, attachment: nat, image: Image): Context {
    if !CanAttach(x, target) then x
    else
      var fb := BoundTo(x, target);
      x.(fbos := x.fbos[fb := SetPoints(x.fbos[fb], attachment, image)])
  }

  /** The texture argument names nothing or an existing texture. */
  predicate TextureKnown(d: Driver, group: nat, texture: nat) {
    texture == 0 || (group, texture) in d.names
  }

  function ImageOf(d: Driver, group: nat, textarget: nat, texture: nat, level: int): Image {
    if texture == 0 || (group, texture) !in d.names then NoImage
    else TexImage(d.names[(group, texture)], textarget, level)
  }

  /** Deleting an object detaches it from the framebuffers bound in the current context, no others. */
  function Detach(x: Context, gone: Image -> bool): Context {
    x.(fbos := map f | f in x.fbos ::
         if f != 0 && (f == x.draw || f == x.read) then Without(x.fbos[f], gone) else x.fbos[f])
  }

  function DeleteTexture(d: Driver, texture: nat): (d': Driver)
    requires d.Valid()
    ensures d'.Valid() && d'.current == d.current
  {
    var key := (Here(d).group, texture);
    if texture == 0 || key !in d.names then d
    else
      var obj := d.names[key];
      SetHere(d, Detach(Here(d), (i: Image) => i.TexImage? && i.obj == obj)).(names := d.names - {key})
  }

  function DeleteTextureList(d: Driver, tex: seq<nat>): (d': Driver)
    requires d.Valid()
    ensures d'.Valid() && d'.current == d.current
    decreases |tex|
  {
    if tex == [] then d else DeleteTextureList(DeleteTexture(d, tex[0]), tex[1..])
  }

  /** A deleted framebuffer that is bound reverts to the default framebuffer. */
  function DeleteFb(x: Context, fb: nat): Context {
    if fb == 0 || fb !in x.fbos then x
    else
      x.(fbos := x.fbos - {fb}, draw := if x.draw == fb then 0 else x.draw,
         read := if x.read == fb then 0 else x.read)
  }

  function DeleteFbList(x: Context, fbs: seq<nat>): Context
    decreases |fbs|
  {
    if fbs == [] then x else DeleteFbList(DeleteFb(x, fbs[0]), fbs[1..])
  }

  /** One command on the driver. Without a current context, GL commands have no effect. */
  function Do(d: Driver, cmd: Command): (d': Driver)
    requires d.Valid()
    ensures d'.Valid()
  {
    match cmd
    case MakeCurrent(ctx) => if ctx < CONTEXTS then d.(current := ctx) else d
    case CreateContext(ctx, group) =>
      if 0 < ctx < CONTEXTS then d.(contexts := d.contexts[ctx := Context(group, 0, 0, map[])]) else d
    case _ => if d.current == 0 then d else DoHere(d, cmd)
  }

  function DoHere(d: Driver, cmd: Command): (d': Driver)
    requires d.Valid()
    ensures d'.Valid() && d'.current == d.current
  {
    var x := Here(d);
    match cmd
    case CreateTexture(name) =>
      if TextureKnown(d, x.group, name) then d
      else d.(names := d.names[(x.group, name) := d.nextObj], nextObj := d.nextObj + 1)
    case Bind(target, fb) => SetHere(d, BindFb(x, target, fb))
    case AttachTexture(target, attachment, textarget, texture, level) =>
      if TextureKnown(d, x.group, texture) then
        SetHere(d, AttachImage(x, target, attachment, ImageOf(d, x.group, textarget, texture, level)))
      else d
    case AttachRenderbuffer(target, attachment, obj) => SetHere(d, AttachImage(x, target, attachment, RbImage(obj)))
    case DeleteTextures(tex) => DeleteTextureList(d, tex)
    case DeleteFramebuffers(fbs) => SetHere(d, DeleteFbList(x, fbs))
    case DeleteRenderbuffer(obj) => SetHere(d, Detach(x, (i: Image) => i == RbImage(obj)))
    case _ => d
  }

  function DoAll(d: Driver, cmds: seq<Command>): (d': Driver)
    requires d.Valid()
    ensures d'.Valid()
    decreases |cmds|
  {
    if cmds == [] then d else DoAll(Do(d, cmds[0]), cmds[1..])
  }
}
