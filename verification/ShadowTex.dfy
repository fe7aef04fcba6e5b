/** include/gles_util_stub.h and stub/gles2_stub.c: the shadow of each context's texture bindings, used to
    drop redundant glActiveTexture and glBindTexture calls. */
module ShadowTex {
  import opened Options

  const MAX_CONTEXTS: nat := 8
  const MAX_TEXTURE_UNITS: nat := 32
  const SHADOW_TEX_INVALID: nat := 0xFFFF_FFFF
  const GL_TEXTURE0: nat := 0x84C0
  const GL_TEXTURE_2D: nat := 0x0DE1
  const GL_TEXTURE_3D: nat := 0x806F
  const GL_TEXTURE_CUBE_MAP: nat := 0x8513
  const GL_TEXTURE_2D_ARRAY: nat := 0x8C1A

  const SLOTS: nat := 4 * MAX_TEXTURE_UNITS

  /** The texture part of StubShadowState: bound holds the four arrays of texture names in a row. */
  datatype Shadow = Shadow(initialised: bool, active: nat, bound: seq<nat>)

  /** All zero, as after memset */
  function Zero(): Shadow {
    Shadow(false, 0, seq(SLOTS, _ => 0))
  }

  /** shadow_state_init */
  function Initial(): Shadow {
    Shadow(true, GL_TEXTURE0, seq(SLOTS, _ => 0))
  }

  /** Which of the four arrays a target uses */
  function Kind(target: nat): Option<nat> {
    if target == GL_TEXTURE_2D then Some(0)
    else if target == GL_TEXTURE_2D_ARRAY then Some(1)
    else if target == GL_TEXTURE_CUBE_MAP then Some(2)
    else if target == GL_TEXTURE_3D then Some(3)
    else None
  }

  /** shadow_tex_slot, for unit numbers counted from GL_TEXTURE0 in unsigned arithmetic */
  function TexSlot(target: nat, unit: nat): (i: Option<nat>)
    ensures i.Some? ==> i.value < SLOTS
  {
    if unit < GL_TEXTURE0 || unit - GL_TEXTURE0 >= MAX_TEXTURE_UNITS || Kind(target).None? then None
    else Some(Kind(target).value * MAX_TEXTURE_UNITS + unit - GL_TEXTURE0)
  }

  // ---- What the stub's functions do -------------------------------------------------------------

  /** g_shadow_ctx, g_stub_current_ctx, g_stub_new_ctx */
  datatype Stub = Stub(shadows: seq<Shadow>, current: nat, pending: nat) {
    predicate Valid() {
      && |shadows| == MAX_CONTEXTS && current < MAX_CONTEXTS
      && forall c :: 0 <= c < MAX_CONTEXTS ==> |shadows[c].bound| == SLOTS
    }
  }

  /** stub_context_state_reset */
  function Reset(shadows: seq<Shadow>, c: nat): (r: seq<Shadow>)
    ensures |r| == |shadows|
  {
    if c >= MAX_CONTEXTS || c >= |shadows| then shadows else shadows[c := Zero()]
  }

  /** shadow_state_for_current_ctx: pending resets first, then lazy initialisation */
  function Access(s: Stub): (s': Stub)
    requires s.Valid()
    ensures s'.Valid() && s'.current == s.current
  {
    var cleared := if s.pending > 0 then Reset(Reset(s.shadows, s.pending), s.current) else s.shadows;
    s.(pending := 0,
       shadows := if cleared[s.current].initialised then cleared else cleared[s.current := Initial()])
  }

  /** glActiveTexture: whether the call is sent, and the new shadow */
  function ActiveTexture(s: Stub, texture: nat): (bool, Stub)
    requires s.Valid()
  {
    var a := Access(s);
    var x := a.shadows[a.current];
    if x.active == texture then (false, a)
    else (true, a.(shadows := a.shadows[a.current := x.(active := texture)]))
  }

  /** glBindTexture */
  function BindTexture(s: Stub, target: nat, texture: nat): (bool, Stub)
    requires s.Valid()
  {
    var a := Access(s);
    var x := a.shadows[a.current];
    var slot := TexSlot(target, x.active);
    if slot.None? then (true, a)
    else if x.bound[slot.value] == texture then (false, a)
    else (true, a.(shadows := a.shadows[a.current := x.(bound := x.bound[slot.value := texture])]))
  }

  function Marked(bound: seq<nat>, texture: nat): (r: seq<nat>)
    ensures |r| == |bound|
  {
    seq(|bound|, i requires 0 <= i < |bound| => if bound[i] == texture then SHADOW_TEX_INVALID else bound[i])
  }

  /** shadow_invalidate_texture */
  function InvalidateTexture(s: Stub, texture: nat): (s': Stub)
    requires s.Valid()
    ensures s'.Valid() && s'.current == s.current && s'.pending == s.pending
  {
    if texture == 0 then s
    else
      s.(shadows := seq(MAX_CONTEXTS, c requires 0 <= c < MAX_CONTEXTS =>
           s.shadows[c].(bound := Marked(s.shadows[c].bound, texture))))
  }

  function InvalidateAll(s: Stub, tex: seq<nat>): (s': Stub)
    requires s.Valid()
    ensures s'.Valid() && s'.current == s.current && s'.pending == s.pending
    decreases |tex|
  {
    if tex == [] then s else InvalidateAll(InvalidateTexture(s, tex[0]), tex[1..])
  }

  // ---- The shadow as the stub keeps it ------------------------------------------------------------

  class Shadows {
    const initialised: array<bool>
    const active: array<nat>
    const bound: array2<nat>
    var current: nat
    var newCtx: nat

    ghost predicate Valid()
      reads this
    {
      && initialised.Length == MAX_CONTEXTS && active.Length == MAX_CONTEXTS
      && bound.Length0 == MAX_CONTEXTS && bound.Length1 == SLOTS && current < MAX_CONTEXTS
    }

    ghost function Names(c: nat): (s: seq<nat>)
      reads this, bound
      requires Valid() && c < MAX_CONTEXTS
      ensures |s| == SLOTS
    {
      seq(SLOTS, i requires 0 <= i < SLOTS && Valid() reads this, bound => bound[c, i])
    }

    ghost function Of(c: nat): Shadow
      reads this, initialised, active, bound
      requires Valid() && c < MAX_CONTEXTS
    {
      Shadow(initialised[c], active[c], Names(c))
    }

    ghost function View(): (s: Stub)
      reads this, initialised, active, bound
      requires Valid()
      ensures s.Valid()
    {
      Stub(seq(MAX_CONTEXTS, c requires 0 <= c < MAX_CONTEXTS && Valid() reads this, initialised, active, bound => Of(c)),
           current, newCtx)
    }

    constructor ()
      ensures Valid() && fresh(initialised) && fresh(active) && fresh(bound)
      ensures View() == Stub(seq(MAX_CONTEXTS, _ => Zero()), 0, 0)
    {
      initialised, active := new bool[MAX_CONTEXTS](_ => false), new nat[MAX_CONTEXTS](_ => 0);
      bound := new nat[MAX_CONTEXTS, SLOTS]((_, _) => 0);
      current, newCtx := 0, 0;
      new;
      assert forall c :: 0 <= c < MAX_CONTEXTS ==> Names(c) == Zero().bound;
    }

    /** memset of a context's names */
    method ClearNames(c: nat)
      requires Valid() && c < MAX_CONTEXTS
      modifies bound
      ensures Names(c) == Zero().bound
      ensures forall b :: 0 <= b < MAX_CONTEXTS && b != c ==> Names(b) == old(Names(b))
    {
      for i := 0 to SLOTS
        invariant forall j :: 0 <= j < i ==> bound[c, j] == 0
        invariant forall b, j :: 0 <= b < MAX_CONTEXTS && b != c && 0 <= j < SLOTS ==> bound[b, j] == old(bound[b, j])
      {
        bound[c, i] := 0;
      }
    }

    /** stub_context_state_reset */
    method StateReset(c: nat)
      requires Valid()
      modifies initialised, active, bound
      ensures View() == old(View()).(shadows := Reset(old(View()).shadows, c))
    {
      if c >= MAX_CONTEXTS {
        return;
      }
      ClearNames(c);
      initialised[c], active[c] := false, 0;
    }

    /** g_stub_new_ctx = c */
    method SetPending(c: nat)
      requires Valid()
      modifies this`newCtx
      ensures Valid() && View() == old(View()).(pending := c)
    {
      newCtx := c;
      assert forall b :: 0 <= b < MAX_CONTEXTS ==> Of(b) == old(Of(b));
    }

    /** shadow_state_for_current_ctx */
    method StateForCurrent()
      requires Valid()
      modifies this`newCtx, initialised, active, bound
      ensures Valid() && View() == Access(old(View()))
    {
      if newCtx > 0 {
        StateReset(newCtx);
        if newCtx != current {
          StateReset(current);
        }
        SetPending(0);
      }
      assert !initialised[current] <==> !View().shadows[current].initialised;
      if !initialised[current] {
        StateInit();
      }
    }

    /** shadow_state_init */
    method StateInit()
      requires Valid()
      modifies initialised, active, bound
      ensures View() == var s := old(View()); s.(shadows := s.shadows[current := Initial()])
    {
      ClearNames(current);
      initialised[current], active[current] := true, GL_TEXTURE0;
      assert forall c :: 0 <= c < MAX_CONTEXTS && c != current ==> Of(c) == old(Of(c));
    }

    method GlActiveTexture(texture: nat) returns (send: bool)
      requires Valid()
      modifies this`newCtx, initialised, active, bound
      ensures Valid() && send == ActiveTexture(old(View()), texture).0 && View() == ActiveTexture(old(View()), texture).1
    {
      StateForCurrent();
      if active[current] == texture {
        return false;
      }
      active[current] := texture;
      return true;
    }

    method GlBindTexture(target: nat, texture: nat) returns (send: bool)
      requires Valid()
      modifies this`newCtx, initialised, active, bound
      ensures Valid()
      ensures send == BindTexture(old(View()), target, texture).0
      ensures View() == BindTexture(old(View()), target, texture).1
    {
      StateForCurrent();
      var slot := TexSlot(target, active[current]);
      if slot.Some? {
        if bound[current, slot.value] == texture {
          return false;
        }
        Put(slot.value, texture);
      }
      return true;
    }

    method Put(i: nat, texture: nat)
      requires Valid() && i < SLOTS
      modifies bound
      ensures Names(current) == old(Names(current))[i := texture]
      ensures forall b :: 0 <= b < MAX_CONTEXTS && b != current ==> Names(b) == old(Names(b))
    {
      bound[current, i] := texture;
    }

    /** shadow_invalidate_texture: every unit of the four targets, in every context */
    method ShadowInvalidateTexture(texture: nat)
      requires Valid()
      modifies bound
      ensures View() == InvalidateTexture(old(View()), texture)
    {
      if texture == 0 {
        return;
      }
      for c := 0 to MAX_CONTEXTS
        invariant forall b :: 0 <= b < c ==> Names(b) == Marked(old(Names(b)), texture)
        invariant forall b :: c <= b < MAX_CONTEXTS ==> Names(b) == old(Names(b))
      {
        InvalidateIn(c, texture);
      }
      assert forall b :: 0 <= b < MAX_CONTEXTS ==> Of(b) == InvalidateTexture(old(View()), texture).shadows[b];
    }

    /** The loop of glDeleteTextures over its names */
    method GlDeleteTextures(tex: seq<nat>)
      requires Valid()
      modifies bound
      ensures View() == InvalidateAll(old(View()), tex)
    {
      var i := 0;
      while i < |tex|
        invariant i <= |tex| && InvalidateAll(old(View()), tex) == InvalidateAll(View(), tex[i..])
      {
        ShadowInvalidateTexture(tex[i]);
        assert tex[i..][0] == tex[i] && tex[i..][1..] == tex[i + 1..];
        i := i + 1;
      }
    }

    method InvalidateIn(c: nat, texture: nat)
      requires Valid() && c < MAX_CONTEXTS
      modifies bound
      ensures Names(c) == Marked(old(Names(c)), texture)
      ensures forall b :: 0 <= b < MAX_CONTEXTS && b != c ==> Names(b) == old(Names(b))
    {
      ghost var want := Marked(Names(c), texture);
      for u := 0 to MAX_TEXTURE_UNITS
        invariant forall i :: 0 <= i < SLOTS ==>
          bound[c, i] == if i % MAX_TEXTURE_UNITS < u then want[i] else old(bound[c, i])
        invariant forall b, j :: 0 <= b < MAX_CONTEXTS && b != c && 0 <= j < SLOTS ==> bound[b, j] == old(bound[b, j])
      {
        InvalidateUnit(c, u, texture);
      }
      assert Names(c) == want;
    }

    method InvalidateUnit(c: nat, u: nat, texture: nat)
      requires Valid() && c < MAX_CONTEXTS && u < MAX_TEXTURE_UNITS
      modifies bound
      ensures forall i :: 0 <= i < SLOTS ==>
        bound[c, i] == if i % MAX_TEXTURE_UNITS == u && old(bound[c, i]) == texture then SHADOW_TEX_INVALID
                       else old(bound[c, i])
      ensures forall b, j :: 0 <= b < MAX_CONTEXTS && b != c && 0 <= j < SLOTS ==> bound[b, j] == old(bound[b, j])
    {
      if bound[c, u] == texture {
        bound[c, u] := SHADOW_TEX_INVALID;
      }
      if bound[c, MAX_TEXTURE_UNITS + u] == texture {
        bound[c, MAX_TEXTURE_UNITS + u] := SHADOW_TEX_INVALID;
      }
      if bound[c, 2 * MAX_TEXTURE_UNITS + u] == texture {
        bound[c, 2 * MAX_TEXTURE_UNITS + u] := SHADOW_TEX_INVALID;
      }
      if bound[c, 3 * MAX_TEXTURE_UNITS + u] == texture {
        bound[c, 3 * MAX_TEXTURE_UNITS + u] := SHADOW_TEX_INVALID;
      }
    }
  }
}
