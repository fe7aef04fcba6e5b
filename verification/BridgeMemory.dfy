/** The shared mapping of include/gles_bridge_protocol.h (BridgeRing, the payload arena, the two eventfds)
    as one object that both sides update in place. Its ghost field is the state of the transition system
    that the program has reached: every load and store of the code below is one of its steps. */
module BridgeMemory {
  import opened BridgeModel
  import opened BridgeRing
  import opened BridgeArena
  import opened BridgeTheorems
  import opened RingConfig
  import opened Options

  class Shared {
    const c: Config
    const mask: nat
    const slots: array<Slot>
    const arena: array<byte>
    var publishedSeq: nat
    var completedSeq: nat
    var dataTail: nat
    var consumerWaiting: bool
    var resultBuf: seq<byte>
    var reqEfd: nat
    var respEfd: nat
    ghost var at: State

    ghost function Memory(): Ring
      reads this, slots, arena
    {
      Ring(publishedSeq, completedSeq, dataTail, consumerWaiting, slots[..], arena[..], resultBuf, reqEfd, respEfd)
    }

    /** The memory is that of a state on some run. */
    ghost predicate Valid()
      reads this, slots, arena
    {
      Reachable(c, at) && Memory() == at.ring && mask == c.slots - 1
    }

    /** slots[seq & mask] */
    function SlotIndex(sn: nat): (i: nat)
      reads this, slots, arena
      requires Valid()
      ensures i < slots.Length && i == Index(c, sn)
    {
      SlotOfIsMod(sn, c.slots);
      SlotOf(sn, c.slots)
    }

    /** Shared memory with its counters at zero; slots and arena hold anything. */
    constructor (c: Config, slots: array<Slot>, arena: array<byte>, ghost threads: set<nat>, buf: seq<byte>)
      requires c.Valid() && slots.Length == c.slots && arena.Length == c.arena
      ensures Valid() && Init(this.c, at)
      ensures this.c == c && this.slots == slots && this.arena == arena && at.tls.Keys == threads
    {
      this.c, this.slots, this.arena, mask := c, slots, arena, c.slots - 1;
      publishedSeq, completedSeq, dataTail, consumerWaiting := 0, 0, 0, false;
      resultBuf, reqEfd, respEfd := buf, 0, 0;
      ghost var none: seq<Option<Surfaces>> := [None, None, None, None, None, None, None, None, None];
      ghost var ring := Ring(0, 0, 0, false, slots[..], arena[..], buf, 0, 0);
      ghost var s := State(ring,
        Stub(Unlocked, 0, Swap, SendVoid, 0, 0, 0, 0, None, None, 0, 0, 0, 0, 0, 0, [], 0, None),
        Proxy(Poll, 0), Egl(0, None, none), map t | t in threads :: Tls(0, None),
        History([], map[], [], [], map[], [], []));
      at := s;
      InitReachable(c, s);
    }

    /** The code takes a step of the transition system. */
    ghost method Fill(st: FillStep)
      requires Reachable(c, at) && CanFill(c, at, st)
      modifies this`at
      ensures at == DoFillStep(c, old(at), st) && Reachable(c, at)
    {
      ReachableStep(c, at, Step.Fill(st));
      at := DoFillStep(c, at, st);
    }

    ghost method Ask(st: AskStep)
      requires Reachable(c, at) && CanAsk(at, st)
      modifies this`at
      ensures at == DoAskStep(c, old(at), st) && Reachable(c, at)
    {
      ReachableStep(c, at, Step.Ask(st));
      at := DoAskStep(c, at, st);
    }

    ghost method Idle(st: IdleStep)
      requires Reachable(c, at) && CanIdle(at, st)
      modifies this`at
      ensures at == DoIdleStep(old(at), st) && Reachable(c, at)
    {
      ReachableStep(c, at, Step.Idle(st));
      at := DoIdleStep(at, st);
    }

    ghost method Serve(st: ServeStep)
      requires Reachable(c, at) && CanServe(c, at, st)
      modifies this`at
      ensures at == DoServeStep(c, old(at), st) && Reachable(c, at)
    {
      ReachableStep(c, at, Step.Serve(st));
      at := DoServeStep(c, at, st);
    }
  }
}
