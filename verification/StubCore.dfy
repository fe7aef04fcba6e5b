/** stub/bridge_core.c: reserving a slot, writing payloads, publishing and waiting, as the code does it in
    place. Others run between any two accesses to the shared memory. Every access is one step of the
    transition system, so what holds on all its runs holds of this code. */
module StubCore {
  import opened RingConfig
  import opened BridgeModel
  import opened BridgeRing
  import opened BridgeArena
  import opened BridgeWake
  import opened BridgeCalls
  import opened BridgeTheorems
  import opened BridgeMemory
  import opened BridgeReports
  import opened Options

  /** The proxy, its handlers, and other threads that do not hold g_lock */
  predicate ByOthers(st: Step) {
    st.Idle? || st.Serve? || (st.Fill? && st.f.DoRedundant?)
  }

  /** What the thread that holds g_lock may rely on while others run. */
  predicate OthersOnly(s: State, s': State) {
    && s'.stub == s.stub
    && s'.ring.published == s.ring.published
    && s.ring.completed <= s'.ring.completed && s.ring.tail <= s'.ring.tail
    && s'.hist.log == s.hist.log && s'.hist.answers == s.hist.answers
    && s'.hist.swapReturns == s.hist.swapReturns
    && (s.stub.tid in s.tls ==> s.stub.tid in s'.tls && s'.tls[s.stub.tid] == s.tls[s.stub.tid])
  }

  lemma TailStep(c: Config, s: State)
    requires RingInv(c, s) && ArenaInv(c, s) && s.proxy.pc.StoreTail?
    ensures OthersOnly(s, DoServeStep(c, s, DoStoreTail))
  {
    assert WindowOk(s.hist.log, s.ring.completed);
    assert Core(s.ring.slots[Index(c, s.ring.completed)]) == s.hist.log[s.ring.completed].core;
  }

  lemma ServeStepKeeps(c: Config, s: State, st: ServeStep)
    requires Shaped(c, s) && CanServe(c, s, st) && !st.DoStoreTail?
    ensures OthersOnly(s, DoServeStep(c, s, st))
  {
  }

  lemma IdleStepKeeps(s: State, st: IdleStep)
    requires CanIdle(s, st)
    ensures OthersOnly(s, DoIdleStep(s, st))
  {
  }

  /** The lock holder and its thread-local state are the same. */
  predicate SameThread(s: State, s': State) {
    && s'.stub.tid == s.stub.tid
    && (s.stub.tid in s.tls ==> s.stub.tid in s'.tls && s'.tls[s.stub.tid] == s.tls[s.stub.tid])
  }

  /** Every step of another party respects it. */
  lemma OthersStep(c: Config, s: State, st: Step)
    requires Inv(c, s) && Enabled(c, s, st) && ByOthers(st) && s.stub.pc != Unlocked
    ensures OthersOnly(s, Apply(c, s, st))
  {
    if st.Serve? {
      if st.v.DoStoreTail? {
        TailStep(c, s);
      } else {
        ServeStepKeeps(c, s, st.v);
      }
    } else if st.Idle? {
      IdleStepKeeps(s, st.i);
    }
  }

  /** So does every run of other parties: this is all that OthersRun promises its callers. */
  lemma {:induction false} OthersRuns(c: Config, s: State, steps: seq<Step>)
    requires Reachable(c, s) && IsRun(c, s, steps) && s.stub.pc != Unlocked
    requires forall i :: 0 <= i < |steps| ==> ByOthers(steps[i])
    ensures Reachable(c, After(c, s, steps)) && OthersOnly(s, After(c, s, steps))
    decreases |steps|
  {
    if steps != [] {
      ReachableInv(c, s);
      OthersStep(c, s, steps[0]);
      ReachableStep(c, s, steps[0]);
      OthersRuns(c, Apply(c, s, steps[0]), steps[1..]);
    }
  }

  /** The payloads of the slot being filled stand in the arena where its references say. */
  lemma PayloadsStand(c: Config, s: State, k: nat)
    requires Inv(c, s) && s.stub.pc == Encode && k < |s.stub.payloads|
    ensures |StubSlot(c, s).refs| == |s.stub.payloads|
    ensures var pl, ref := s.stub.payloads[k], StubSlot(c, s).refs[k];
      && |pl.bytes| <= ref.size && ref.offset % 4 == 0 && ref.offset + ref.size <= c.arena
      && s.ring.arena[ref.offset..ref.offset + |pl.bytes|] == pl.bytes
  {
    var pl, ref := s.stub.payloads[k], StubSlot(c, s).refs[k];
    assert PayloadOk(c, pl, ref, s.stub.begin, s.stub.head, s.hist.mem);
    LiveBeforeSlot(c, s);
    LiveStands(c, s, pl, ref, s.stub.begin, s.stub.head);
  }

  /** Everything from the current slot on is live. */
  lemma LiveBeforeSlot(c: Config, s: State)
    requires RingInv(c, s) && Layout(c, s) && s.stub.pc == Encode
    ensures LiveFrom(s) <= s.stub.begin
  {
    EndMono(s.hist.log, s.ring.completed, |s.hist.log|);
    if Started(s.proxy.pc) {
      EndMono(s.hist.log, s.ring.completed + 1, |s.hist.log|);
    }
  }

  /** A live payload stands in the arena. */
  lemma LiveStands(c: Config, s: State, pl: Payload, ref: Ref, lo: nat, hi: nat)
    requires RingInv(c, s) && LiveBytes(c, s) && LiveFrom(s) <= lo
    requires PayloadOk(c, pl, ref, lo, hi, s.hist.mem)
    ensures s.ring.arena[ref.offset..ref.offset + |pl.bytes|] == pl.bytes
  {
    forall j | 0 <= j < |pl.bytes| ensures s.ring.arena[ref.offset + j] == pl.bytes[j] {
      OffsetMod(pl.start, j, c.arena);
      assert Byte(s.hist.mem, pl.start + j) == Some(pl.bytes[j]);
      assert LiveByte(c, s, LiveFrom(s), pl.start + j);
    }
  }

  lemma CopyRoom(c: Config, s: State)
    requires Reachable(c, s) && s.stub.pc.Copy?
    ensures s.stub.offset + (if s.stub.src.Some? then |s.stub.src.value| else 0) <= c.arena
  {
    ReachableInv(c, s);
  }

  /** The entry of the command that was just published. */
  lemma JustPublished(c: Config, s: State)
    requires Reachable(c, s) && s.stub.pc.Publish?
    ensures var e := Entry(Core(StubSlot(c, s)), s.stub.tid, s.stub.op, s.stub.mode, s.stub.issuer, s.stub.meant,
                           s.stub.begin, s.stub.head, s.stub.payloads);
      e.core.op == e.op && e.core.ctx == e.issuer && e.core.needs == NeedsOf(c, e.mode)
  {
    ReachableInv(c, s);
  }

  lemma OwnAnswer(c: Config, s: State, sn: nat)
    requires Reachable(c, s) && sn in s.hist.answers
    ensures sn < |s.hist.done| && s.hist.answers[sn] == s.hist.done[sn]
  {
    BlockingCallGetsOwnAnswer(c, s);
  }

  /** What bridge_begin has stored */
  lemma HeaderStands(c: Config, s: State)
    requires Reachable(c, s) && s.stub.pc == Filling(4)
    ensures var slot := StubSlot(c, s);
      slot.ctx == s.stub.issuer && slot.wm == s.stub.head && !slot.wmValid && slot.resLen == 0
  {
    ReachableInv(c, s);
    ReachableReports(c, s);
  }

  /** While a result is taken the slot still holds it. */
  lemma TakenResult(c: Config, s: State)
    requires Reachable(c, s) && s.stub.pc.Take?
    ensures s.stub.sn < |s.hist.done| && StubSlot(c, s).result == s.hist.done[s.stub.sn].result
  {
    ReachableInv(c, s);
    QuietWhileTaking(c, s);
  }

  /** Before an asynchronous swap returns, all swaps before it are completed. */
  lemma EarlierSwapsDone(c: Config, s: State)
    requires Reachable(c, s) && s.stub.pc.Return? && s.stub.mode == SendSwap && c.asyncSwap
    ensures forall q :: 0 <= q < s.stub.sn && q < |s.hist.log| && IsSwap(s, q) ==> q < s.ring.completed
  {
    ReachableInv(c, s);
  }

  lemma LastStands(c: Config, s: State, refs: seq<Ref>, ref: Ref)
    requires Reachable(c, s) && s.stub.pc == Encode && s.stub.payloads != []
    requires StubSlot(c, s).refs == refs + [ref]
    ensures var pl := s.stub.payloads[|s.stub.payloads| - 1];
      && |pl.bytes| <= ref.size && ref.offset % 4 == 0 && ref.offset + ref.size <= c.arena
      && s.ring.arena[ref.offset..ref.offset + |pl.bytes|] == pl.bytes
  {
    ReachableInv(c, s);
    PayloadsStand(c, s, |s.stub.payloads| - 1);
  }

  lemma RefStep(c: Config, s: State)
    requires Shaped(c, s) && s.stub.pc == Record(2) && Round4(s.stub.size) <= s.stub.head
    ensures var p, slot, s' := s.stub, StubSlot(c, s), DoFillStep(c, s, DoRecord);
      && s'.ring == SetStubSlot(c, s, slot.(refs := slot.refs + [Ref(p.offset, p.size)]))
      && s'.stub == p.(pc := Encode, payloads := p.payloads
                       + [Payload(p.head - Round4(p.size), if p.src.Some? then p.src.value else [])])
      && s'.tls == s.tls && s'.hist == s.hist
      && Shaped(c, s') && StubSlot(c, s').refs == slot.refs + [Ref(p.offset, p.size)]
  {
  }

  /** Overflow: the process aborts. Stalled: no room in the given number of rounds. */
  datatype Placed = Overflow | Stalled | At(offset: nat)

  class Stub {
    const ring: Shared
    var localSeq: nat
    var curSeq: nat
    var dataHead: nat
    var pendingSwap: Option<nat>

    ghost predicate Valid()
      reads this, ring, ring.slots, ring.arena
    {
      && ring.Valid()
      && localSeq == ring.at.stub.localSeq && dataHead == ring.at.stub.head
      && (Unpublished(ring.at.stub.pc) || Published(ring.at.stub.pc) ==> curSeq == ring.at.stub.sn)
      && pendingSwap == ring.at.stub.pending
    }

    constructor (ring: Shared)
      requires ring.Valid() && Init(ring.c, ring.at)
      ensures Valid() && this.ring == ring
    {
      this.ring := ring;
      localSeq, curSeq, dataHead, pendingSwap := 0, 0, 0, None;
    }

    /** Others take any number of steps. Callers know this contract only; the empty run meets it. */
    method OthersRun()
      requires Valid() && ring.at.stub.pc != Unlocked
      modifies ring, ring.slots, ring.arena
      ensures Valid() && OthersOnly(old(ring.at), ring.at)
    {
    }

    /** *g_cur_slot */
    function Slot(): (s: BridgeModel.Slot)
      reads this, ring, ring.slots, ring.arena
      requires Valid() && (Unpublished(ring.at.stub.pc) || Published(ring.at.stub.pc))
      ensures s == StubSlot(ring.c, ring.at)
    {
      ring.slots[ring.SlotIndex(curSeq)]
    }

    /** A store into the current slot is the step st. */
    method Store(slot: BridgeModel.Slot, ghost st: FillStep)
      requires Valid() && Unpublished(ring.at.stub.pc) && CanFill(ring.c, ring.at, st)
      requires var s' := DoFillStep(ring.c, ring.at, st);
        && s'.ring == SetStubSlot(ring.c, ring.at, slot) && Unpublished(s'.stub.pc)
        && s'.stub.localSeq == localSeq && s'.stub.head == dataHead && s'.stub.sn == curSeq
        && s'.stub.pending == pendingSwap
      modifies ring`at, ring.slots
      ensures Valid() && ring.at == DoFillStep(ring.c, old(ring.at), st)
    {
      ring.slots[ring.SlotIndex(curSeq)] := slot;
      ring.Fill(st);
    }

    /** ring_reserve_slot: a free slot is found in the first round if there is one. */
    method RingReserveSlot(rounds: nat) returns (ok: bool)
      requires Valid() && ring.at.stub.pc == Reserve
      modifies this, ring, ring.slots, ring.arena
      ensures Valid() && ring.at.hist.log == old(ring.at.hist.log)
      ensures rounds > 0 && old(localSeq) - old(ring.completedSeq) < ring.c.slots ==> ok
      ensures ok ==> curSeq == old(localSeq) && curSeq - ring.completedSeq < ring.c.slots
      ensures ring.at.stub == if !ok then old(ring.at.stub)
                              else old(ring.at.stub).(pc := Filling(0), sn := old(localSeq),
                                                      localSeq := old(localSeq) + 1, begin := old(dataHead),
                                                      payloads := [], meant := None)
      ensures SameThread(old(ring.at), ring.at)
    {
      ok := false;
      var n := 0;
      while n < rounds
        invariant Valid() && OthersOnly(old(ring.at), ring.at) && n <= rounds
        invariant n > 0 ==> old(localSeq) - old(ring.completedSeq) >= ring.c.slots
      {
        ok := TryReserve();
        if ok {
          return;
        }
        n := n + 1;
      }
    }

    /** One load of completed_seq */
    method TryReserve() returns (ok: bool)
      requires Valid() && ring.at.stub.pc == Reserve
      modifies this, ring, ring.slots, ring.arena
      ensures Valid() && OthersOnly(old(ring.at), ring.at.(stub := old(ring.at.stub)))
      ensures ok <==> old(localSeq) - ring.completedSeq < ring.c.slots
      ensures ok ==> curSeq == old(localSeq)
      ensures ring.at.stub == if !ok then old(ring.at.stub)
                              else old(ring.at.stub).(pc := Filling(0), sn := old(localSeq),
                                                      localSeq := old(localSeq) + 1, begin := old(dataHead),
                                                      payloads := [], meant := None)
    {
      OthersRun();
      ReachableInv(ring.c, ring.at);
      ring.Fill(DoReserve);
      ok := localSeq - ring.completedSeq < ring.c.slots;
      if ok {
        curSeq := localSeq;
        localSeq := localSeq + 1;
      }
    }

    /** One of the first four stores; what is stored is what the step FillSlot stores. */
    method FillField(slot: BridgeModel.Slot)
      requires Valid() && ring.at.stub.pc.Filling? && ring.at.stub.pc.k < 4
      requires FillSlot(ring.c, ring.at).ring == SetStubSlot(ring.c, ring.at, slot)
      requires ring.at.stub.tid in ring.at.tls
      modifies ring, ring.slots, ring.arena
      ensures Valid() && ring.at.hist.log == old(ring.at.hist.log) && ring.at.stub.tid in ring.at.tls
      ensures var p := old(ring.at.stub);
        ring.at.stub == p.(pc := Filling(p.pc.k + 1), meant := ring.at.stub.meant,
                           issuer := if p.pc.k == 0 then old(ring.at.tls[ring.at.stub.tid].ctx) else p.issuer)
      ensures SameThread(old(ring.at), ring.at)
    {
      Store(slot, DoFill);
      OthersRun();
    }

    /** The stores of bridge_begin into the reserved slot; ctx is the thread's g_stub_current_ctx. */
    method FillHeader(ctx: nat)
      requires Valid() && ring.at.stub.pc == Filling(0)
      requires ring.at.stub.tid in ring.at.tls && ctx == ring.at.tls[ring.at.stub.tid].ctx
      modifies ring, ring.slots, ring.arena
      ensures Valid() && ring.at.stub.pc == Filling(4) && ring.at.hist.log == old(ring.at.hist.log)
      ensures ring.at.stub == old(ring.at.stub).(pc := Filling(4), issuer := ctx, meant := ring.at.stub.meant)
      ensures SameThread(old(ring.at), ring.at)
    {
      OthersRun();
      FillField(Slot().(ctx := ctx));
      FillRest();
    }

    method FillRest()
      requires Valid() && ring.at.stub.pc == Filling(1) && ring.at.stub.tid in ring.at.tls
      modifies ring, ring.slots, ring.arena
      ensures Valid() && ring.at.hist.log == old(ring.at.hist.log)
      ensures ring.at.stub == old(ring.at.stub).(pc := Filling(4), meant := ring.at.stub.meant)
      ensures SameThread(old(ring.at), ring.at)
    {
      FillField(Slot().(wm := dataHead));
      FillField(Slot().(wmValid := false));
      FillField(Slot().(resLen := 0));
    }

    /** bridge_begin */
    method BridgeBegin(tid: nat, ctx: nat, ghost op: Op, ghost mode: Mode, rounds: nat) returns (ok: bool)
      requires Valid() && ring.at.stub.pc == Unlocked && ClientMay(ring.at, tid, op, mode)
      requires ctx == ring.at.tls[tid].ctx
      modifies this, ring, ring.slots, ring.arena
      ensures Valid() && ring.at.hist.log == old(ring.at.hist.log)
      ensures rounds > 0 && old(localSeq) - old(ring.completedSeq) < ring.c.slots ==> ok
      ensures ok ==>
        && ring.at.stub.pc == Filling(4) && ring.at.stub.payloads == [] && curSeq == old(localSeq)
        && ring.at.stub.tid == tid && ring.at.stub.op == op && ring.at.stub.mode == mode && ring.at.stub.issuer == ctx
      ensures ok ==> tid in ring.at.tls && ring.at.tls[tid] == old(ring.at.tls[tid])
      ensures ok ==> Slot().ctx == ctx && Slot().wm == dataHead && !Slot().wmValid && Slot().resLen == 0
    {
      ring.Fill(DoLock(tid, op, mode));
      ok := RingReserveSlot(rounds);
      if ok {
        FillHeader(ctx);
        HeaderStands(ring.c, ring.at);
      }
    }

    /** The caller encodes its opcode and arguments. */
    method Setup(op: Op)
      requires Valid() && ring.at.stub.pc == Filling(4) && op == ring.at.stub.op
      modifies ring, ring.slots, ring.arena
      ensures Valid() && ring.at.hist.log == old(ring.at.hist.log)
      ensures ring.at.stub == old(ring.at.stub).(pc := Encode)
      ensures Slot().op == op && Slot().ctx == ring.at.stub.issuer
      ensures old(ring.at.stub.tid) in old(ring.at.tls) ==>
        && ring.at.stub.tid in ring.at.tls
        && ring.at.tls[ring.at.stub.tid] ==
             var t := old(ring.at.tls[ring.at.stub.tid]); if op.MakeCurrent? then t.(ctx := op.ctx) else t
    {
      OthersRun();
      Store(Slot().(op := op, refs := []), DoFill);
      ReachableInv(ring.c, ring.at);
    }

    // Payloads --------------------------------------------------------------------------------

    /** Where the rounded size goes: at the head, or at offset 0 if it does not fit before the wrap point */
    method WrapAround(size: nat) returns (offset: nat, newHead: nat)
      requires Valid()
      ensures (offset, newHead) == Place(dataHead, Round4(size), ring.c.arena)
    {
      var rounded := (size + 3) / 4 * 4;
      var pos := dataHead % ring.c.arena;
      var spaceToEnd := ring.c.arena - pos;
      if rounded <= spaceToEnd {
        offset, newHead := pos, dataHead + rounded;
      } else {
        offset, newHead := 0, dataHead + spaceToEnd + rounded;
      }
    }

    /** ring_data_alloc: the wrapped position of the rounded size; a range that fits in front of the tail is
        found in the first round. */
    method RingDataAlloc(size: nat, rounds: nat) returns (ok: bool, offset: nat)
      requires Valid() && ring.at.stub.pc.Alloc? && ring.at.stub.size == size && size <= ring.c.arena
      modifies this, ring, ring.slots, ring.arena
      ensures Valid() && ring.at.hist.log == old(ring.at.hist.log)
      ensures var (o, h) := Place(old(dataHead), Round4(size), ring.c.arena);
        && (rounds > 0 && h - old(ring.dataTail) <= ring.c.arena ==> ok)
        && (ok ==> offset == o && dataHead == h)
        && ring.at.stub == if !ok then old(ring.at.stub)
                           else old(ring.at.stub).(pc := Copy, head := h, offset := o, copied := 0)
      ensures SameThread(old(ring.at), ring.at)
    {
      ok, offset := false, 0;
      var n := 0;
      while n < rounds
        invariant Valid() && OthersOnly(old(ring.at), ring.at) && n <= rounds
        invariant n > 0 ==>
          Place(dataHead, Round4(size), ring.c.arena).1 - old(ring.dataTail) > ring.c.arena
      {
        OthersRun();
        var newHead;
        offset, newHead := WrapAround(size);
        ring.Fill(DoAlloc);
        if newHead - ring.dataTail <= ring.c.arena {
          dataHead := newHead;
          return true, offset;
        }
        n := n + 1;
      }
    }

    /** memcpy into the arena */
    method CopyIn(src: Option<seq<byte>>, offset: nat)
      requires Valid() && ring.at.stub.pc.Copy? && ring.at.stub.src == src && ring.at.stub.offset == offset
      requires ring.at.stub.copied == 0
      modifies ring, ring.slots, ring.arena
      ensures Valid() && ring.at.hist.log == old(ring.at.hist.log)
      ensures ring.at.stub == old(ring.at.stub).(pc := Record(0), copied := ring.at.stub.copied)
      ensures SameThread(old(ring.at), ring.at)
    {
      var n := if src.Some? then |src.value| else 0;
      var i := 0;
      OthersRun();
      CopyRoom(ring.c, ring.at);
      while i < n
        invariant Valid() && ring.at.hist.log == old(ring.at.hist.log) && i <= n
        invariant ring.at.stub == old(ring.at.stub).(copied := i) && SameThread(old(ring.at), ring.at)
        invariant offset + n <= ring.c.arena
      {
        CopyByte(offset + i, src.value[i]);
        i := i + 1;
      }
      ring.Fill(DoCopy);
    }

    method CopyByte(i: nat, b: byte)
      requires Valid() && ring.at.stub.pc.Copy? && ring.at.stub.src.Some? && i < ring.c.arena
      requires var p := ring.at.stub; p.copied < |p.src.value| && i == p.offset + p.copied && b == p.src.value[p.copied]
      modifies ring, ring.slots, ring.arena
      ensures Valid() && ring.at.hist.log == old(ring.at.hist.log) && SameThread(old(ring.at), ring.at)
      ensures ring.at.stub == old(ring.at.stub).(copied := old(ring.at.stub.copied) + 1)
    {
      ring.arena[i] := b;
      ring.Fill(DoCopy);
      OthersRun();
    }

    /** data_watermark and data_watermark_valid */
    method StoreWatermark()
      requires Valid() && ring.at.stub.pc == Record(0)
      modifies ring, ring.slots, ring.arena
      ensures Valid() && ring.at.hist.log == old(ring.at.hist.log)
      ensures ring.at.stub == old(ring.at.stub).(pc := Record(2))
      ensures SameThread(old(ring.at), ring.at)
    {
      OthersRun();
      Store(Slot().(wm := dataHead), DoRecord);
      OthersRun();
      Store(Slot().(wmValid := true), DoRecord);
    }

    /** The caller encodes the reference to its payload, which stands in the arena. */
    method AddRef(offset: nat, size: nat)
      requires Valid() && ring.at.stub.pc == Record(2)
      requires ring.at.stub.offset == offset && ring.at.stub.size == size && Round4(size) <= dataHead
      modifies ring, ring.slots, ring.arena
      ensures Valid() && ring.at.hist.log == old(ring.at.hist.log)
      ensures var p := old(ring.at.stub);
        var bytes := if p.src.Some? then p.src.value else [];
        && ring.at.stub == p.(pc := Encode, payloads := p.payloads + [Payload(dataHead - Round4(size), bytes)])
        && offset % 4 == 0 && offset + size <= ring.c.arena && |bytes| <= size
        && ring.arena[offset..offset + |bytes|] == bytes
      ensures SameThread(old(ring.at), ring.at)
    {
      ghost var refs := StoreRef(offset, size);
      LastStands(ring.c, ring.at, refs, Ref(offset, size));
    }

    method StoreRef(offset: nat, size: nat) returns (ghost refs: seq<Ref>)
      requires Valid() && ring.at.stub.pc == Record(2)
      requires ring.at.stub.offset == offset && ring.at.stub.size == size && Round4(size) <= dataHead
      modifies ring, ring.slots, ring.arena
      ensures Valid() && ring.at.hist.log == old(ring.at.hist.log)
      ensures var p := old(ring.at.stub);
        var bytes := if p.src.Some? then p.src.value else [];
        ring.at.stub == p.(pc := Encode, payloads := p.payloads + [Payload(dataHead - Round4(size), bytes)])
      ensures StubSlot(ring.c, ring.at).refs == refs + [Ref(offset, size)]
      ensures SameThread(old(ring.at), ring.at)
    {
      OthersRun();
      refs := Slot().refs;
      RefStep(ring.c, ring.at);
      Store(Slot().(refs := Slot().refs + [Ref(offset, size)]), DoRecord);
    }

    /** bridge_data_write */
    method BridgeDataWrite(src: Option<seq<byte>>, size: nat, rounds: nat) returns (r: Placed)
      requires Valid() && ring.at.stub.pc == Encode && (src.Some? ==> |src.value| == size)
      modifies this, ring, ring.slots, ring.arena
      ensures Valid() && ring.at.hist.log == old(ring.at.hist.log)
      ensures r == Overflow <==> size > ring.c.arena
      ensures var (o, h) := Place(old(dataHead), Round4(size), ring.c.arena);
        && (r != Overflow && rounds > 0 && h - old(ring.dataTail) <= ring.c.arena ==> r == At(o))
        && (r.At? ==> r.offset == o && dataHead == h && r.offset % 4 == 0 && r.offset + size <= ring.c.arena)
      ensures r.At? ==> var bytes := if src.Some? then src.value else [];
        && ring.at.stub.pc == Encode && ring.arena[r.offset..r.offset + |bytes|] == bytes
        && ring.at.stub.payloads == old(ring.at.stub.payloads) + [Payload(dataHead - Round4(size), bytes)]
        && ring.at.stub.op == old(ring.at.stub.op) && ring.at.stub.mode == old(ring.at.stub.mode)
        && ring.at.stub.tid == old(ring.at.stub.tid) && ring.at.stub.issuer == old(ring.at.stub.issuer)
      ensures r.At? ==> SameThread(old(ring.at), ring.at)
    {
      if size > ring.c.arena {
        return Overflow;
      }
      var ok, offset := AllocFor(src, size, rounds);
      if !ok {
        return Stalled;
      }
      WriteData(src, offset, size);
      return At(offset);
    }

    /** The wish for a payload, and its place */
    method AllocFor(src: Option<seq<byte>>, size: nat, rounds: nat) returns (ok: bool, offset: nat)
      requires Valid() && ring.at.stub.pc == Encode && (src.Some? ==> |src.value| == size) && size <= ring.c.arena
      modifies this, ring, ring.slots, ring.arena
      ensures Valid() && ring.at.hist.log == old(ring.at.hist.log) && SameThread(old(ring.at), ring.at)
      ensures rounds > 0 && Place(old(dataHead), Round4(size), ring.c.arena).1 - old(ring.dataTail) <= ring.c.arena ==>
        ok
      ensures ok ==> (offset, dataHead) == Place(old(dataHead), Round4(size), ring.c.arena) && Round4(size) <= dataHead
      ensures ok ==> ring.at.stub == old(ring.at.stub).(pc := Copy, src := src, size := size, head := dataHead,
                                                       offset := offset, copied := 0)
    {
      ring.Fill(DoData(src, size));
      ok, offset := RingDataAlloc(size, rounds);
    }

    /** The copy, the watermark and the reference */
    method WriteData(src: Option<seq<byte>>, offset: nat, size: nat)
      requires Valid() && ring.at.stub.pc.Copy? && ring.at.stub.copied == 0
      requires ring.at.stub.src == src && ring.at.stub.offset == offset && ring.at.stub.size == size
      requires Round4(size) <= dataHead
      modifies ring, ring.slots, ring.arena
      ensures Valid() && ring.at.hist.log == old(ring.at.hist.log) && SameThread(old(ring.at), ring.at)
      ensures offset % 4 == 0 && offset + size <= ring.c.arena
      ensures var p, q := old(ring.at.stub), ring.at.stub;
        var bytes := if src.Some? then src.value else [];
        && |bytes| <= size && q.pc == Encode && ring.arena[offset..offset + |bytes|] == bytes
        && q.payloads == p.payloads + [Payload(dataHead - Round4(size), bytes)]
        && q.op == p.op && q.mode == p.mode && q.tid == p.tid && q.issuer == p.issuer
    {
      CopyIn(src, offset);
      StoreWatermark();
      AddRef(offset, size);
    }

    // Publishing ------------------------------------------------------------------------------

    /** needs_response */
    method StoreNeeds(needs: nat)
      requires Valid() && ring.at.stub.pc == Encode && needs == NeedsOf(ring.c, ring.at.stub.mode)
      modifies ring, ring.slots, ring.arena
      ensures Valid() && ring.at.stub == old(ring.at.stub).(pc := Publish)
      ensures ring.at.hist.log == old(ring.at.hist.log) && SameThread(old(ring.at), ring.at)
    {
      OthersRun();
      Store(Slot().(needs := needs), DoSend);
      OthersRun();
    }

    /** publish_cur: the command becomes the last of the published ones; a waiting proxy is woken. */
    method PublishCur(needs: nat)
      requires Valid() && ring.at.stub.pc == Encode && needs == NeedsOf(ring.c, ring.at.stub.mode)
      modifies ring, ring.slots, ring.arena
      ensures Valid() && ring.publishedSeq == curSeq + 1
      ensures ring.at.stub == AfterPublish(ring.c, old(ring.at)).stub
      ensures var p, log := old(ring.at.stub), old(ring.at.hist.log);
        && |ring.at.hist.log| == |log| + 1 && ring.at.hist.log[..|log|] == log
        && var e := ring.at.hist.log[|log|];
        && e.op == p.op == e.core.op && e.mode == p.mode && e.tid == p.tid && e.payloads == p.payloads
        && e.issuer == p.issuer == e.core.ctx && e.meant == p.meant && e.core.needs == needs
      ensures SameThread(old(ring.at), ring.at)
    {
      StoreNeeds(needs);
      JustPublished(ring.c, ring.at);
      ring.publishedSeq := curSeq + 1;
      ring.Ask(DoPublish);
      WakeProxy();
    }

    method WakeProxy()
      requires Valid() && ring.at.stub.pc == LoadWaiting
      modifies ring, ring.slots, ring.arena
      ensures Valid() && ring.publishedSeq == old(ring.publishedSeq)
      ensures ring.at.stub == AfterPublish(ring.c, old(ring.at)).stub && ring.at.hist.log == old(ring.at.hist.log)
      ensures SameThread(old(ring.at), ring.at)
    {
      OthersRun();
      var waiting := ring.consumerWaiting;
      ring.Ask(DoLoadWaiting);
      if waiting {
        Post();
      }
    }

    /** efd_post(req_efd) */
    method Post()
      requires Valid() && ring.at.stub.pc == PostReq
      modifies ring, ring.slots, ring.arena
      ensures Valid() && OthersOnly(old(ring.at), ring.at.(stub := old(ring.at.stub)))
      ensures ring.at.stub == AfterPublish(ring.c, old(ring.at)).stub
    {
      OthersRun();
      ring.reqEfd := ring.reqEfd + 1;
      ring.Ask(DoPostReq);
    }

    /** One load of completed_seq; sleep says that the spin is over. */
    method TryWait(target: nat, sleep: bool) returns (ok: bool)
      requires Valid() && ring.at.stub.pc == Wait && ring.at.stub.target == target
      modifies ring, ring.slots, ring.arena
      ensures Valid() && OthersOnly(old(ring.at), ring.at.(stub := old(ring.at.stub)))
      ensures (ok <==> ring.completedSeq > target) && (old(ring.completedSeq) > target ==> ok)
      ensures ring.at.stub == old(ring.at.stub).(pc :=
        if !ok then if sleep then Sleep else Wait
        else if ring.at.stub.mode == SendSwap && ring.c.asyncSwap then Return else Take(0))
    {
      OthersRun();
      ring.Ask(DoWait(sleep));
      ok := ring.completedSeq > target;
    }

    /** wait_completed: spin, then sleep on resp_efd; false if it still waits after the given rounds. */
    method WaitCompleted(target: nat, spins: nat, rounds: nat) returns (ok: bool)
      requires Valid() && ring.at.stub.pc == Wait && ring.at.stub.target == target
      modifies ring, ring.slots, ring.arena
      ensures Valid() && ring.at.hist.log == old(ring.at.hist.log) && ring.publishedSeq == old(ring.publishedSeq)
      ensures ok ==> ring.completedSeq > target
      ensures old(ring.completedSeq) > target ==> ok
      ensures ok ==> ring.at.stub == old(ring.at.stub).(pc :=
        if ring.at.stub.mode == SendSwap && ring.c.asyncSwap then Return else Take(0))
      ensures SameThread(old(ring.at), ring.at)
    {
      var n := 0;
      while n <= spins
        invariant Valid() && OthersOnly(old(ring.at), ring.at)
        invariant n > 0 ==> old(ring.completedSeq) <= target
      {
        ok := TryWait(target, false);
        if ok {
          return;
        }
        n := n + 1;
      }
      ok := SleepCompleted(target, rounds);
    }

    /** The loop that sleeps */
    method SleepCompleted(target: nat, rounds: nat) returns (ok: bool)
      requires Valid() && ring.at.stub.pc == Wait && ring.at.stub.target == target
      modifies ring, ring.slots, ring.arena
      ensures Valid() && OthersOnly(old(ring.at), ring.at.(stub := old(ring.at.stub)))
      ensures ok ==> ring.completedSeq > target
      ensures ok ==> ring.at.stub == old(ring.at.stub).(pc :=
        if ring.at.stub.mode == SendSwap && ring.c.asyncSwap then Return else Take(0))
      ensures ring.at.stub.tid == old(ring.at.stub.tid)
    {
      var n := 0;
      while n < rounds
        invariant Valid() && OthersOnly(old(ring.at), ring.at)
      {
        ok := TryWait(target, true);
        if ok {
          return;
        }
        ok := SleepOnce();
        if !ok {
          return;
        }
        n := n + 1;
      }
      return false;
    }

    /** read(resp_efd); false if nothing has been posted yet */
    method SleepOnce() returns (ok: bool)
      requires Valid() && ring.at.stub.pc.Sleep?
      modifies ring, ring.slots, ring.arena
      ensures Valid() && OthersOnly(old(ring.at), ring.at.(stub := old(ring.at.stub)))
      ensures ring.at.stub == if ok then old(ring.at.stub).(pc := Wait) else old(ring.at.stub)
    {
      OthersRun();
      ok := ring.respEfd != 0;
      if ok {
        ring.respEfd := 0;
        ring.Ask(DoReadResp);
      }
    }

    /** bridge_send_void */
    method BridgeSendVoid()
      requires Valid() && ring.at.stub.pc == Encode && ring.at.stub.mode == SendVoid
      modifies ring, ring.slots, ring.arena
      ensures Valid() && ring.at.stub.pc == Unlocked && |ring.at.hist.log| == |old(ring.at.hist.log)| + 1
    {
      PublishCur(0);
      ring.Ask(DoReturn);
    }

    /** bridge_send_call: the caller gets what the handler of its own command left behind. */
    method BridgeSendCall(spins: nat, rounds: nat)
      returns (ok: bool, result: int, resLen: nat, buf: seq<byte>)
      requires Valid() && ring.at.stub.pc == Encode && ring.at.stub.mode == SendCall
      modifies this, ring, ring.slots, ring.arena
      ensures Valid() && |ring.at.hist.log| == |old(ring.at.hist.log)| + 1
      ensures ok ==>
        && ring.at.stub.pc == Unlocked && curSeq < |ring.at.hist.done|
        && Answer(result, resLen, buf) == ring.at.hist.done[curSeq]
      ensures ok ==> curSeq < |ring.at.hist.reports| && Told(ring.at.hist.reports[curSeq], Answer(result, resLen, buf))
      ensures ok ==> ring.at.hist.log[|old(ring.at.hist.log)|].op == old(ring.at.stub.op)
      ensures ok && old(ring.at.stub.tid) in old(ring.at.tls) ==>
        && old(ring.at.stub.tid) in ring.at.tls
        && ring.at.tls[old(ring.at.stub.tid)] ==
             var t, op := old(ring.at.tls[ring.at.stub.tid]), old(ring.at.stub.op);
             if !op.MakeCurrent? then t
             else t.(last := if result != 0 then Some(Current(op.surfaces, op.ctx)) else None)
    {
      result, resLen, buf := 0, 0, [];
      PublishCur(1);
      ok := WaitCompleted(curSeq, spins, rounds);
      if ok {
        result, resLen, buf := TakeAnswers();
        DoneIsStored(ring.c, ring.at, curSeq);
        Leave(false);
      }
    }

    /** Unlock and return; an asynchronous swap becomes the pending one, eglMakeCurrent remembers its arguments. */
    method Leave(async: bool)
      requires Valid() && ring.at.stub.pc == Return
      requires async == (ring.at.stub.mode == SendSwap && ring.c.asyncSwap)
      modifies this`pendingSwap, ring`at
      ensures Valid() && ring.at.stub.pc == Unlocked
      ensures ring.at.hist.log == old(ring.at.hist.log) && ring.at.hist.done == old(ring.at.hist.done)
      ensures ring.at.hist.reports == old(ring.at.hist.reports)
      ensures pendingSwap == if async then Some(curSeq) else old(pendingSwap)
      ensures old(ring.at.stub.tid) in old(ring.at.tls) ==>
        && old(ring.at.stub.tid) in ring.at.tls
        && ring.at.tls[old(ring.at.stub.tid)] ==
             var t, p := old(ring.at.tls[ring.at.stub.tid]), old(ring.at.stub);
             if !p.op.MakeCurrent? then t
             else t.(last := if p.result != 0 then Some(Current(p.op.surfaces, p.op.ctx)) else None)
    {
      if async {
        pendingSwap := Some(curSeq);
      }
      ring.Ask(DoReturn);
    }

    /** result and result_buf_len */
    method TakeFields() returns (result: int, resLen: nat)
      requires Valid() && ring.at.stub.pc == Take(0) && ring.at.stub.mode == SendCall
      modifies ring, ring.slots, ring.arena
      ensures Valid() && ring.at.stub == old(ring.at.stub).(pc := Take(2), result := result, resLen := resLen)
      ensures ring.at.hist.log == old(ring.at.hist.log) && SameThread(old(ring.at), ring.at)
    {
      OthersRun();
      result := Slot().result;
      ring.Ask(DoTake);
      OthersRun();
      resLen := Slot().resLen;
      ring.Ask(DoTake);
    }

    method TakeAnswers() returns (result: int, resLen: nat, buf: seq<byte>)
      requires Valid() && ring.at.stub.pc == Take(0) && ring.at.stub.mode == SendCall
      modifies ring, ring.slots, ring.arena
      ensures Valid() && ring.at.stub.pc == Return && ring.at.stub.mode == SendCall
      ensures ring.at.stub.op == old(ring.at.stub.op) && ring.at.stub.result == result
      ensures ring.at.hist.log == old(ring.at.hist.log)
      ensures curSeq < |ring.at.hist.done| && Answer(result, resLen, buf) == ring.at.hist.done[curSeq]
      ensures SameThread(old(ring.at), ring.at)
    {
      result, resLen := TakeFields();
      OthersRun();
      buf := ring.resultBuf;
      ring.Ask(DoTake);
      OwnAnswer(ring.c, ring.at, curSeq);
    }

    /** The synchronous half: wait for the swap itself and take its result. */
    method AwaitSwap(spins: nat, rounds: nat) returns (ok: bool, r: int)
      requires Valid() && ring.at.stub.pc == Wait && ring.at.stub.target == curSeq
      requires ring.at.stub.mode == SendSwap && !ring.c.asyncSwap
      modifies ring, ring.slots, ring.arena
      ensures Valid() && ring.at.hist.log == old(ring.at.hist.log)
      ensures ok ==> ring.at.stub.pc == Return && ring.at.stub.mode == SendSwap
      ensures ok ==> curSeq < |ring.at.hist.done| && r == ring.at.hist.done[curSeq].result
    {
      r := 0;
      ok := WaitCompleted(curSeq, spins, rounds);
      if ok {
        OthersRun();
        TakenResult(ring.c, ring.at);
        r := Slot().result;
        ring.Ask(DoTake);
      }
    }

    /** bridge_send_swap: with async_swap the caller returns once all swaps before its own are completed. */
    method BridgeSendSwap(async: bool, spins: nat, rounds: nat) returns (ok: bool, r: int)
      requires Valid() && ring.at.stub.pc == Encode && ring.at.stub.mode == SendSwap && async == ring.c.asyncSwap
      modifies this, ring, ring.slots, ring.arena
      ensures |ring.at.hist.log| == |old(ring.at.hist.log)| + 1
      ensures ok ==> Valid() && ring.at.stub.pc == Unlocked && curSeq == old(curSeq)
      ensures ok && async ==> r == 1 && pendingSwap == Some(curSeq)
      ensures ok && async ==>
        forall q :: 0 <= q < curSeq && q < |ring.at.hist.log| && IsSwap(ring.at, q) ==> q < ring.completedSeq
      ensures ok && !async ==> curSeq < |ring.at.hist.done| && r == ring.at.hist.done[curSeq].result
    {
      PublishCur(if async then 2 else 1);
      ok, r := true, 1;
      if async {
        ok := AwaitPending(spins, rounds);
        if !ok {
          return;
        }
      } else {
        ok, r := AwaitSwap(spins, rounds);
        if !ok {
          return;
        }
      }
      ghost var before := ring.at;
      Leave(async);
      assert forall q :: 0 <= q < |before.hist.log| ==> IsSwap(before, q) == IsSwap(ring.at, q);
    }

    /** The asynchronous half: wait for the swap before this one, if there was one. */
    method AwaitPending(spins: nat, rounds: nat) returns (ok: bool)
      requires Valid() && ring.at.stub.mode == SendSwap && ring.c.asyncSwap
      requires ring.at.stub.pc == if pendingSwap.Some? then Wait else Return
      requires pendingSwap.Some? ==> ring.at.stub.target == pendingSwap.value
      modifies ring, ring.slots, ring.arena
      ensures Valid() && ring.at.hist.log == old(ring.at.hist.log)
      ensures ok ==> ring.at.stub.pc == Return && ring.at.stub.mode == SendSwap
      ensures ok ==> forall q :: 0 <= q < curSeq && q < |ring.at.hist.log| && IsSwap(ring.at, q) ==> q < ring.completedSeq
    {
      ok := true;
      if pendingSwap.Some? {
        ok := WaitCompleted(pendingSwap.value, spins, rounds);
        if !ok {
          return;
        }
      }
      EarlierSwapsDone(ring.c, ring.at);
    }
  }
}
