/** Counters, slot stability and FIFO order of the command ring. */
module BridgeRing {
  import opened RingConfig
  import opened BridgeModel

  /** The lock holder owns an unpublished slot. */
  predicate Unpublished(pc: StubPc) {
    pc.Filling? || pc.Encode? || pc.Alloc? || pc.Copy? || pc.Record? || pc.Publish?
  }

  /** The lock holder has published its slot and has not returned. */
  predicate Published(pc: StubPc) {
    pc.LoadWaiting? || pc.PostReq? || pc.Wait? || pc.Sleep? || pc.Take? || pc.Return?
  }

  /** The proxy works on slot `completed`. */
  predicate Busy(pc: ProxyPc) {
    pc.Bind? || pc.Enter? || Started(pc)
  }

  /** ... and its handler has started. */
  predicate Started(pc: ProxyPc) {
    pc.Run? || Finished(pc)
  }

  /** ... and its handler has returned. */
  predicate Finished(pc: ProxyPc) {
    pc.Release? || pc.StoreTail? || pc.LoadNeeds? || pc.Complete?
  }

  predicate Counters(c: Config, s: State) {
    var r, p, h := s.ring, s.stub, s.hist;
    && r.completed <= r.published <= p.localSeq <= r.completed + c.slots
    && p.localSeq == r.published + (if Unpublished(p.pc) then 1 else 0)
    && (Unpublished(p.pc) || Published(p.pc) ==> p.localSeq == p.sn + 1)
    && (Busy(s.proxy.pc) ==> r.completed < r.published)
    && |h.log| == r.published
    && |h.runs| == r.completed + (if Started(s.proxy.pc) then 1 else 0)
    && |h.done| == r.completed + (if Finished(s.proxy.pc) then 1 else 0)
  }

  /** Every published slot that is not completed still holds what was published. */
  predicate SlotsKept(c: Config, s: State)
    requires Shaped(c, s)
  {
    && s.ring.completed <= s.ring.published == |s.hist.log|
    && forall q :: s.ring.completed <= q < s.ring.published ==>
         Core(s.ring.slots[Index(c, q)]) == s.hist.log[q].core
  }

  /** The k-th handler call got the k-th published command. */
  predicate InOrder(s: State) {
    && |s.hist.runs| <= |s.hist.log|
    && forall k :: 0 <= k < |s.hist.runs| ==> s.hist.runs[k].core == s.hist.log[k].core
  }

  predicate RingInv(c: Config, s: State) {
    Shaped(c, s) && Counters(c, s) && SlotsKept(c, s) && InOrder(s)
  }

  lemma InitRing(c: Config, s: State)
    requires Init(c, s)
    ensures RingInv(c, s)
  {
  }

  // ---- One step ---------------------------------------------------------------------------

  lemma FillCounters(c: Config, s: State, st: FillStep)
    requires Shaped(c, s) && Counters(c, s) && CanFill(c, s, st)
    ensures Counters(c, DoFillStep(c, s, st))
  {
    if !Local(st) {
      StoreCounters(c, s, st);
    }
  }

  lemma StoreCounters(c: Config, s: State, st: FillStep)
    requires Shaped(c, s) && Counters(c, s) && CanFill(c, s, st) && !Local(st)
    ensures Counters(c, DoFillStep(c, s, st))
  {
  }

  lemma AskCounters(c: Config, s: State, st: AskStep)
    requires Shaped(c, s) && Counters(c, s) && CanAsk(s, st)
    ensures Counters(c, DoAskStep(c, s, st))
  {
  }

  lemma IdleCounters(c: Config, s: State, st: IdleStep)
    requires Shaped(c, s) && Counters(c, s) && CanIdle(s, st)
    ensures Counters(c, DoIdleStep(s, st))
  {
  }

  lemma ServeCounters(c: Config, s: State, st: ServeStep)
    requires Shaped(c, s) && Counters(c, s) && CanServe(c, s, st)
    ensures Counters(c, DoServeStep(c, s, st))
  {
    if Handling(st) {
      HandlingCounters(c, s, st);
    }
  }

  lemma HandlingCounters(c: Config, s: State, st: ServeStep)
    requires Shaped(c, s) && Counters(c, s) && CanServe(c, s, st) && Handling(st)
    ensures Counters(c, DoServeStep(c, s, st))
  {
  }

  /** The slot being filled is none of those the proxy still reads. */
  lemma FilledSlotApart(c: Config, s: State)
    requires Shaped(c, s) && Counters(c, s) && Unpublished(s.stub.pc)
    ensures forall q :: s.ring.completed <= q < s.ring.published ==> Index(c, q) != Index(c, s.stub.sn)
  {
    forall q | s.ring.completed <= q < s.ring.published ensures Index(c, q) != Index(c, s.stub.sn) {
      SlotsDistinct(q, s.stub.sn, c.slots);
    }
  }

  /** A store into the slot being filled. */
  lemma StoreKeepsSlots(c: Config, s: State, s': State, slot: Slot)
    requires RingInv(c, s) && Unpublished(s.stub.pc) && Shaped(c, s')
    requires s'.ring.slots == s.ring.slots[Index(c, s.stub.sn) := slot]
    requires s'.ring.completed == s.ring.completed && s'.ring.published == s.ring.published
    requires s'.hist.log == s.hist.log
    ensures SlotsKept(c, s')
  {
    FilledSlotApart(c, s);
  }

  lemma FillSlots(c: Config, s: State, st: FillStep)
    requires RingInv(c, s) && CanFill(c, s, st) && Shaped(c, DoFillStep(c, s, st))
    ensures SlotsKept(c, DoFillStep(c, s, st)) && InOrder(DoFillStep(c, s, st))
  {
    if st.DoFill? || st.DoRecord? || st.DoSend? {
      StoreSlots(c, s, st);
    }
  }

  lemma StoreSlots(c: Config, s: State, st: FillStep)
    requires RingInv(c, s) && CanFill(c, s, st) && Shaped(c, DoFillStep(c, s, st))
    requires st.DoFill? || st.DoRecord? || st.DoSend?
    ensures SlotsKept(c, DoFillStep(c, s, st)) && InOrder(DoFillStep(c, s, st))
  {
    match st
    case DoFill => StoreKeepsSlots(c, s, FillSlot(c, s), StubSlot(c, FillSlot(c, s)));
    case DoRecord => StoreKeepsSlots(c, s, RecordData(c, s), StubSlot(c, RecordData(c, s)));
    case DoSend => StoreKeepsSlots(c, s, StoreNeeds(c, s), StubSlot(c, StoreNeeds(c, s)));
  }

  lemma AskSlots(c: Config, s: State, st: AskStep)
    requires RingInv(c, s) && CanAsk(s, st) && Shaped(c, DoAskStep(c, s, st))
    ensures SlotsKept(c, DoAskStep(c, s, st)) && InOrder(DoAskStep(c, s, st))
  {
  }

  lemma IdleSlots(c: Config, s: State, st: IdleStep)
    requires RingInv(c, s) && CanIdle(s, st) && Shaped(c, DoIdleStep(s, st))
    ensures SlotsKept(c, DoIdleStep(s, st)) && InOrder(DoIdleStep(s, st))
  {
  }

  lemma ServeSlots(c: Config, s: State, st: ServeStep)
    requires RingInv(c, s) && CanServe(c, s, st) && Shaped(c, DoServeStep(c, s, st))
    ensures SlotsKept(c, DoServeStep(c, s, st)) && InOrder(DoServeStep(c, s, st))
  {
  }

  lemma StepKeepsRing(c: Config, s: State, st: Step)
    requires RingInv(c, s) && Enabled(c, s, st)
    ensures RingInv(c, Apply(c, s, st))
  {
    StepKeepsShape(c, s, st);
    match st
    case Fill(f) =>
      FillCounters(c, s, f);
      FillSlots(c, s, f);
    case Ask(a) =>
      AskCounters(c, s, a);
      AskSlots(c, s, a);
    case Idle(i) =>
      IdleCounters(c, s, i);
      IdleSlots(c, s, i);
    case Serve(v) =>
      ServeCounters(c, s, v);
      ServeSlots(c, s, v);
  }
}
