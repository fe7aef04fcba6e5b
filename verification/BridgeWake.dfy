/** The spin-then-sleep handshake over the two eventfds: no wake-up is lost, and the system stops only
    when there is nothing to do or when a payload can never fit. */
module BridgeWake {
  import opened BridgeModel
  import opened BridgeRing
  import opened BridgeArena

  /** The entry of the call in progress, once published. */
  predicate CallInLog(s: State) {
    Published(s.stub.pc) ==>
      && s.stub.sn < |s.hist.log|
      && s.hist.log[s.stub.sn].mode == s.stub.mode
      && s.hist.log[s.stub.sn].op == s.stub.op
      && s.hist.log[s.stub.sn].tid == s.stub.tid
  }

  /** Whatever a client waits for was published with a response requested. */
  predicate WillRespond(c: Config, s: State) {
    && (s.stub.pending.Some? ==>
          c.asyncSwap && s.stub.pending.value < |s.hist.log| && s.hist.log[s.stub.pending.value].mode.SendSwap?)
    && (s.stub.pc.Wait? || s.stub.pc.Sleep? || s.stub.pc.Take? ==>
          s.stub.target < |s.hist.log| && !s.hist.log[s.stub.target].mode.SendVoid?)
    && (s.proxy.pc.Complete? ==>
          s.ring.completed < |s.hist.log| && s.proxy.needs == s.hist.log[s.ring.completed].core.needs)
  }

  /** consumer_waiting is up exactly around the proxy's sleep. */
  predicate WaitingFlag(s: State) {
    s.ring.waiting <==> s.proxy.pc.PollAgain? || s.proxy.pc.ReadReq? || s.proxy.pc.ClearWaiting?
  }

  /** The proxy sleeps over a published command only while its producer is about to post. */
  predicate ProxyWillWake(s: State) {
    s.proxy.pc.ReadReq? && s.ring.completed < s.ring.published && s.ring.req == 0 ==>
      s.stub.pc.LoadWaiting? || s.stub.pc.PostReq?
  }

  /** A client sleeps over a completed command only while the proxy is about to post. */
  predicate ClientWillWake(s: State) {
    s.stub.pc.Sleep? ==>
      || s.ring.completed <= s.stub.target
      || s.ring.resp > 0
      || (s.ring.completed == s.stub.target + 1 && s.proxy.pc.PostResp?)
  }

  predicate WakeInv(c: Config, s: State) {
    CallInLog(s) && WillRespond(c, s) && WaitingFlag(s) && ProxyWillWake(s) && ClientWillWake(s)
  }

  lemma InitWake(c: Config, s: State)
    requires Init(c, s)
    ensures WakeInv(c, s)
  {
  }

  lemma FillKeepsWake(c: Config, s: State, st: FillStep)
    requires Shaped(c, s) && WakeInv(c, s) && CanFill(c, s, st)
    ensures WakeInv(c, DoFillStep(c, s, st))
  {
    if Local(st) {
      LocalKeepsWake(c, s, st);
    } else {
      StoreKeepsWake(c, s, st);
    }
  }

  lemma LocalKeepsWake(c: Config, s: State, st: FillStep)
    requires Shaped(c, s) && WakeInv(c, s) && CanFill(c, s, st) && Local(st)
    ensures WakeInv(c, DoFillStep(c, s, st))
  {
  }

  lemma StoreKeepsWake(c: Config, s: State, st: FillStep)
    requires Shaped(c, s) && WakeInv(c, s) && CanFill(c, s, st) && !Local(st)
    ensures WakeInv(c, DoFillStep(c, s, st))
  {
  }

  lemma SentKeepsWake(c: Config, s: State, st: AskStep)
    requires Shaped(c, s) && Counters(c, s) && WakeInv(c, s) && CanAsk(s, st)
    requires st.DoLoadWaiting? || st.DoPostReq?
    ensures WakeInv(c, DoAskStep(c, s, st))
  {
  }

  lemma AwaitKeepsWake(c: Config, s: State, st: AskStep)
    requires Shaped(c, s) && Counters(c, s) && WakeInv(c, s) && CanAsk(s, st)
    requires st.DoWait? || st.DoReadResp? || st.DoTake?
    ensures WakeInv(c, DoAskStep(c, s, st))
  {
  }

  lemma AskKeepsWake(c: Config, s: State, st: AskStep)
    requires Shaped(c, s) && Counters(c, s) && WakeInv(c, s) && CanAsk(s, st)
    ensures WakeInv(c, DoAskStep(c, s, st))
  {
    if st.DoLoadWaiting? || st.DoPostReq? {
      SentKeepsWake(c, s, st);
    } else if st.DoWait? || st.DoReadResp? || st.DoTake? {
      AwaitKeepsWake(c, s, st);
    }
  }

  lemma IdleKeepsWake(c: Config, s: State, st: IdleStep)
    requires Shaped(c, s) && WakeInv(c, s) && CanIdle(s, st)
    ensures WakeInv(c, DoIdleStep(s, st))
  {
  }

  lemma CompleteKeepsWake(c: Config, s: State)
    requires RingInv(c, s) && ArenaInv(c, s) && WakeInv(c, s) && s.proxy.pc.Complete?
    ensures WakeInv(c, DoServeStep(c, s, DoComplete))
  {
    assert EntryOk(c, s.hist.log[s.ring.completed], s.hist.mem);
  }

  lemma ServeKeepsWake(c: Config, s: State, st: ServeStep)
    requires RingInv(c, s) && ArenaInv(c, s) && WakeInv(c, s) && CanServe(c, s, st)
    ensures WakeInv(c, DoServeStep(c, s, st))
  {
    if st.DoComplete? {
      CompleteKeepsWake(c, s);
    } else if Handling(st) {
      HandlingKeepsWake(c, s, st);
    } else {
      LoopKeepsWake(c, s, st);
    }
  }

  lemma HandlingKeepsWake(c: Config, s: State, st: ServeStep)
    requires Shaped(c, s) && WakeInv(c, s) && CanServe(c, s, st) && Handling(st)
    ensures WakeInv(c, DoServeStep(c, s, st))
  {
  }

  lemma LoopKeepsWake(c: Config, s: State, st: ServeStep)
    requires RingInv(c, s) && WakeInv(c, s) && CanServe(c, s, st) && !Handling(st) && !st.DoComplete?
    ensures WakeInv(c, DoServeStep(c, s, st))
  {
    if st.DoLoadNeeds? {
      assert Core(s.ring.slots[Index(c, s.ring.completed)]) == s.hist.log[s.ring.completed].core;
    }
  }

  lemma StepKeepsWake(c: Config, s: State, st: Step)
    requires RingInv(c, s) && ArenaInv(c, s) && WakeInv(c, s) && Enabled(c, s, st)
    ensures WakeInv(c, Apply(c, s, st))
  {
    match st
    case Fill(f) => FillKeepsWake(c, s, f);
    case Ask(a) => AskKeepsWake(c, s, a);
    case Idle(i) => IdleKeepsWake(c, s, i);
    case Serve(v) => ServeKeepsWake(c, s, v);
  }

  // ---- Progress ---------------------------------------------------------------------------

  /** The proxy blocks in read(req_efd). */
  predicate ProxyAsleep(s: State) {
    s.proxy.pc.ReadReq? && s.ring.req == 0
  }

  /** A client blocks in read(resp_efd). */
  predicate ClientAsleep(s: State) {
    s.stub.pc.Sleep? && s.ring.resp == 0
  }

  /** The payload cannot be placed behind those of the same slot even in an otherwise empty arena. */
  predicate CannotFit(c: Config, s: State)
    requires c.arena > 0
  {
    s.stub.pc.Alloc? && Place(s.stub.head, Round4(s.stub.size), c.arena).1 - s.stub.begin > c.arena
  }

  /** A step of the proxy or of the call in progress that is not another round of a waiting loop. */
  predicate Productive(c: Config, s: State, st: Step)
    requires Shaped(c, s)
  {
    Enabled(c, s, st) && Apply(c, s, st) != s && !(st.Fill? && (st.f.DoLock? || st.f.DoRedundant?))
  }

  /** Neither side waits for the other's wake-up in vain. */
  lemma NoLostWakeup(c: Config, s: State)
    requires RingInv(c, s) && WakeInv(c, s)
    ensures ProxyAsleep(s) && s.ring.completed < s.ring.published ==> s.stub.pc.LoadWaiting? || s.stub.pc.PostReq?
    ensures ClientAsleep(s) && s.ring.completed > s.stub.target ==> s.proxy.pc.PostResp?
    ensures !(ProxyAsleep(s) && ClientAsleep(s))
  {
  }

  /** With the proxy asleep and no command in the ring, the tail has caught up. */
  lemma IdleTail(c: Config, s: State)
    requires RingInv(c, s) && ArenaInv(c, s) && s.ring.completed == s.ring.published
    ensures s.ring.tail == (if Unpublished(s.stub.pc) then s.stub.begin else s.stub.head)
  {
  }

  lemma ProxyProductive(c: Config, s: State) returns (st: Step)
    requires Shaped(c, s) && Counters(c, s) && !ProxyAsleep(s)
    ensures Productive(c, s, st)
  {
    match s.proxy.pc
    case Poll => st := Idle(DoPoll(true));
    case SetWaiting => st := Idle(DoSetWaiting);
    case PollAgain => st := Idle(DoPollAgain);
    case ReadReq => st := Idle(DoReadReq);
    case ClearWaiting => st := Idle(DoClearWaiting);
    case Bind => st := Serve(DoBind);
    case Enter => st := Serve(DoEnter);
    case Run => st := Serve(HandlerDone);
    case Release => st := Serve(DoRelease);
    case StoreTail => st := Serve(DoStoreTail);
    case LoadNeeds => st := Serve(DoLoadNeeds);
    case Complete => st := Serve(DoComplete);
    case PostResp => st := Serve(DoPostResp);
  }

  lemma StubProductive(c: Config, s: State) returns (st: Step)
    requires RingInv(c, s) && ArenaInv(c, s) && WakeInv(c, s)
    requires ProxyAsleep(s) && !s.stub.pc.Unlocked? && !CannotFit(c, s)
    ensures Productive(c, s, st)
  {
    if Unpublished(s.stub.pc) || s.stub.pc.Reserve? {
      st := FillProductive(c, s);
    } else {
      st := AskProductive(c, s);
    }
  }

  lemma FillProductive(c: Config, s: State) returns (st: Step)
    requires RingInv(c, s) && ArenaInv(c, s)
    requires s.ring.completed == s.ring.published && !CannotFit(c, s) && (Unpublished(s.stub.pc) || s.stub.pc.Reserve?)
    ensures Productive(c, s, st)
  {
    match s.stub.pc
    case Reserve => st := Fill(DoReserve);
    case Filling(k) => st := Fill(DoFill);
    case Encode => st := Fill(DoSend);
    case Alloc =>
      st := Fill(DoAlloc);
      IdleTail(c, s);
    case Copy => st := Fill(DoCopy);
    case Record(k) => st := Fill(DoRecord);
    case Publish => st := Ask(DoPublish);
  }

  lemma AskProductive(c: Config, s: State) returns (st: Step)
    requires RingInv(c, s) && WakeInv(c, s) && ProxyAsleep(s) && Published(s.stub.pc)
    ensures Productive(c, s, st)
  {
    match s.stub.pc
    case LoadWaiting => st := Ask(DoLoadWaiting);
    case PostReq => st := Ask(DoPostReq);
    case Wait => st := Ask(DoWait(true));
    case Sleep => st := Ask(DoReadResp);
    case Take(k) => st := Ask(DoTake);
    case Return => st := Ask(DoReturn);
  }

  /** Proxy asleep, nothing uncompleted, and the lock free or held for a payload that cannot fit. */
  predicate AtRest(c: Config, s: State)
    requires c.arena > 0
  {
    ProxyAsleep(s) && (s.stub.pc.Unlocked? || CannotFit(c, s))
  }

  lemma RestHasNoStep(c: Config, s: State, st: Step)
    requires RingInv(c, s) && ArenaInv(c, s) && WakeInv(c, s) && AtRest(c, s)
    ensures !Productive(c, s, st)
  {
    assert s.ring.completed == s.ring.published;
    IdleTail(c, s);
  }

  /** The bridge stops moving exactly in the states of rest. */
  lemma StopsExactlyAtRest(c: Config, s: State)
    requires RingInv(c, s) && ArenaInv(c, s) && WakeInv(c, s)
    ensures (exists st :: Productive(c, s, st)) <==> !AtRest(c, s)
  {
    if AtRest(c, s) {
      forall st ensures !Productive(c, s, st) {
        RestHasNoStep(c, s, st);
      }
    } else if !ProxyAsleep(s) {
      var st := ProxyProductive(c, s);
    } else {
      var st := StubProductive(c, s);
    }
  }

  // ---- The allocator ----------------------------------------------------------------------

  /** A payload that cannot fit keeps the lock holder where it is, whatever the proxy completes. */
  lemma CannotFitStays(c: Config, s: State, st: Step)
    requires RingInv(c, s) && ArenaInv(c, s) && CannotFit(c, s) && Enabled(c, s, st)
    ensures Apply(c, s, st).stub == s.stub
  {
    match st
    case Fill(f) =>
      TailBeforeSlot(c, s);
      WaitsForRoom(c, s, f);
    case Ask(_) =>
    case Idle(_) =>
    case Serve(v) => ServeLeavesStub(c, s, v);
  }

  /** The tail has not passed the start of the slot being filled. */
  lemma TailBeforeSlot(c: Config, s: State)
    requires RingInv(c, s) && Layout(c, s) && Unpublished(s.stub.pc)
    ensures s.ring.tail <= s.stub.begin
  {
    EndMono(s.hist.log, s.ring.completed, |s.hist.log|);
    if s.ring.completed < |s.hist.log| {
      EndMono(s.hist.log, s.ring.completed + 1, |s.hist.log|);
    }
  }

  lemma WaitsForRoom(c: Config, s: State, st: FillStep)
    requires Shaped(c, s) && CanFill(c, s, st) && CannotFit(c, s) && s.ring.tail <= s.stub.begin
    ensures DoFillStep(c, s, st).stub == s.stub
  {
  }

  lemma ServeLeavesStub(c: Config, s: State, st: ServeStep)
    requires Shaped(c, s) && CanServe(c, s, st)
    ensures DoServeStep(c, s, st).stub == s.stub
  {
  }

  /** With all earlier slots completed, the first payload of a slot is placed at once if and only if it
      fits before the wrap point or before its own position; half an arena always fits. */
  lemma ArenaProgress(c: Config, s: State)
    requires RingInv(c, s) && ArenaInv(c, s)
    requires s.stub.pc.Alloc? && s.stub.payloads == [] && s.ring.completed == s.ring.published
    ensures var pos, size := s.stub.head % c.arena, Round4(s.stub.size);
      && (AllocData(c, s).stub.pc.Copy? <==> (size <= c.arena - pos || size <= pos))
      && (2 * size <= c.arena ==> AllocData(c, s).stub.pc.Copy?)
      && (CannotFit(c, s) <==> !(size <= c.arena - pos || size <= pos))
  {
    IdleTail(c, s);
  }
}
