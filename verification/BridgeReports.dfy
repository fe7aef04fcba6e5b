/** What a blocking call returns was stored by the handler of its own command: nothing that an earlier command left in the
    slot or the result buffer passes for it. */
module BridgeReports {
  import opened RingConfig
  import opened BridgeModel
  import opened BridgeRing
  import opened BridgeTheorems
  import BridgeArena
  import BridgeWake
  import opened Options

  /** Result, length and buffer agree with what a handler stored; what it did not store may be anything but the length. */
  predicate Told(r: Report, a: Answer) {
    && a.resLen == r.resLen
    && (r.result.Some? ==> a.result == r.result.value)
    && (r.buf.Some? ==> a.buf == r.buf.value)
  }

  /** bridge_begin has zeroed the length of the slot being filled. */
  predicate Zeroed(pc: StubPc) {
    (pc.Filling? && pc.k >= 4) || (Unpublished(pc) && !pc.Filling?)
  }

  /** The slots whose handlers have not started have length 0. */
  predicate NoOldLength(c: Config, s: State)
    requires Shaped(c, s)
  {
    && (Zeroed(s.stub.pc) ==> StubSlot(c, s).resLen == 0)
    && forall q :: |s.hist.runs| <= q < s.ring.published ==> s.ring.slots[Index(c, q)].resLen == 0
  }

  predicate ReportInv(c: Config, s: State)
    requires RingInv(c, s)
  {
    && NoOldLength(c, s)
    && |s.hist.reports| == |s.hist.runs|
    && (Started(s.proxy.pc) ==>
          Told(s.hist.reports[s.ring.completed], Answer(ProxySlot(c, s).result, ProxySlot(c, s).resLen, s.ring.resultBuf)))
    && forall k :: 0 <= k < |s.hist.done| ==> Told(s.hist.reports[k], s.hist.done[k])
  }

  lemma InitReports(c: Config, s: State)
    requires Init(c, s)
    ensures RingInv(c, s) && ReportInv(c, s)
  {
    InitRing(c, s);
  }

  lemma FillReports(c: Config, s: State, st: FillStep)
    requires RingInv(c, s) && ReportInv(c, s) && CanFill(c, s, st) && RingInv(c, DoFillStep(c, s, st))
    ensures ReportInv(c, DoFillStep(c, s, st))
  {
    if st.DoFill? || st.DoRecord? || st.DoSend? {
      FilledSlotApart(c, s);
      StoreReports(c, s, st);
    }
  }

  /** A store into the slot being filled, which is none of those being served */
  lemma StoreReports(c: Config, s: State, st: FillStep)
    requires RingInv(c, s) && ReportInv(c, s) && CanFill(c, s, st) && RingInv(c, DoFillStep(c, s, st))
    requires st.DoFill? || st.DoRecord? || st.DoSend?
    requires forall q :: s.ring.completed <= q < s.ring.published ==> Index(c, q) != Index(c, s.stub.sn)
    ensures ReportInv(c, DoFillStep(c, s, st))
  {
    StoreLeaves(c, s, st);
    StoredApart(c, s, DoFillStep(c, s, st));
  }

  lemma StoreLeaves(c: Config, s: State, st: FillStep)
    requires Shaped(c, s) && NoOldLength(c, s) && CanFill(c, s, st) && (st.DoFill? || st.DoRecord? || st.DoSend?)
    requires Shaped(c, DoFillStep(c, s, st))
    ensures var s' := DoFillStep(c, s, st);
      && s'.ring == SetStubSlot(c, s, StubSlot(c, s')) && s'.stub.sn == s.stub.sn
      && s'.hist == s.hist && s'.proxy == s.proxy
      && (Zeroed(s'.stub.pc) ==> StubSlot(c, s').resLen == 0)
  {
    match st
    case DoFill =>
    case DoRecord => RecordLeaves(c, s);
    case DoSend =>
  }

  lemma RecordLeaves(c: Config, s: State)
    requires Shaped(c, s) && NoOldLength(c, s) && s.stub.pc.Record? && Shaped(c, RecordData(c, s))
    ensures var s' := RecordData(c, s);
      && s'.ring == SetStubSlot(c, s, StubSlot(c, s')) && s'.stub.sn == s.stub.sn
      && s'.hist == s.hist && s'.proxy == s.proxy && StubSlot(c, s').resLen == 0
  {
  }

  lemma StoredApart(c: Config, s: State, s': State)
    requires RingInv(c, s) && ReportInv(c, s) && RingInv(c, s') && Unpublished(s.stub.pc)
    requires forall q :: s.ring.completed <= q < s.ring.published ==> Index(c, q) != Index(c, s.stub.sn)
    requires s'.ring == SetStubSlot(c, s, StubSlot(c, s')) && s'.stub.sn == s.stub.sn
    requires s'.hist == s.hist && s'.proxy == s.proxy
    requires Zeroed(s'.stub.pc) ==> StubSlot(c, s').resLen == 0
    ensures ReportInv(c, s')
  {
  }

  lemma AskReports(c: Config, s: State, st: AskStep)
    requires RingInv(c, s) && ReportInv(c, s) && CanAsk(s, st) && RingInv(c, DoAskStep(c, s, st))
    ensures ReportInv(c, DoAskStep(c, s, st))
  {
    var s' := DoAskStep(c, s, st);
    AskLeaves(c, s, st);
    if st.DoPublish? {
      assert s'.ring.slots[Index(c, s.stub.sn)].resLen == 0;
    }
  }

  lemma AskLeaves(c: Config, s: State, st: AskStep)
    requires Shaped(c, s) && CanAsk(s, st)
    ensures var s' := DoAskStep(c, s, st);
      && s'.ring.slots == s.ring.slots && s'.ring.completed == s.ring.completed && s'.ring.resultBuf == s.ring.resultBuf
      && s'.proxy == s.proxy && s'.hist.runs == s.hist.runs && s'.hist.done == s.hist.done
      && s'.hist.reports == s.hist.reports && !Zeroed(s'.stub.pc)
      && s'.ring.published == if st.DoPublish? then s.stub.sn + 1 else s.ring.published
  {
  }

  lemma IdleReports(c: Config, s: State, st: IdleStep)
    requires RingInv(c, s) && ReportInv(c, s) && CanIdle(s, st) && RingInv(c, DoIdleStep(s, st))
    ensures ReportInv(c, DoIdleStep(s, st))
  {
  }

  /** The slot being served is none of those still to be served, nor the one being filled. */
  lemma ServedSlotApart(c: Config, s: State)
    requires RingInv(c, s) && Busy(s.proxy.pc)
    ensures forall q :: s.ring.completed < q < s.ring.published ==> Index(c, q) != Index(c, s.ring.completed)
    ensures Unpublished(s.stub.pc) ==> Index(c, s.stub.sn) != Index(c, s.ring.completed)
  {
    forall q | s.ring.completed < q < s.ring.published ensures Index(c, q) != Index(c, s.ring.completed) {
      SlotsDistinct(s.ring.completed, q, c.slots);
    }
    if Unpublished(s.stub.pc) {
      FilledSlotApart(c, s);
    }
  }

  lemma ServeReports(c: Config, s: State, st: ServeStep)
    requires RingInv(c, s) && ReportInv(c, s) && CanServe(c, s, st) && RingInv(c, DoServeStep(c, s, st))
    ensures ReportInv(c, DoServeStep(c, s, st))
  {
    if Busy(s.proxy.pc) {
      ServedSlotApart(c, s);
    }
    if st.DoEnter? {
      EnterReports(c, s);
    } else if Handling(st) {
      HandlingReports(c, s, st);
    } else {
      LoopReports(c, s, st);
    }
  }

  predicate SlotsApart(c: Config, s: State)
    requires Shaped(c, s)
  {
    && (forall q :: s.ring.completed < q < s.ring.published ==> Index(c, q) != Index(c, s.ring.completed))
    && (Unpublished(s.stub.pc) ==> Index(c, s.stub.sn) != Index(c, s.ring.completed))
  }

  lemma EnterReports(c: Config, s: State)
    requires RingInv(c, s) && ReportInv(c, s) && s.proxy.pc.Enter? && SlotsApart(c, s) && RingInv(c, EnterHandler(c, s))
    ensures ReportInv(c, EnterHandler(c, s))
  {
    assert s.ring.slots[Index(c, s.ring.completed)].resLen == 0;
  }

  lemma HandlingReports(c: Config, s: State, st: ServeStep)
    requires RingInv(c, s) && ReportInv(c, s) && CanServe(c, s, st) && Handling(st) && SlotsApart(c, s)
    requires RingInv(c, DoServeStep(c, s, st))
    ensures ReportInv(c, DoServeStep(c, s, st))
  {
  }

  lemma LoopReports(c: Config, s: State, st: ServeStep)
    requires RingInv(c, s) && ReportInv(c, s) && CanServe(c, s, st) && !Handling(st) && !st.DoEnter?
    requires RingInv(c, DoServeStep(c, s, st))
    ensures ReportInv(c, DoServeStep(c, s, st))
  {
  }

  lemma StepKeepsReports(c: Config, s: State, st: Step)
    requires RingInv(c, s) && ReportInv(c, s) && Enabled(c, s, st)
    ensures RingInv(c, Apply(c, s, st)) && ReportInv(c, Apply(c, s, st))
  {
    StepKeepsRing(c, s, st);
    match st
    case Fill(f) => FillReports(c, s, f);
    case Ask(a) => AskReports(c, s, a);
    case Idle(i) => IdleReports(c, s, i);
    case Serve(v) => ServeReports(c, s, v);
  }

  lemma ReachableReports(c: Config, s: State)
    requires Reachable(c, s)
    ensures RingInv(c, s) && ReportInv(c, s)
  {
    var good := iset x | RingInv(c, x) && ReportInv(c, x);
    forall x | Init(c, x) ensures x in good {
      InitReports(c, x);
    }
    forall x, st | x in good && Shaped(c, x) && Enabled(c, x, st) ensures Apply(c, x, st) in good {
      StepKeepsReports(c, x, st);
    }
    assert Inductive(c, good);
  }

  // ---- What a caller gets -----------------------------------------------------------------------------

  /** In every reachable state every published command whose handler has not started has length 0 in its slot. */
  lemma WaitingSlotsHaveNoLength(c: Config, s: State, q: nat)
    requires Reachable(c, s) && |s.hist.runs| <= q < s.ring.published
    ensures s.ring.slots[Index(c, q)].resLen == 0
  {
    ReachableReports(c, s);
  }

  /** Every answer that a blocking call took is what the handler of its own command stored, and its length is 0 if that
      stored none. */
  lemma AnswersAreStored(c: Config, s: State, q: nat)
    requires Reachable(c, s) && q in s.hist.answers
    ensures q < |s.hist.done| <= |s.hist.reports| && Told(s.hist.reports[q], s.hist.answers[q])
  {
    ReachableReports(c, s);
    BlockingCallGetsOwnAnswer(c, s);
  }

  /** What is left for the caller of the k-th command */
  lemma DoneIsStored(c: Config, s: State, k: nat)
    requires Reachable(c, s) && k < |s.hist.done|
    ensures |s.hist.done| <= |s.hist.reports| && Told(s.hist.reports[k], s.hist.done[k])
  {
    ReachableReports(c, s);
  }

  /** A response is posted for exactly the commands that are not void. */
  lemma ResponseIffAsked(c: Config, s: State)
    requires Reachable(c, s) && s.proxy.pc.Complete?
    ensures s.ring.completed < |s.hist.log|
    ensures DoServeStep(c, s, DoComplete).proxy.pc.PostResp? <==> s.hist.log[s.ring.completed].mode != SendVoid
  {
    ReachableInv(c, s);
    assert BridgeArena.EntryOk(c, s.hist.log[s.ring.completed], s.hist.mem);
  }

  /** A client posts a request for exactly those commands after which it finds the proxy about to sleep or asleep. */
  lemma RequestIffAnnounced(c: Config, s: State)
    requires Reachable(c, s) && s.stub.pc.LoadWaiting?
    ensures DoAskStep(c, s, DoLoadWaiting).stub.pc.PostReq?
      <==> s.proxy.pc.PollAgain? || s.proxy.pc.ReadReq? || s.proxy.pc.ClearWaiting?
  {
    ReachableInv(c, s);
    assert BridgeWake.WaitingFlag(s);
  }
}
