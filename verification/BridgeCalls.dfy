/** Blocking calls get their own answers, and at most one frame is in flight. */
module BridgeCalls {
  import opened BridgeModel
  import opened BridgeRing
  import opened BridgeArena
  import opened BridgeWake
  import opened Options

  // ---- Answers ----------------------------------------------------------------------------

  /** Who waits, and for which command. */
  predicate Targets(c: Config, s: State) {
    var p := s.stub;
    && (p.pc.Wait? || p.pc.Sleep? || p.pc.Take? ==> !p.mode.SendVoid?)
    && (p.pc.Wait? || p.pc.Sleep? || p.pc.Take? ==>
          if p.mode == SendSwap && c.asyncSwap then !p.pc.Take? && p.pending == Some(p.target)
          else p.target == p.sn)
    && (p.pc.Take? ==> p.pc.k <= 2 && p.sn < s.ring.completed && (p.pc.k > 0 ==> p.mode == SendCall))
    && (p.pc.Return? ==> match p.mode
          case SendVoid => true
          case SendCall => p.sn < s.ring.completed
          case SendSwap =>
            if c.asyncSwap then p.pending.Some? ==> p.pending.value < s.ring.completed
            else p.sn < s.ring.completed)
  }

  /** Until the caller returns, the slot and the shared buffer hold what its own handler left. */
  predicate AnswerStays(c: Config, s: State)
    requires Shaped(c, s)
  {
    Published(s.stub.pc) && s.stub.sn < |s.hist.done| ==>
      && StubSlot(c, s).result == s.hist.done[s.stub.sn].result
      && StubSlot(c, s).resLen == s.hist.done[s.stub.sn].resLen
      && s.ring.resultBuf == s.hist.done[s.stub.sn].buf
  }

  predicate TakenSoFar(s: State) {
    var p := s.stub;
    p.pc.Take? && p.sn < |s.hist.done| ==>
      && (p.pc.k >= 1 ==> p.result == s.hist.done[p.sn].result)
      && (p.pc.k >= 2 ==> p.resLen == s.hist.done[p.sn].resLen)
  }

  predicate OwnAnswers(s: State) {
    forall q :: q in s.hist.answers ==> q < |s.hist.done| && s.hist.answers[q] == s.hist.done[q]
  }

  // ---- Swaps ------------------------------------------------------------------------------

  predicate IsSwap(s: State, q: nat)
    requires q < |s.hist.log|
  {
    s.hist.log[q].mode.SendSwap?
  }

  /** An uncompleted swap is the pending one or the one being sent. */
  predicate SwapsInFlight(s: State) {
    forall q :: s.ring.completed <= q < |s.hist.log| && IsSwap(s, q) ==>
      s.stub.pending == Some(q) || (Published(s.stub.pc) && q == s.stub.sn)
  }

  /** When an asynchronous swap returned, every earlier swap was completed. */
  predicate ReturnOk(s: State, i: nat)
    requires i < |s.hist.swapReturns|
  {
    var (sn, completed) := s.hist.swapReturns[i];
    sn < |s.hist.log| && forall q :: 0 <= q < sn && IsSwap(s, q) ==> q < completed
  }

  predicate ReturnsAfterPrevious(s: State) {
    forall i :: 0 <= i < |s.hist.swapReturns| ==> ReturnOk(s, i)
  }

  predicate CallInv(c: Config, s: State)
    requires Shaped(c, s)
  {
    && Targets(c, s) && AnswerStays(c, s) && TakenSoFar(s) && OwnAnswers(s)
    && SwapsInFlight(s) && ReturnsAfterPrevious(s)
  }

  lemma InitCalls(c: Config, s: State)
    requires Init(c, s)
    ensures CallInv(c, s)
  {
  }

  // ---- One step ---------------------------------------------------------------------------

  lemma FillTargets(c: Config, s: State, st: FillStep)
    requires Shaped(c, s) && CallInv(c, s) && CanFill(c, s, st) && Shaped(c, DoFillStep(c, s, st))
    ensures CallInv(c, DoFillStep(c, s, st))
  {
    if Local(st) {
      LocalCalls(c, s, st);
    } else {
      StoreCalls(c, s, st);
    }
  }

  lemma LocalCalls(c: Config, s: State, st: FillStep)
    requires Shaped(c, s) && CallInv(c, s) && CanFill(c, s, st) && Local(st)
    ensures CallInv(c, DoFillStep(c, s, st))
  {
    SwapsFrame(s, DoFillStep(c, s, st));
  }

  lemma StoreCalls(c: Config, s: State, st: FillStep)
    requires Shaped(c, s) && CallInv(c, s) && CanFill(c, s, st) && Shaped(c, DoFillStep(c, s, st)) && !Local(st)
    ensures CallInv(c, DoFillStep(c, s, st))
  {
    match st
    case DoFill => FieldCalls(c, s);
    case DoRecord => RecordCalls(c, s);
    case DoCopy => SwapsFrame(s, CopyData(c, s));
    case DoSend => SwapsFrame(s, StoreNeeds(c, s));
  }

  lemma FieldCalls(c: Config, s: State)
    requires Shaped(c, s) && CallInv(c, s) && s.stub.pc.Filling?
    requires Shaped(c, FillSlot(c, s))
    ensures CallInv(c, FillSlot(c, s))
  {
    SwapsFrame(s, FillSlot(c, s));
  }

  lemma RecordCalls(c: Config, s: State)
    requires Shaped(c, s) && CallInv(c, s) && s.stub.pc.Record?
    requires Shaped(c, RecordData(c, s))
    ensures CallInv(c, RecordData(c, s))
  {
    SwapsFrame(s, RecordData(c, s));
  }

  lemma SwapsFrame(s: State, s': State)
    requires SwapsInFlight(s) && ReturnsAfterPrevious(s)
    requires s'.hist.log == s.hist.log && s'.hist.swapReturns == s.hist.swapReturns
    requires s.ring.completed <= s'.ring.completed && s'.stub.pending == s.stub.pending
    requires Published(s.stub.pc) ==>
               (Published(s'.stub.pc) && s'.stub.sn == s.stub.sn) || s.stub.sn < s'.ring.completed
               || (s.stub.sn < |s.hist.log| && !IsSwap(s, s.stub.sn))
    ensures SwapsInFlight(s') && ReturnsAfterPrevious(s')
  {
    forall q | s'.ring.completed <= q < |s'.hist.log| && IsSwap(s', q)
      ensures s'.stub.pending == Some(q) || (Published(s'.stub.pc) && q == s'.stub.sn)
    {
      assert IsSwap(s, q);
    }
    forall i | 0 <= i < |s'.hist.swapReturns| ensures ReturnOk(s', i) {
      assert ReturnOk(s, i);
      assert forall q :: 0 <= q < |s.hist.log| ==> IsSwap(s', q) == IsSwap(s, q);
    }
  }

  lemma PublishCalls(c: Config, s: State)
    requires RingInv(c, s) && CallInv(c, s) && s.stub.pc.Publish?
    ensures CallInv(c, PublishSlot(c, s))
  {
    var s' := PublishSlot(c, s);
    forall q | 0 <= q < |s.hist.log| ensures IsSwap(s', q) == IsSwap(s, q) {
    }
    forall i | 0 <= i < |s'.hist.swapReturns| ensures ReturnOk(s', i) {
      assert ReturnOk(s, i);
    }
  }

  lemma ReturnCalls(c: Config, s: State)
    requires RingInv(c, s) && WakeInv(c, s) && CallInv(c, s) && s.stub.pc.Return?
    ensures CallInv(c, ReturnCall(c, s))
  {
    var s' := ReturnCall(c, s);
    assert s'.hist.log == s.hist.log;
    forall q | s.ring.completed <= q < |s.hist.log| && IsSwap(s, q)
      ensures s'.stub.pending == Some(q)
      ensures s.stub.mode.SendSwap? && c.asyncSwap ==> q == s.stub.sn
    {
      assert s.stub.pending == Some(q) || q == s.stub.sn;
    }
    forall i | 0 <= i < |s'.hist.swapReturns| ensures ReturnOk(s', i) {
      if i < |s.hist.swapReturns| {
        assert ReturnOk(s, i);
        assert forall q :: 0 <= q < |s.hist.log| ==> IsSwap(s', q) == IsSwap(s, q);
      } else {
        forall q | 0 <= q < s.stub.sn && IsSwap(s', q) ensures q < s.ring.completed {
          assert IsSwap(s, q);
        }
      }
    }
  }

  lemma TakeCalls(c: Config, s: State)
    requires RingInv(c, s) && CallInv(c, s) && s.stub.pc.Take?
    ensures Shaped(c, TakeAnswer(c, s)) && CallInv(c, TakeAnswer(c, s))
  {
    SwapsFrame(s, TakeAnswer(c, s));
  }

  lemma WaitCalls(c: Config, s: State, st: AskStep)
    requires RingInv(c, s) && CallInv(c, s) && CanAsk(s, st) && (st.DoWait? || st.DoReadResp?)
    requires Shaped(c, DoAskStep(c, s, st))
    ensures CallInv(c, DoAskStep(c, s, st))
  {
    SwapsFrame(s, DoAskStep(c, s, st));
  }

  lemma AskCalls(c: Config, s: State, st: AskStep)
    requires RingInv(c, s) && WakeInv(c, s) && CallInv(c, s) && CanAsk(s, st)
    requires Shaped(c, DoAskStep(c, s, st))
    ensures CallInv(c, DoAskStep(c, s, st))
  {
    match st
    case DoPublish => PublishCalls(c, s);
    case DoReturn => ReturnCalls(c, s);
    case DoTake => TakeCalls(c, s);
    case DoWait(_) => WaitCalls(c, s, st);
    case DoReadResp => WaitCalls(c, s, st);
    case _ => SwapsFrame(s, DoAskStep(c, s, st));
  }

  lemma IdleCalls(c: Config, s: State, st: IdleStep)
    requires Shaped(c, s) && CallInv(c, s) && CanIdle(s, st) && Shaped(c, DoIdleStep(s, st))
    ensures CallInv(c, DoIdleStep(s, st))
  {
    SwapsFrame(s, DoIdleStep(s, st));
  }

  /** Handlers write only while their own answer is still open. */
  lemma ServeCalls(c: Config, s: State, st: ServeStep)
    requires RingInv(c, s) && CallInv(c, s) && CanServe(c, s, st) && Shaped(c, DoServeStep(c, s, st))
    ensures CallInv(c, DoServeStep(c, s, st))
  {
    if Handling(st) {
      HandlingCalls(c, s, st);
    } else {
      LoopCalls(c, s, st);
    }
  }

  lemma HandlingCalls(c: Config, s: State, st: ServeStep)
    requires RingInv(c, s) && CallInv(c, s) && CanServe(c, s, st) && Shaped(c, DoServeStep(c, s, st)) && Handling(st)
    ensures CallInv(c, DoServeStep(c, s, st))
  {
    SwapsFrame(s, DoServeStep(c, s, st));
  }

  lemma LoopCalls(c: Config, s: State, st: ServeStep)
    requires RingInv(c, s) && CallInv(c, s) && CanServe(c, s, st) && Shaped(c, DoServeStep(c, s, st)) && !Handling(st)
    ensures CallInv(c, DoServeStep(c, s, st))
  {
    SwapsFrame(s, DoServeStep(c, s, st));
  }

  lemma StepKeepsCalls(c: Config, s: State, st: Step)
    requires RingInv(c, s) && WakeInv(c, s) && CallInv(c, s) && Enabled(c, s, st)
    ensures Shaped(c, Apply(c, s, st)) && CallInv(c, Apply(c, s, st))
  {
    StepKeepsShape(c, s, st);
    match st
    case Fill(f) => FillTargets(c, s, f);
    case Ask(a) => AskCalls(c, s, a);
    case Idle(i) => IdleCalls(c, s, i);
    case Serve(v) => ServeCalls(c, s, v);
  }

  // ---- What follows -----------------------------------------------------------------------

  /** While a blocking call copies its answer the ring is empty and no handler runs. */
  lemma QuietWhileTaking(c: Config, s: State)
    requires RingInv(c, s) && CallInv(c, s) && s.stub.pc.Take?
    ensures s.ring.completed == s.ring.published == s.stub.sn + 1 && !Busy(s.proxy.pc)
    ensures StubSlot(c, s).result == s.hist.done[s.stub.sn].result
    ensures s.ring.resultBuf == s.hist.done[s.stub.sn].buf
  {
  }

  /** Of any three swaps one is completed. */
  lemma AtMostTwoSwaps(c: Config, s: State, a: nat, b: nat, d: nat)
    requires RingInv(c, s) && CallInv(c, s)
    requires a < b < d < |s.hist.log| && IsSwap(s, a) && IsSwap(s, b) && IsSwap(s, d)
    ensures a < s.ring.completed
  {
  }
}
