/** One proxy thread serves many stub threads: every command runs in its issuer's context. */
module BridgeContexts {
  import opened BridgeModel
  import opened BridgeRing
  import opened BridgeArena
  import opened BridgeWake
  import opened BridgeCalls
  import opened Options

  /** Thread t is inside eglMakeCurrent. */
  predicate Switching(s: State, t: nat) {
    !s.stub.pc.Unlocked? && s.stub.tid == t && s.stub.op.MakeCurrent?
  }

  /** The lock is held for an eglMakeCurrent that has not yet set g_stub_current_ctx. */
  predicate BeforeSwitch(pc: StubPc) {
    pc.Reserve? || pc.Filling?
  }

  /** The surfaces recorded for a context are those its thread made it current with. */
  predicate Bound(e: Egl, ctx: nat, cur: Option<Current>)
    requires |e.bindings| == EGL_MAX_CONTEXTS + 1
  {
    ctx != 0 ==>
      && ctx <= EGL_MAX_CONTEXTS && cur.Some? && cur.value.ctx == ctx
      && e.bindings[ctx] == Some(cur.value.surfaces)
  }

  /** g_current_ctx and g_ctx_bindings describe the driver. */
  predicate DriverTracked(e: Egl)
    requires |e.bindings| == EGL_MAX_CONTEXTS + 1
  {
    && e.current <= EGL_MAX_CONTEXTS
    && if e.current == 0 then e.driver == None
       else e.bindings[e.current].Some? && e.driver == Some(Current(e.bindings[e.current].value, e.current))
  }

  predicate ThreadOk(s: State, t: nat)
    requires t in s.tls && |s.egl.bindings| == EGL_MAX_CONTEXTS + 1
  {
    !Switching(s, t) ==>
      && Bound(s.egl, s.tls[t].ctx, s.tls[t].last)
      && (s.tls[t].last.Some? ==> s.tls[t].last.value.ctx == s.tls[t].ctx)
  }

  predicate ThreadsOk(s: State)
    requires |s.egl.bindings| == EGL_MAX_CONTEXTS + 1
  {
    forall t :: t in s.tls ==> ThreadOk(s, t)
  }

  /** A context is current in at most one thread. */
  predicate Exclusive(s: State) {
    forall t, u :: t in s.tls && u in s.tls && t != u && s.tls[t].ctx != 0 ==> s.tls[t].ctx != s.tls[u].ctx
  }

  predicate HolderOk(s: State)
    requires |s.egl.bindings| == EGL_MAX_CONTEXTS + 1
  {
    var p := s.stub;
    !p.pc.Unlocked? ==>
      && p.tid in s.tls
      && (p.op.MakeCurrent? ==>
            && p.op.ctx <= EGL_MAX_CONTEXTS && p.mode.SendCall?
            && (if BeforeSwitch(p.pc) then
                  p.op.ctx != 0 ==> forall t :: t in s.tls && t != p.tid ==> s.tls[t].ctx != p.op.ctx
                else s.tls[p.tid].ctx == p.op.ctx)
            && (Published(p.pc) && p.sn < |s.hist.runs| ==>
                  Bound(s.egl, p.op.ctx, Some(Current(p.op.surfaces, p.op.ctx))))
            && (p.pc.Return? || (p.pc.Take? && p.pc.k >= 1) ==> p.result == 1))
      && (!p.op.MakeCurrent? && Unpublished(p.pc) && p.pc != Filling(0) ==>
            Bound(s.egl, p.issuer, p.meant))
  }

  /** A published command that no handler has started on: a context switch is alone at the end of the
      ring and its thread waits for it; any other command finds its issuer's surfaces recorded. */
  predicate UnservedOk(s: State, q: nat)
    requires q < |s.hist.log| && |s.egl.bindings| == EGL_MAX_CONTEXTS + 1
  {
    var e := s.hist.log[q];
    if e.op.MakeCurrent? then
      q == |s.hist.log| - 1 && Published(s.stub.pc) && s.stub.sn == q && s.stub.op == e.op
    else Bound(s.egl, e.issuer, e.meant)
  }

  predicate Unserved(s: State)
    requires |s.egl.bindings| == EGL_MAX_CONTEXTS + 1
  {
    forall q :: |s.hist.runs| <= q < |s.hist.log| ==> UnservedOk(s, q)
  }

  /** Between egl_bind_target_ctx and the handler. */
  predicate EnterBound(s: State) {
    s.proxy.pc.Enter? && s.ring.completed < |s.hist.log| ==>
      var e := s.hist.log[s.ring.completed];
      !e.op.MakeCurrent? && 1 <= e.issuer < MAX_CONTEXTS ==> s.egl.current == e.issuer
  }

  /** eglMakeCurrent answers EGL_TRUE. */
  predicate SwitchSucceeds(c: Config, s: State)
    requires Shaped(c, s)
  {
    && (Started(s.proxy.pc) && ProxySlot(c, s).op.MakeCurrent? ==> ProxySlot(c, s).result == 1)
    && |s.hist.done| <= |s.hist.log|
    && forall k :: 0 <= k < |s.hist.done| && s.hist.log[k].op.MakeCurrent? ==> s.hist.done[k].result == 1
  }

  /** The k-th handler ran with the context and surfaces that were current in the issuing thread. */
  predicate RanInContext(s: State, k: nat)
    requires k < |s.hist.runs| <= |s.hist.log|
  {
    !s.hist.log[k].op.MakeCurrent? && 1 <= s.hist.log[k].issuer < MAX_CONTEXTS ==>
      && s.hist.log[k].meant.Some? && s.hist.log[k].meant.value.ctx == s.hist.log[k].issuer
      && s.hist.runs[k].driver == s.hist.log[k].meant
  }

  predicate RunsInContext(s: State) {
    |s.hist.runs| <= |s.hist.log| && forall k :: 0 <= k < |s.hist.runs| ==> RanInContext(s, k)
  }

  predicate ContextInv(c: Config, s: State)
    requires Shaped(c, s)
  {
    && DriverTracked(s.egl) && ThreadsOk(s) && Exclusive(s) && HolderOk(s)
    && Unserved(s) && EnterBound(s) && SwitchSucceeds(c, s) && RunsInContext(s)
  }

  lemma InitContexts(c: Config, s: State)
    requires Init(c, s)
    ensures ContextInv(c, s)
  {
  }

  // ---- Clients ----------------------------------------------------------------------------

  /** The redundant-call filter of eglMakeCurrent changes nothing at all. */
  lemma FilterIsInvisible(c: Config, s: State, st: FillStep)
    requires Shaped(c, s) && ContextInv(c, s) && st.DoRedundant? && CanFill(c, s, st)
    ensures DoFillStep(c, s, st) == s
  {
    assert ThreadOk(s, st.tid);
    assert s.tls[st.tid := s.tls[st.tid].(ctx := st.ctx)] == s.tls;
  }

  lemma LockContexts(c: Config, s: State, tid: nat, op: Op, mode: Mode)
    requires RingInv(c, s) && ContextInv(c, s) && CanFill(c, s, DoLock(tid, op, mode))
    ensures ContextInv(c, Lock(s, tid, op, mode))
  {
    var s' := Lock(s, tid, op, mode);
    forall t | t in s'.tls ensures ThreadOk(s', t) {
      assert ThreadOk(s, t);
    }
    UnservedFrame(s, s');
    RunsFrame(s, s');
  }

  /** Nothing unserved changes when the switch in progress stays the one that is published. */
  lemma UnservedFrame(s: State, s': State)
    requires |s.egl.bindings| == EGL_MAX_CONTEXTS + 1 && Unserved(s)
    requires s'.egl == s.egl && s'.hist.log == s.hist.log && s'.hist.runs == s.hist.runs
    requires Published(s.stub.pc) && s.stub.op.MakeCurrent? && s.stub.sn >= |s.hist.runs| ==>
               Published(s'.stub.pc) && s'.stub.sn == s.stub.sn && s'.stub.op == s.stub.op
    ensures Unserved(s')
  {
    forall q | |s'.hist.runs| <= q < |s'.hist.log| ensures UnservedOk(s', q) {
      assert UnservedOk(s, q);
    }
  }

  lemma ThreadsFrame(s: State, s': State)
    requires |s.egl.bindings| == EGL_MAX_CONTEXTS + 1 && ThreadsOk(s)
    requires s'.egl == s.egl && s'.tls == s.tls
    requires !s.stub.pc.Unlocked? && s.stub.op.MakeCurrent? ==>
               !s'.stub.pc.Unlocked? && s'.stub.op == s.stub.op && s'.stub.tid == s.stub.tid
    ensures ThreadsOk(s')
  {
    forall t | t in s'.tls ensures ThreadOk(s', t) {
      assert ThreadOk(s, t);
    }
  }

  /** Steps that leave contexts, threads and the record of commands alone. */
  lemma ContextFrame(c: Config, s: State, s': State)
    requires Shaped(c, s) && Shaped(c, s') && ContextInv(c, s)
    requires s'.egl == s.egl && s'.tls == s.tls && s'.hist.log == s.hist.log
    requires s'.hist.runs == s.hist.runs && s'.hist.done == s.hist.done
    requires !s.stub.pc.Unlocked? && s.stub.op.MakeCurrent? ==>
               !s'.stub.pc.Unlocked? && s'.stub.op == s.stub.op && s'.stub.tid == s.stub.tid
    requires Published(s.stub.pc) && s.stub.op.MakeCurrent? && s.stub.sn >= |s.hist.runs| ==>
               Published(s'.stub.pc) && s'.stub.sn == s.stub.sn && s'.stub.op == s.stub.op
    requires HolderOk(s')
    requires s'.proxy.pc.Enter? ==> s.proxy.pc.Enter? && s'.ring.completed == s.ring.completed
    requires Started(s'.proxy.pc) && ProxySlot(c, s').op.MakeCurrent? ==> ProxySlot(c, s').result == 1
    ensures ContextInv(c, s')
  {
    ThreadsFrame(s, s');
    UnservedFrame(s, s');
    RunsFrame(s, s');
  }

  lemma FillHolder(c: Config, s: State, st: FillStep)
    requires Shaped(c, s) && HolderOk(s) && CanFill(c, s, st)
    requires !st.DoLock? && !st.DoRedundant? && !st.DoFill?
    ensures HolderOk(DoFillStep(c, s, st))
  {
    if !Local(st) {
      StoreHolder(c, s, st);
    }
  }

  lemma StoreHolder(c: Config, s: State, st: FillStep)
    requires Shaped(c, s) && HolderOk(s) && CanFill(c, s, st) && (st.DoCopy? || st.DoRecord? || st.DoSend?)
    ensures HolderOk(DoFillStep(c, s, st))
  {
  }

  /** A store into the slot being filled is no store into the slot being served. */
  lemma FillServed(c: Config, s: State, st: FillStep)
    requires RingInv(c, s) && CanFill(c, s, st) && Shaped(c, DoFillStep(c, s, st)) && Started(s.proxy.pc)
    ensures ProxySlot(c, DoFillStep(c, s, st)) == ProxySlot(c, s)
  {
    if Unpublished(s.stub.pc) {
      FilledSlotApart(c, s);
    }
  }

  lemma AskHolder(c: Config, s: State, st: AskStep)
    requires Shaped(c, s) && Counters(c, s) && CallInLog(s) && Targets(c, s) && AnswerStays(c, s)
    requires HolderOk(s) && SwitchSucceeds(c, s) && TakenSoFar(s)
    requires CanAsk(s, st) && !st.DoPublish? && !st.DoReturn?
    ensures HolderOk(DoAskStep(c, s, st))
  {
  }

  /** The store of target_ctx notes which surfaces the issuer means. */
  lemma FillStores(c: Config, s: State)
    requires Shaped(c, s) && ContextInv(c, s) && s.stub.pc.Filling? && s.stub.pc.k < 4
    requires Shaped(c, FillSlot(c, s))
    requires Started(s.proxy.pc) ==> ProxySlot(c, FillSlot(c, s)) == ProxySlot(c, s)
    ensures ContextInv(c, FillSlot(c, s))
  {
    assert ThreadOk(s, s.stub.tid);
    ContextFrame(c, s, FillSlot(c, s));
  }

  /** The opcode goes in, and eglMakeCurrent sets g_stub_current_ctx. */
  lemma FillOpcode(c: Config, s: State)
    requires Shaped(c, s) && ContextInv(c, s) && s.stub.pc == Filling(4)
    requires Shaped(c, FillSlot(c, s))
    requires Started(s.proxy.pc) ==> ProxySlot(c, FillSlot(c, s)) == ProxySlot(c, s)
    ensures ContextInv(c, FillSlot(c, s))
  {
    var s' := FillSlot(c, s);
    forall t | t in s'.tls ensures ThreadOk(s', t) {
      assert ThreadOk(s, t);
    }
    UnservedFrame(s, s');
    RunsFrame(s, s');
  }

  lemma FillOthers(c: Config, s: State, st: FillStep)
    requires Shaped(c, s) && ContextInv(c, s) && CanFill(c, s, st) && Shaped(c, DoFillStep(c, s, st))
    requires !st.DoLock? && !st.DoRedundant? && !st.DoFill?
    requires Started(s.proxy.pc) ==> ProxySlot(c, DoFillStep(c, s, st)) == ProxySlot(c, s)
    ensures ContextInv(c, DoFillStep(c, s, st))
  {
    FillHolder(c, s, st);
    if Local(st) {
      FillLocal(c, s, st);
    } else {
      FillShared(c, s, st);
    }
  }

  lemma FillLocal(c: Config, s: State, st: FillStep)
    requires Shaped(c, s) && ContextInv(c, s) && CanFill(c, s, st) && Shaped(c, DoFillStep(c, s, st))
    requires st.DoReserve? || st.DoData? || st.DoAlloc?
    requires HolderOk(DoFillStep(c, s, st))
    ensures ContextInv(c, DoFillStep(c, s, st))
  {
    ContextFrame(c, s, DoFillStep(c, s, st));
  }

  lemma FillShared(c: Config, s: State, st: FillStep)
    requires Shaped(c, s) && ContextInv(c, s) && CanFill(c, s, st) && Shaped(c, DoFillStep(c, s, st))
    requires st.DoCopy? || st.DoRecord? || st.DoSend?
    requires HolderOk(DoFillStep(c, s, st))
    requires Started(s.proxy.pc) ==> ProxySlot(c, DoFillStep(c, s, st)) == ProxySlot(c, s)
    ensures ContextInv(c, DoFillStep(c, s, st))
  {
    match st
    case DoCopy => ContextFrame(c, s, CopyData(c, s));
    case DoRecord => RecordContexts(c, s);
    case DoSend => ContextFrame(c, s, StoreNeeds(c, s));
  }

  lemma RecordContexts(c: Config, s: State)
    requires Shaped(c, s) && ContextInv(c, s) && s.stub.pc.Record? && Shaped(c, RecordData(c, s))
    requires HolderOk(RecordData(c, s))
    requires Started(s.proxy.pc) ==> ProxySlot(c, RecordData(c, s)) == ProxySlot(c, s)
    ensures ContextInv(c, RecordData(c, s))
  {
    ContextFrame(c, s, RecordData(c, s));
  }

  lemma FillKeepsContexts(c: Config, s: State, st: FillStep)
    requires RingInv(c, s) && ArenaInv(c, s) && ContextInv(c, s) && CanFill(c, s, st)
    requires Shaped(c, DoFillStep(c, s, st))
    ensures ContextInv(c, DoFillStep(c, s, st))
  {
    if Started(s.proxy.pc) {
      FillServed(c, s, st);
    }
    match st
    case DoLock(tid, op, mode) => LockContexts(c, s, tid, op, mode);
    case DoRedundant(tid, surfaces, ctx) => FilterIsInvisible(c, s, st);
    case DoFill =>
      if s.stub.pc.k < 4 {
        FillStores(c, s);
      } else {
        FillOpcode(c, s);
      }
    case _ => FillOthers(c, s, st);
  }

  lemma PublishContexts(c: Config, s: State)
    requires RingInv(c, s) && ArenaInv(c, s) && ContextInv(c, s) && s.stub.pc.Publish?
    ensures ContextInv(c, PublishSlot(c, s))
  {
    var s' := PublishSlot(c, s);
    ThreadsFrame(s, s');
    forall q | |s'.hist.runs| <= q < |s'.hist.log| ensures UnservedOk(s', q) {
      if q < |s.hist.log| {
        assert UnservedOk(s, q);
      }
    }
    forall k | 0 <= k < |s'.hist.runs| ensures RanInContext(s', k) {
      assert RanInContext(s, k);
    }
  }

  lemma ReturnContexts(c: Config, s: State)
    requires RingInv(c, s) && CallInv(c, s) && ContextInv(c, s) && s.stub.pc.Return?
    ensures ContextInv(c, ReturnCall(c, s))
  {
    var s' := ReturnCall(c, s);
    forall t | t in s'.tls ensures ThreadOk(s', t) {
      assert ThreadOk(s, t);
    }
    UnservedFrame(s, s');
    RunsFrame(s, s');
  }

  lemma RunsFrame(s: State, s': State)
    requires RunsInContext(s) && s'.hist.runs == s.hist.runs && s'.hist.log == s.hist.log
    ensures RunsInContext(s')
  {
    forall k | 0 <= k < |s'.hist.runs| ensures RanInContext(s', k) {
      assert RanInContext(s, k);
    }
  }

  lemma AskOthers(c: Config, s: State, st: AskStep)
    requires Shaped(c, s) && Counters(c, s) && CallInLog(s) && CallInv(c, s) && ContextInv(c, s)
    requires CanAsk(s, st) && !st.DoPublish? && !st.DoReturn? && Shaped(c, DoAskStep(c, s, st))
    ensures ContextInv(c, DoAskStep(c, s, st))
  {
    AskHolder(c, s, st);
    match st
    case DoLoadWaiting => LoadContexts(c, s);
    case DoPostReq => PostContexts(c, s);
    case _ => AwaitContexts(c, s, st);
  }

  lemma LoadContexts(c: Config, s: State)
    requires Shaped(c, s) && ContextInv(c, s) && s.stub.pc.LoadWaiting? && HolderOk(LoadWaitingFlag(c, s))
    ensures ContextInv(c, LoadWaitingFlag(c, s))
  {
    if s.ring.waiting {
      ContextFrame(c, s, LoadWaitingFlag(c, s));
    } else {
      SentOff(c, s);
    }
  }

  lemma PostContexts(c: Config, s: State)
    requires Shaped(c, s) && ContextInv(c, s) && s.stub.pc.PostReq? && HolderOk(PostRequest(c, s))
    ensures Shaped(c, PostRequest(c, s)) && ContextInv(c, PostRequest(c, s))
  {
    var s1 := s.(ring := s.ring.(req := s.ring.req + 1));
    ContextFrame(c, s, s1);
    SentOff(c, s1);
  }

  lemma SentOff(c: Config, s: State)
    requires Shaped(c, s) && ContextInv(c, s) && Published(s.stub.pc) && HolderOk(AfterPublish(c, s))
    ensures ContextInv(c, AfterPublish(c, s))
  {
    ContextFrame(c, s, AfterPublish(c, s));
  }

  lemma AwaitContexts(c: Config, s: State, st: AskStep)
    requires Shaped(c, s) && ContextInv(c, s) && CanAsk(s, st) && Shaped(c, DoAskStep(c, s, st))
    requires (st.DoWait? || st.DoReadResp? || st.DoTake?) && HolderOk(DoAskStep(c, s, st))
    ensures ContextInv(c, DoAskStep(c, s, st))
  {
    match st
    case DoWait(sleep) => ContextFrame(c, s, WaitCompleted(c, s, sleep));
    case DoReadResp => ContextFrame(c, s, ReadResponse(s));
    case DoTake => TakeContexts(c, s);
  }

  lemma TakeContexts(c: Config, s: State)
    requires Shaped(c, s) && ContextInv(c, s) && s.stub.pc.Take? && Shaped(c, TakeAnswer(c, s))
    requires HolderOk(TakeAnswer(c, s))
    ensures ContextInv(c, TakeAnswer(c, s))
  {
    ContextFrame(c, s, TakeAnswer(c, s));
  }

  lemma AskKeepsContexts(c: Config, s: State, st: AskStep)
    requires RingInv(c, s) && ArenaInv(c, s) && WakeInv(c, s) && CallInv(c, s) && ContextInv(c, s)
    requires CanAsk(s, st) && Shaped(c, DoAskStep(c, s, st))
    ensures ContextInv(c, DoAskStep(c, s, st))
  {
    match st
    case DoPublish => PublishContexts(c, s);
    case DoReturn => ReturnContexts(c, s);
    case _ => AskOthers(c, s, st);
  }

  lemma IdleKeepsContexts(c: Config, s: State, st: IdleStep)
    requires RingInv(c, s) && ContextInv(c, s) && CanIdle(s, st) && Shaped(c, DoIdleStep(s, st))
    ensures ContextInv(c, DoIdleStep(s, st))
  {
    ContextFrame(c, s, DoIdleStep(s, st));
  }

  // ---- Proxy ------------------------------------------------------------------------------

  /** egl_bind_target_ctx reaches every context below MAX_CONTEXTS; the last index only if it is
      already current. */
  lemma BindReaches(e: Egl, ctx: nat)
    requires |e.bindings| == EGL_MAX_CONTEXTS + 1 && DriverTracked(e)
    requires 1 <= ctx <= EGL_MAX_CONTEXTS && e.bindings[ctx].Some?
    ensures var e' := BindTarget(e, ctx);
      && DriverTracked(e') && e'.bindings == e.bindings
      && (e'.driver == Some(Current(e.bindings[ctx].value, ctx)) <==> ctx < MAX_CONTEXTS || e.current == ctx)
  {
  }

  /** Without a context, or with one that has no surfaces recorded, the driver is left as it is. */
  lemma BindLeaves(e: Egl, ctx: nat)
    requires |e.bindings| == EGL_MAX_CONTEXTS + 1
    requires 1 <= ctx <= EGL_MAX_CONTEXTS ==> e.bindings[ctx].None?
    ensures BindTarget(e, ctx) == e
  {
  }

  /** After eglMakeCurrent the driver has what was asked for, nothing for context 0, and no other record has changed. */
  lemma SwitchReaches(e: Egl, surfaces: Surfaces, ctx: nat)
    requires |e.bindings| == EGL_MAX_CONTEXTS + 1 && ctx <= EGL_MAX_CONTEXTS
    ensures var e' := SwitchTo(e, surfaces, ctx);
      && DriverTracked(e') && e'.current == ctx
      && (e'.driver == if ctx == 0 then None else Some(Current(surfaces, ctx)))
      && forall b :: 0 <= b <= EGL_MAX_CONTEXTS && (b != ctx || b == 0) ==> e'.bindings[b] == e.bindings[b]
  {
  }

  /** Two threads, contexts 1 and 8: the command of the second runs in context 1. */
  lemma LastContextUnreachable(e: Egl, a: Surfaces, b: Surfaces)
    requires |e.bindings| == EGL_MAX_CONTEXTS + 1
    ensures var e1 := SwitchTo(SwitchTo(e, a, 8), b, 1);
      BindTarget(BindTarget(e1, 1), 8).driver == Some(Current(b, 1))
  {
  }

  lemma BindContexts(c: Config, s: State)
    requires RingInv(c, s) && ArenaInv(c, s) && ContextInv(c, s) && s.proxy.pc.Bind?
    requires Shaped(c, BindContext(c, s))
    ensures ContextInv(c, BindContext(c, s))
  {
    var s', q := BindContext(c, s), s.ring.completed;
    assert Core(s.ring.slots[Index(c, q)]) == s.hist.log[q].core;
    assert EntryOk(c, s.hist.log[q], s.hist.mem);
    assert UnservedOk(s, q);
    forall t | t in s'.tls ensures ThreadOk(s', t) {
      assert ThreadOk(s, t);
    }
    forall r | |s'.hist.runs| <= r < |s'.hist.log| ensures UnservedOk(s', r) {
      assert UnservedOk(s, r);
    }
    RunsFrame(s, s');
  }

  lemma EnterContexts(c: Config, s: State)
    requires RingInv(c, s) && ArenaInv(c, s) && CallInLog(s) && ContextInv(c, s) && s.proxy.pc.Enter?
    requires Shaped(c, EnterHandler(c, s))
    ensures ContextInv(c, EnterHandler(c, s))
  {
    var s', q := EnterHandler(c, s), s.ring.completed;
    assert Core(s.ring.slots[Index(c, q)]) == s.hist.log[q].core;
    assert EntryOk(c, s.hist.log[q], s.hist.mem);
    assert UnservedOk(s, q);
    EnterThreads(c, s);
    EnterUnserved(c, s);
    EnterRuns(c, s);
  }

  lemma EnterRuns(c: Config, s: State)
    requires RingInv(c, s) && ArenaInv(c, s) && CallInLog(s) && ContextInv(c, s) && s.proxy.pc.Enter?
    requires Shaped(c, EnterHandler(c, s))
    ensures RunsInContext(EnterHandler(c, s))
  {
    var s', q := EnterHandler(c, s), s.ring.completed;
    assert Core(s.ring.slots[Index(c, q)]) == s.hist.log[q].core;
    assert EntryOk(c, s.hist.log[q], s.hist.mem);
    assert UnservedOk(s, q);
    forall k | 0 <= k < |s'.hist.runs| ensures RanInContext(s', k) {
      if k < |s.hist.runs| {
        assert RanInContext(s, k);
      }
    }
  }

  lemma EnterUnserved(c: Config, s: State)
    requires RingInv(c, s) && ArenaInv(c, s) && CallInLog(s) && ContextInv(c, s) && s.proxy.pc.Enter?
    requires Shaped(c, EnterHandler(c, s))
    ensures Unserved(EnterHandler(c, s))
  {
    var s', q := EnterHandler(c, s), s.ring.completed;
    assert Core(s.ring.slots[Index(c, q)]) == s.hist.log[q].core;
    assert EntryOk(c, s.hist.log[q], s.hist.mem);
    assert UnservedOk(s, q);
    forall r | |s'.hist.runs| <= r < |s'.hist.log| ensures UnservedOk(s', r) {
      assert UnservedOk(s, r);
    }
  }

  /** A switch by the handler agrees with what the threads remember. */
  lemma EnterThreads(c: Config, s: State)
    requires RingInv(c, s) && ArenaInv(c, s) && CallInLog(s) && ContextInv(c, s) && s.proxy.pc.Enter?
    requires Shaped(c, EnterHandler(c, s))
    ensures ThreadsOk(EnterHandler(c, s))
  {
    var s', q := EnterHandler(c, s), s.ring.completed;
    assert Core(s.ring.slots[Index(c, q)]) == s.hist.log[q].core;
    assert EntryOk(c, s.hist.log[q], s.hist.mem);
    assert UnservedOk(s, q);
    forall t | t in s'.tls ensures ThreadOk(s', t) {
      assert ThreadOk(s, t);
    }
  }

  lemma FinishContexts(c: Config, s: State)
    requires RingInv(c, s) && ArenaInv(c, s) && ContextInv(c, s) && s.proxy.pc.Run?
    requires Shaped(c, FinishHandler(c, s))
    ensures ContextInv(c, FinishHandler(c, s))
  {
    var s', q := FinishHandler(c, s), s.ring.completed;
    assert Core(s.ring.slots[Index(c, q)]) == s.hist.log[q].core;
    assert EntryOk(c, s.hist.log[q], s.hist.mem);
    ThreadsFrame(s, s');
    UnservedFrame(s, s');
    RunsFrame(s, s');
  }

  lemma HandlerContexts(c: Config, s: State, st: ServeStep)
    requires RingInv(c, s) && ContextInv(c, s) && CanServe(c, s, st) && Shaped(c, DoServeStep(c, s, st))
    requires st.HandlerWrite? || st.HandlerResult? || st.HandlerResultLen? || st.HandlerResultBuf?
    ensures ContextInv(c, DoServeStep(c, s, st))
  {
    ContextFrame(c, s, DoServeStep(c, s, st));
  }

  lemma ServeKeepsContexts(c: Config, s: State, st: ServeStep)
    requires RingInv(c, s) && ArenaInv(c, s) && CallInLog(s) && ContextInv(c, s) && CanServe(c, s, st)
    requires Shaped(c, DoServeStep(c, s, st))
    ensures ContextInv(c, DoServeStep(c, s, st))
  {
    match st
    case DoBind => BindContexts(c, s);
    case DoEnter => EnterContexts(c, s);
    case HandlerDone => FinishContexts(c, s);
    case HandlerWrite(_, _) => HandlerContexts(c, s, st);
    case HandlerResult(_) => HandlerContexts(c, s, st);
    case HandlerResultLen(_) => HandlerContexts(c, s, st);
    case HandlerResultBuf(_) => HandlerContexts(c, s, st);
    case _ => ReleaseContexts(c, s, st);
  }

  lemma ReleaseContexts(c: Config, s: State, st: ServeStep)
    requires RingInv(c, s) && ContextInv(c, s) && CanServe(c, s, st) && Shaped(c, DoServeStep(c, s, st))
    requires st.DoRelease? || st.DoStoreTail? || st.DoLoadNeeds? || st.DoComplete? || st.DoPostResp?
    ensures ContextInv(c, DoServeStep(c, s, st))
  {
    ContextFrame(c, s, DoServeStep(c, s, st));
  }

  lemma StepKeepsContexts(c: Config, s: State, st: Step)
    requires RingInv(c, s) && ArenaInv(c, s) && WakeInv(c, s) && CallInv(c, s) && ContextInv(c, s)
    requires Enabled(c, s, st)
    ensures Shaped(c, Apply(c, s, st)) && ContextInv(c, Apply(c, s, st))
  {
    StepKeepsShape(c, s, st);
    match st
    case Fill(f) => FillKeepsContexts(c, s, f);
    case Ask(a) => AskKeepsContexts(c, s, a);
    case Idle(i) => IdleKeepsContexts(c, s, i);
    case Serve(v) => ServeKeepsContexts(c, s, v);
  }
}
