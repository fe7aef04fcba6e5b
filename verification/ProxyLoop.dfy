/** proxy/proxy.c: the dispatch loop, with the context switching of proxy/protocol/egl.c, as the code does it
    in place. Clients run between any two accesses to the shared memory. */
module ProxyLoop {
  import opened RingConfig
  import opened BridgeModel
  import opened BridgeRing
  import opened BridgeArena
  import opened BridgeWake
  import opened BridgeTheorems
  import opened BridgeMemory
  import opened BridgeReports
  import opened Options

  /** What the proxy may rely on while clients run. */
  predicate ClientsOnly(c: Config, s: State, s': State)
    requires Shaped(c, s) && Shaped(c, s')
  {
    && s'.proxy == s.proxy && s'.egl == s.egl
    && s'.ring.completed == s.ring.completed && s'.ring.tail == s.ring.tail && s'.ring.waiting == s.ring.waiting
    && s.ring.published <= s'.ring.published && s.ring.req <= s'.ring.req
    && (s.ring.completed < s.ring.published ==> ProxySlot(c, s') == ProxySlot(c, s))
    && s'.hist.runs == s.hist.runs && s'.hist.done == s.hist.done && s'.hist.reports == s.hist.reports
    && s.hist.log <= s'.hist.log && s'.ring.resultBuf == s.ring.resultBuf
  }

  lemma FillStepKeeps(c: Config, s: State, st: FillStep)
    requires RingInv(c, s) && CanFill(c, s, st) && Shaped(c, DoFillStep(c, s, st))
    ensures ClientsOnly(c, s, DoFillStep(c, s, st))
  {
    if st.DoFill? || st.DoRecord? || st.DoSend? {
      FilledSlotApart(c, s);
      StoreStepKeeps(c, s, st);
    }
  }

  lemma StoreStepKeeps(c: Config, s: State, st: FillStep)
    requires Shaped(c, s) && CanFill(c, s, st) && Shaped(c, DoFillStep(c, s, st))
    requires st.DoFill? || st.DoRecord? || st.DoSend?
    requires s.ring.completed < s.ring.published ==> Index(c, s.ring.completed) != Index(c, s.stub.sn)
    ensures ClientsOnly(c, s, DoFillStep(c, s, st))
  {
  }

  lemma AskStepKeeps(c: Config, s: State, st: AskStep)
    requires RingInv(c, s) && CanAsk(s, st) && Shaped(c, DoAskStep(c, s, st))
    ensures ClientsOnly(c, s, DoAskStep(c, s, st))
  {
    if st.DoLoadWaiting? || st.DoPostReq? {
      SentStepKeeps(c, s, st);
    }
  }

  lemma SentStepKeeps(c: Config, s: State, st: AskStep)
    requires Shaped(c, s) && CanAsk(s, st) && (st.DoLoadWaiting? || st.DoPostReq?)
    ensures Shaped(c, DoAskStep(c, s, st)) && ClientsOnly(c, s, DoAskStep(c, s, st))
  {
  }

  /** Every step of a client respects it. */
  lemma ClientsStep(c: Config, s: State, st: Step)
    requires Inv(c, s) && Enabled(c, s, st) && (st.Fill? || st.Ask?)
    ensures Shaped(c, Apply(c, s, st)) && ClientsOnly(c, s, Apply(c, s, st))
  {
    StepKeepsShape(c, s, st);
    if st.Fill? {
      FillStepKeeps(c, s, st.f);
    } else {
      AskStepKeeps(c, s, st.a);
    }
  }

  /** So does every run of clients: this is all that ClientsRun promises its callers. */
  lemma {:induction false} ClientsRuns(c: Config, s: State, steps: seq<Step>)
    requires Reachable(c, s) && IsRun(c, s, steps)
    requires forall i :: 0 <= i < |steps| ==> steps[i].Fill? || steps[i].Ask?
    ensures Reachable(c, After(c, s, steps)) && ClientsOnly(c, s, After(c, s, steps))
    decreases |steps|
  {
    if steps != [] {
      ReachableInv(c, s);
      ClientsStep(c, s, steps[0]);
      ReachableStep(c, s, steps[0]);
      ClientsRuns(c, Apply(c, s, steps[0]), steps[1..]);
    }
  }

  /** What a handler stores of the driver's answer */
  datatype Outcome = Outcome(result: Option<int>, resLen: Option<nat>, buf: Option<seq<byte>>)

  function Stored(o: Outcome): Report {
    Report(o.result, if o.resLen.Some? then o.resLen.value else 0, o.buf)
  }

  /** At the end of a handler call the answer is what it stored. */
  lemma LastReport(c: Config, s: State)
    requires Reachable(c, s) && s.proxy.pc.Release?
    ensures |s.hist.done| == |s.hist.runs| == |s.hist.reports| > 0
    ensures var n := |s.hist.done| - 1; Told(s.hist.reports[n], s.hist.done[n])
  {
    ReachableReports(c, s);
  }

  lemma RunningReport(c: Config, s: State)
    requires Reachable(c, s) && (s.proxy.pc.Enter? || s.proxy.pc.Run?)
    ensures |s.hist.runs| == |s.hist.reports| == |s.hist.done| + if s.proxy.pc.Run? then 1 else 0
  {
    ReachableReports(c, s);
  }

  /** The k-th command was the k-th to be dispatched, as it was published. */
  lemma DispatchedInOrder(c: Config, s: State, n: nat)
    requires Reachable(c, s) && n <= |s.hist.runs|
    ensures |s.hist.runs| <= |s.hist.log|
    ensures forall k :: 0 <= k < n ==> s.hist.runs[k].core == s.hist.log[k].core
  {
    DispatchIsFaithful(c, s);
  }

  lemma RunsCounted(c: Config, s: State)
    requires Reachable(c, s) && s.proxy.pc.Poll?
    ensures |s.hist.runs| == |s.hist.done| == s.ring.completed
  {
    ReachableInv(c, s);
  }

  class Egl {
    var currentCtx: nat
    var driver: Option<Current>
    const bindings: array<Option<Surfaces>>

    ghost predicate Valid()
      reads this, bindings
    {
      bindings.Length == EGL_MAX_CONTEXTS + 1
    }

    ghost function View(): BridgeModel.Egl
      reads this, bindings
    {
      BridgeModel.Egl(currentCtx, driver, bindings[..])
    }

    constructor ()
      ensures Valid() && fresh(bindings)
      ensures View() == BridgeModel.Egl(0, None, [None, None, None, None, None, None, None, None, None])
    {
      bindings := new Option<Surfaces>[EGL_MAX_CONTEXTS + 1](_ => None);
      currentCtx, driver := 0, None;
      new;
      assert bindings[..] == [None, None, None, None, None, None, None, None, None];
    }

    /** egl_bind_target_ctx; driver stands for the driver's current context. */
    method EglBindTargetCtx(ctx: nat)
      requires Valid()
      modifies this
      ensures Valid() && View() == BindTarget(old(View()), ctx)
    {
      if ctx == 0 || ctx == currentCtx || ctx >= MAX_CONTEXTS {
        return;
      }
      var b := bindings[ctx];
      if b.None? {
        return;
      }
      driver := Some(Current(b.value, ctx));
      currentCtx := ctx;
    }

    /** h_eglMakeCurrent */
    method HEglMakeCurrent(surfaces: Surfaces, ctx: nat)
      requires Valid() && ctx <= EGL_MAX_CONTEXTS
      modifies this, bindings
      ensures Valid() && View() == SwitchTo(old(View()), surfaces, ctx)
    {
      driver := if ctx == 0 then None else Some(Current(surfaces, ctx));
      currentCtx := ctx;
      if ctx != 0 && ctx <= EGL_MAX_CONTEXTS {
        bindings[ctx] := Some(surfaces);
      }
    }
  }

  class Proxy {
    const ring: Shared
    const egl: Egl
    var completed: nat

    ghost predicate Valid()
      reads this, ring, ring.slots, ring.arena, egl, egl.bindings
    {
      ring.Valid() && egl.Valid() && completed == ring.completedSeq && egl.View() == ring.at.egl
    }

    constructor (ring: Shared, egl: Egl)
      requires ring.Valid() && Init(ring.c, ring.at) && egl.Valid() && egl.View() == ring.at.egl
      ensures Valid() && this.ring == ring && this.egl == egl
    {
      this.ring, this.egl, completed := ring, egl, 0;
    }

    /** Clients take any number of steps. Callers know this contract only; the empty run meets it. */
    method ClientsRun()
      requires Valid()
      modifies ring, ring.slots, ring.arena
      ensures Valid() && ClientsOnly(ring.c, old(ring.at), ring.at)
    {
    }

    /** The idle half of the loop: spin, then announce, look again and sleep. False if the proxy sleeps on. */
    method AwaitWork(spins: nat) returns (found: bool)
      requires Valid() && ring.at.proxy.pc == Poll
      modifies ring, ring.slots, ring.arena
      ensures Valid() && ring.at.hist.runs == old(ring.at.hist.runs)
      ensures found ==> ring.at.proxy.pc == Bind && completed < ring.publishedSeq
      ensures !found ==> ring.at.proxy.pc == Poll || ProxyAsleep(ring.at)
      ensures completed < old(ring.publishedSeq) ==> found
    {
      var n := 0;
      while n <= spins
        invariant n <= spins + 1 && Valid()
        invariant ClientsOnly(ring.c, old(ring.at), ring.at.(proxy := old(ring.at.proxy)))
        invariant ring.at.proxy.pc == if n <= spins then Poll else SetWaiting
        invariant n > 0 ==> old(ring.publishedSeq) <= completed
      {
        ClientsRun();
        ring.Idle(DoPoll(n == spins));
        if completed < ring.publishedSeq {
          return true;
        }
        n := n + 1;
      }
      GoToSleep();
      found := false;
    }

    /** consumer_waiting goes up, published_seq is read again, req_efd is read, the flag comes down. */
    method GoToSleep()
      requires Valid() && ring.at.proxy.pc == SetWaiting
      modifies ring, ring.slots, ring.arena
      ensures Valid() && ring.at.hist.runs == old(ring.at.hist.runs)
      ensures ring.at.proxy.pc == Poll || ProxyAsleep(ring.at)
      ensures old(ring.publishedSeq) > completed ==> ring.at.proxy.pc == Poll
    {
      var empty := Announce();
      if empty {
        ClientsRun();
        if ring.reqEfd == 0 {
          return;
        }
        ring.reqEfd := 0;
        ring.Idle(DoReadReq);
      }
      WakeUp();
    }

    /** consumer_waiting, and a second look */
    method Announce() returns (empty: bool)
      requires Valid() && ring.at.proxy.pc == SetWaiting
      modifies ring, ring.slots, ring.arena
      ensures Valid() && ring.at.hist.runs == old(ring.at.hist.runs)
      ensures ring.at.proxy.pc == (if empty then ReadReq else ClearWaiting)
      ensures old(ring.publishedSeq) > completed ==> !empty
    {
      ClientsRun();
      ring.consumerWaiting := true;
      ring.Idle(DoSetWaiting);
      ClientsRun();
      empty := completed >= ring.publishedSeq;
      ring.Idle(DoPollAgain);
    }

    method WakeUp()
      requires Valid() && ring.at.proxy.pc == ClearWaiting
      modifies ring, ring.slots, ring.arena
      ensures Valid() && ring.at.hist.runs == old(ring.at.hist.runs) && ring.at.proxy.pc == Poll
    {
      ClientsRun();
      ring.consumerWaiting := false;
      ring.Idle(DoClearWaiting);
    }

    /** ring->slots[completed & mask] */
    function Slot(): (s: BridgeModel.Slot)
      reads this, ring, ring.slots, ring.arena, egl, egl.bindings
      requires Valid()
      ensures s == ProxySlot(ring.c, ring.at)
    {
      ring.slots[ring.SlotIndex(completed)]
    }

    /** Switch to the issuer's context, except for eglMakeCurrent, which carries the previous one. */
    method BindTarget()
      requires Valid() && ring.at.proxy.pc == Bind && completed < ring.publishedSeq
      modifies ring, ring.slots, ring.arena, egl
      ensures old(ring.publishedSeq) <= ring.publishedSeq
      ensures Valid() && ring.at.proxy.pc == Enter && completed < ring.publishedSeq
      ensures ring.at.hist.runs == old(ring.at.hist.runs) && ring.at.hist.done == old(ring.at.hist.done)
    {
      ClientsRun();
      var slot := Slot();
      if !slot.op.MakeCurrent? {
        egl.EglBindTargetCtx(slot.ctx);
      }
      ring.Serve(DoBind);
    }

    /** dispatch_table[opc]: eglMakeCurrent switches at once; any other handler is its driver's outcome. */
    method Dispatch(o: Outcome)
      requires Valid() && ring.at.proxy.pc == Enter && completed < ring.publishedSeq
      modifies ring, ring.slots, ring.arena, egl, egl.bindings
      ensures old(ring.publishedSeq) <= ring.publishedSeq
      ensures Valid() && ring.at.proxy.pc == Release && completed < ring.publishedSeq
      ensures |ring.at.hist.runs| == |old(ring.at.hist.runs)| + 1 && old(ring.at.hist.runs) <= ring.at.hist.runs
      ensures |ring.at.hist.done| == |old(ring.at.hist.done)| + 1 && old(ring.at.hist.done) <= ring.at.hist.done
      ensures var n := |old(ring.at.hist.runs)|;
        !ring.at.hist.runs[n].core.op.MakeCurrent? ==>
          Told(Stored(o), ring.at.hist.done[|old(ring.at.hist.done)|])
    {
      EnterHandler();
      if !Slot().op.MakeCurrent? {
        StoreOutcome(o);
      }
      ClientsRun();
      ring.Serve(HandlerDone);
      LastReport(ring.c, ring.at);
    }

    method EnterHandler()
      requires Valid() && ring.at.proxy.pc == Enter && completed < ring.publishedSeq
      modifies ring, ring.slots, ring.arena, egl, egl.bindings
      ensures old(ring.publishedSeq) <= ring.publishedSeq
      ensures Valid() && ring.at.proxy.pc == Run && completed < ring.publishedSeq
      ensures |ring.at.hist.runs| == |old(ring.at.hist.runs)| + 1 && old(ring.at.hist.runs) <= ring.at.hist.runs
      ensures ring.at.hist.runs[|old(ring.at.hist.runs)|].core.op == Slot().op
      ensures ring.at.hist.done == old(ring.at.hist.done) && |ring.at.hist.reports| == |ring.at.hist.runs|
      ensures !Slot().op.MakeCurrent? ==> ring.at.hist.reports[|old(ring.at.hist.runs)|] == Report(None, 0, None)
    {
      ClientsRun();
      RunningReport(ring.c, ring.at);
      var slot := Slot();
      if slot.op.MakeCurrent? && slot.op.ctx <= EGL_MAX_CONTEXTS {
        egl.HEglMakeCurrent(slot.op.surfaces, slot.op.ctx);
        ring.slots[ring.SlotIndex(completed)] := slot.(result := 1);
      }
      ring.Serve(DoEnter);
    }

    method StoreOutcome(o: Outcome)
      requires Valid() && ring.at.proxy.pc == Run && completed < ring.publishedSeq && !Slot().op.MakeCurrent?
      requires var r := ring.at.hist.reports; r != [] && r[|r| - 1] == Report(None, 0, None)
      modifies ring, ring.slots
      ensures old(ring.publishedSeq) <= ring.publishedSeq
      ensures Valid() && ring.at.proxy.pc == Run && completed < ring.publishedSeq
      ensures var r := old(ring.at.hist.reports);
        ring.at.hist == old(ring.at.hist).(reports := r[|r| - 1 := Stored(o)])
      ensures ring.at.egl == old(ring.at.egl) && !Slot().op.MakeCurrent?
    {
      StoreResult(o.result);
      StoreLength(o.resLen);
      if o.buf.Some? {
        ring.resultBuf := o.buf.value;
        ring.Serve(HandlerResultBuf(o.buf.value));
      }
    }

    method StoreResult(result: Option<int>)
      requires Valid() && ring.at.proxy.pc == Run && !Slot().op.MakeCurrent? && ring.at.hist.reports != []
      modifies ring`at, ring.slots
      ensures Valid() && ring.at.proxy == old(ring.at.proxy) && !Slot().op.MakeCurrent? && ring.at.egl == old(ring.at.egl)
      ensures var r := old(ring.at.hist.reports); var l := r[|r| - 1];
        ring.at.hist == old(ring.at.hist).(reports := r[|r| - 1 := if result.Some? then l.(result := result) else l])
    {
      if result.Some? {
        ring.slots[ring.SlotIndex(completed)] := Slot().(result := result.value);
        ring.Serve(HandlerResult(result.value));
      }
    }

    method StoreLength(resLen: Option<nat>)
      requires Valid() && ring.at.proxy.pc == Run && !Slot().op.MakeCurrent? && ring.at.hist.reports != []
      modifies ring`at, ring.slots
      ensures Valid() && ring.at.proxy == old(ring.at.proxy) && !Slot().op.MakeCurrent? && ring.at.egl == old(ring.at.egl)
      ensures var r := old(ring.at.hist.reports); var l := r[|r| - 1];
        ring.at.hist == old(ring.at.hist).(reports := r[|r| - 1 := if resLen.Some? then l.(resLen := resLen.value) else l])
    {
      if resLen.Some? {
        ring.slots[ring.SlotIndex(completed)] := Slot().(resLen := resLen.value);
        ring.Serve(HandlerResultLen(resLen.value));
      }
    }

    /** Give the payload range back, count the command as completed, answer if asked to. */
    method Finish()
      requires Valid() && ring.at.proxy.pc == Release && completed < ring.publishedSeq
      modifies this, ring, ring.slots, ring.arena
      ensures old(ring.publishedSeq) <= ring.publishedSeq
      ensures Valid() && ring.at.proxy.pc == Poll && completed == old(completed) + 1
      ensures ring.at.hist.runs == old(ring.at.hist.runs) && ring.at.hist.done == old(ring.at.hist.done)
    {
      ReleasePayloads();
      ClientsRun();
      var needs := Slot().needs;
      ring.Serve(DoLoadNeeds);
      Complete(needs);
    }

    method ReleasePayloads()
      requires Valid() && ring.at.proxy.pc == Release && completed < ring.publishedSeq
      modifies ring, ring.slots, ring.arena
      ensures old(ring.publishedSeq) <= ring.publishedSeq
      ensures Valid() && ring.at.proxy.pc == LoadNeeds && completed < ring.publishedSeq
      ensures ring.at.hist.runs == old(ring.at.hist.runs) && ring.at.hist.done == old(ring.at.hist.done)
    {
      ClientsRun();
      var slot := Slot();
      ring.Serve(DoRelease);
      if slot.wmValid {
        ClientsRun();
        ring.dataTail := slot.wm;
        ring.Serve(DoStoreTail);
      }
    }

    method Complete(needs: nat)
      requires Valid() && ring.at.proxy == BridgeModel.Proxy(ProxyPc.Complete, needs) && completed < ring.publishedSeq
      modifies this, ring, ring.slots, ring.arena
      ensures old(ring.publishedSeq) <= ring.publishedSeq
      ensures Valid() && ring.at.proxy.pc == Poll && completed == old(completed) + 1
      ensures ring.at.hist.runs == old(ring.at.hist.runs) && ring.at.hist.done == old(ring.at.hist.done)
    {
      ClientsRun();
      completed := completed + 1;
      ring.completedSeq := completed;
      ring.Serve(DoComplete);
      if needs != 0 {
        PostResponse();
      }
    }

    /** write(resp_efd) */
    method PostResponse()
      requires Valid() && ring.at.proxy.pc == PostResp
      modifies ring, ring.slots, ring.arena
      ensures old(ring.publishedSeq) <= ring.publishedSeq
      ensures Valid() && ring.at.proxy.pc == Poll
      ensures ring.at.hist.runs == old(ring.at.hist.runs) && ring.at.hist.done == old(ring.at.hist.done)
    {
      ClientsRun();
      ring.respEfd := ring.respEfd + 1;
      ring.Serve(DoPostResp);
    }

    /** One round of the loop on a published command */
    method ServeOne(o: Outcome)
      requires Valid() && ring.at.proxy.pc == Poll && completed < ring.publishedSeq
      modifies this, ring, ring.slots, ring.arena, egl, egl.bindings
      ensures Valid() && ring.at.proxy.pc == Poll && completed == old(completed) + 1
      ensures old(ring.publishedSeq) <= ring.publishedSeq
      ensures |ring.at.hist.runs| == |old(ring.at.hist.runs)| + 1 && old(ring.at.hist.runs) <= ring.at.hist.runs
      ensures |ring.at.hist.done| == |old(ring.at.hist.done)| + 1 && old(ring.at.hist.done) <= ring.at.hist.done
      ensures var n := |old(ring.at.hist.runs)|;
        !ring.at.hist.runs[n].core.op.MakeCurrent? ==>
          Told(Stored(o), ring.at.hist.done[|old(ring.at.hist.done)|])
    {
      ring.Idle(DoPoll(false));
      BindTarget();
      Dispatch(o);
      Finish();
    }

    /** The busy half of the loop: dispatch until the ring is empty or the outcomes run out. What the handlers
        got is what was published, in order, each command once. */
    method Drain(outcomes: seq<Outcome>) returns (n: nat)
      requires Valid() && ring.at.proxy.pc == Poll
      modifies this, ring, ring.slots, ring.arena, egl, egl.bindings
      ensures Valid() && ring.at.proxy.pc == Poll && n <= |outcomes| && completed == old(completed) + n
      ensures n == |outcomes| || completed >= old(ring.publishedSeq)
      ensures |ring.at.hist.runs| == completed && old(ring.at.hist.runs) <= ring.at.hist.runs
      ensures forall k :: old(completed) <= k < completed ==>
        k < |ring.at.hist.log| && ring.at.hist.runs[k].core == ring.at.hist.log[k].core
      ensures forall k :: 0 <= k < n && !ring.at.hist.runs[old(completed) + k].core.op.MakeCurrent? ==>
        old(completed) + k < |ring.at.hist.done|
        && Told(Stored(outcomes[k]), ring.at.hist.done[old(completed) + k])
    {
      n := 0;
      RunsCounted(ring.c, ring.at);
      while n < |outcomes|
        invariant Valid() && ring.at.proxy.pc == Poll && n <= |outcomes| && completed == old(completed) + n
        invariant old(ring.publishedSeq) <= ring.publishedSeq
        invariant |ring.at.hist.runs| == |ring.at.hist.done| == completed && old(ring.at.hist.runs) <= ring.at.hist.runs
        invariant forall k :: 0 <= k < n && !ring.at.hist.runs[old(completed) + k].core.op.MakeCurrent? ==>
          Told(Stored(outcomes[k]), ring.at.hist.done[old(completed) + k])
      {
        ClientsRun();
        if completed >= ring.publishedSeq {
          break;
        }
        ServeOne(outcomes[n]);
        n := n + 1;
      }
      DispatchedInOrder(ring.c, ring.at, completed);
    }
  }
}
