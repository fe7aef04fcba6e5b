/** How long a published command waits: a bound on the proxy's own steps, on every run and whatever the clients do. */
module BridgeProgress {
  import opened BridgeModel
  import opened BridgeRing
  import opened BridgeWake
  import opened BridgeTheorems

  /** Steps of the proxy's loop until it completes the command it works on or comes to next */
  function Distance(pc: ProxyPc): (n: nat)
    ensures 1 <= n <= 11
  {
    match pc
    case SetWaiting => 11
    case PollAgain => 10
    case ReadReq => 10
    case ClearWaiting => 9
    case PostResp => 9
    case Poll => 8
    case Bind => 7
    case Enter => 6
    case Run => 5
    case Release => 4
    case StoreTail => 3
    case LoadNeeds => 2
    case Complete => 1
  }

  /** Steps of the proxy's loop until command q is completed */
  function Rank(s: State, q: nat): (n: nat)
    requires s.ring.completed <= q
    ensures 1 <= n
  {
    9 * (q - s.ring.completed) + Distance(s.proxy.pc)
  }

  /** A step of the proxy's loop, as opposed to one of a client or of a handler */
  predicate LoopStep(st: Step) {
    st.Idle? || (st.Serve? && (st.v.DoBind? || st.v.DoEnter? || st.v.HandlerDone? || st.v.DoRelease? || st.v.DoStoreTail?
                               || st.v.DoLoadNeeds? || st.v.DoComplete? || st.v.DoPostResp?))
  }

  function LoopSteps(steps: seq<Step>): (n: nat)
    ensures n <= |steps|
  {
    if steps == [] then 0 else (if LoopStep(steps[0]) then 1 else 0) + LoopSteps(steps[1..])
  }

  /** Command q is published and not completed. */
  predicate Open(s: State, q: nat) {
    s.ring.completed <= q < s.ring.published
  }

  /** Every step of the loop brings the completion of an open command nearer, and no other step delays it. */
  lemma StepCloser(c: Config, s: State, st: Step, q: nat)
    requires RingInv(c, s) && Enabled(c, s, st) && Open(s, q)
    ensures var s' := Apply(c, s, st);
      Open(s', q) ==> Rank(s', q) <= Rank(s, q) - if LoopStep(st) then 1 else 0
    ensures !Open(Apply(c, s, st), q) ==> Apply(c, s, st).ring.completed == q + 1
  {
    match st
    case Fill(f) => FillLeaves(c, s, f);
    case Ask(a) => AskLeaves(c, s, a);
    case Idle(i) => IdleLeaves(s, i);
    case Serve(v) => ServeLeaves(c, s, v);
  }

  lemma FillLeaves(c: Config, s: State, st: FillStep)
    requires Shaped(c, s) && CanFill(c, s, st)
    ensures var s' := DoFillStep(c, s, st);
      s'.proxy == s.proxy && s'.ring.completed == s.ring.completed && s'.ring.published == s.ring.published
  {
  }

  lemma AskLeaves(c: Config, s: State, st: AskStep)
    requires RingInv(c, s) && CanAsk(s, st)
    ensures var s' := DoAskStep(c, s, st);
      s'.proxy == s.proxy && s'.ring.completed == s.ring.completed && s'.ring.published >= s.ring.published
  {
  }

  lemma IdleLeaves(s: State, st: IdleStep)
    requires CanIdle(s, st)
    ensures var s' := DoIdleStep(s, st);
      && s'.ring.completed == s.ring.completed && s'.ring.published == s.ring.published
      && (s.ring.completed < s.ring.published ==> Distance(s'.proxy.pc) < Distance(s.proxy.pc))
  {
  }

  lemma ServeLeaves(c: Config, s: State, st: ServeStep)
    requires Shaped(c, s) && CanServe(c, s, st)
    ensures var s' := DoServeStep(c, s, st);
      && s'.ring.published == s.ring.published
      && s'.ring.completed == s.ring.completed + (if st.DoComplete? then 1 else 0)
      && Distance(s'.proxy.pc) + (if LoopStep(Serve(st)) then 1 else 0)
           <= Distance(s.proxy.pc) + if st.DoComplete? then 9 else 0
  {
  }

  lemma StaysDone(c: Config, s: State, st: Step, q: nat)
    requires RingInv(c, s) && Enabled(c, s, st) && q < s.ring.completed
    ensures q < Apply(c, s, st).ring.completed
  {
    match st
    case Fill(f) => FillLeaves(c, s, f);
    case Ask(a) => AskLeaves(c, s, a);
    case Idle(i) => IdleLeaves(s, i);
    case Serve(v) => ServeLeaves(c, s, v);
  }

  lemma {:induction false} RunCloser(c: Config, s: State, steps: seq<Step>, q: nat)
    requires RingInv(c, s) && IsRun(c, s, steps) && (Open(s, q) || q < s.ring.completed)
    ensures var s' := After(c, s, steps);
      q < s'.ring.completed || (Open(s', q) && Open(s, q) && Rank(s', q) + LoopSteps(steps) <= Rank(s, q))
    decreases |steps|
  {
    if steps != [] {
      StepKeepsRing(c, s, steps[0]);
      if Open(s, q) {
        StepCloser(c, s, steps[0], q);
      } else {
        StaysDone(c, s, steps[0], q);
      }
      RunCloser(c, Apply(c, s, steps[0]), steps[1..], q);
    }
  }

  /** On every continuation a published command is completed before the proxy's loop has taken nine steps for every
      slot and two more, however long the handlers take. */
  lemma ServedInTime(c: Config, s: State, steps: seq<Step>, q: nat)
    requires Reachable(c, s) && IsRun(c, s, steps) && q < s.ring.published
    requires LoopSteps(steps) >= 9 * c.slots + 2
    ensures q < After(c, s, steps).ring.completed
  {
    ReachableInv(c, s);
    RunCloser(c, s, steps, q);
  }

  /** While a command is open the loop can take a step, unless it is about to be woken: then the client that wakes it
      can, in at most two steps. */
  lemma LoopGoesOn(c: Config, s: State, q: nat)
    requires Reachable(c, s) && Open(s, q)
    ensures (exists st :: LoopStep(st) && Enabled(c, s, st))
      || (s.stub.pc.PostReq? && Apply(c, s, Ask(DoPostReq)).ring.req > 0)
      || (s.stub.pc.LoadWaiting? && Apply(c, s, Ask(DoLoadWaiting)).stub.pc.PostReq?)
  {
    ReachableInv(c, s);
    if !ProxyAsleep(s) {
      NextLoopStep(c, s);
    } else {
      NoLostWakeup(c, s);
    }
  }

  lemma NextLoopStep(c: Config, s: State)
    requires RingInv(c, s) && !ProxyAsleep(s)
    ensures exists st :: LoopStep(st) && Enabled(c, s, st)
  {
    var st := match s.proxy.pc
      case Poll => Idle(DoPoll(true))
      case SetWaiting => Idle(DoSetWaiting)
      case PollAgain => Idle(DoPollAgain)
      case ReadReq => Idle(DoReadReq)
      case ClearWaiting => Idle(DoClearWaiting)
      case Bind => Serve(DoBind)
      case Enter => Serve(DoEnter)
      case Run => Serve(HandlerDone)
      case Release => Serve(DoRelease)
      case StoreTail => Serve(DoStoreTail)
      case LoadNeeds => Serve(DoLoadNeeds)
      case Complete => Serve(DoComplete)
      case PostResp => Serve(DoPostResp);
    assert LoopStep(st) && Enabled(c, s, st);
  }

  // ---- Clients ----------------------------------------------------------------------------------------

  /** Steps of its own that a client takes until it returns, once its command is completed: the post, a last round of
      waiting and the copies */
  function Remaining(pc: StubPc): nat {
    match pc
    case LoadWaiting => 7
    case PostReq => 6
    case Sleep => 6
    case Wait => 5
    case Take(k) => if k < 2 then 4 - k else 2
    case Return => 1
    case _ => 0
  }

  /** The lock holder's command is completed, and so is what it waits for. */
  predicate Served(s: State) {
    && Published(s.stub.pc) && s.stub.sn < s.ring.completed
    && (s.stub.pc.Wait? || s.stub.pc.Sleep? ==> s.stub.target < s.ring.completed)
    && (s.stub.pending.Some? ==> s.stub.pending.value < s.ring.completed)
  }

  lemma ServedIs(c: Config, s: State)
    requires Reachable(c, s) && Published(s.stub.pc) && s.stub.sn < s.ring.completed
    ensures Served(s)
  {
    ReachableInv(c, s);
  }

  /** Every step of its own takes the client nearer to its return; no other step takes it back. */
  lemma ClientCloser(c: Config, s: State, st: Step)
    requires RingInv(c, s) && Enabled(c, s, st) && Served(s)
    ensures var s' := Apply(c, s, st);
      s'.stub.pc.Unlocked? || (Served(s') && Remaining(s'.stub.pc) <= Remaining(s.stub.pc) - if st.Ask? then 1 else 0)
  {
    match st
    case Fill(f) => ServedFill(c, s, f);
    case Ask(a) => ServedAsk(c, s, a);
    case Idle(i) =>
    case Serve(v) => ServedServe(c, s, v);
  }

  lemma ServedFill(c: Config, s: State, st: FillStep)
    requires Shaped(c, s) && CanFill(c, s, st) && Published(s.stub.pc)
    ensures DoFillStep(c, s, st).stub == s.stub && DoFillStep(c, s, st).ring == s.ring
  {
  }

  lemma ServedAsk(c: Config, s: State, st: AskStep)
    requires Shaped(c, s) && CanAsk(s, st) && Served(s)
    ensures var s' := DoAskStep(c, s, st);
      s'.stub.pc.Unlocked? || (Served(s') && Remaining(s'.stub.pc) < Remaining(s.stub.pc))
  {
  }

  lemma ServedServe(c: Config, s: State, st: ServeStep)
    requires Shaped(c, s) && CanServe(c, s, st)
    ensures var s' := DoServeStep(c, s, st); s'.stub == s.stub && s.ring.completed <= s'.ring.completed
  {
  }

  function AskSteps(steps: seq<Step>): (n: nat)
    ensures n <= |steps|
  {
    if steps == [] then 0 else (if steps[0].Ask? then 1 else 0) + AskSteps(steps[1..])
  }

  /** On the way of the run the lock is free. */
  predicate Returns(c: Config, s: State, steps: seq<Step>)
    requires IsRun(c, s, steps)
    decreases |steps|
  {
    s.stub.pc.Unlocked? || (steps != [] && Returns(c, Apply(c, s, steps[0]), steps[1..]))
  }

  lemma {:induction false} RunReturns(c: Config, s: State, steps: seq<Step>)
    requires RingInv(c, s) && IsRun(c, s, steps) && Served(s) && AskSteps(steps) >= Remaining(s.stub.pc)
    ensures Returns(c, s, steps)
    decreases |steps|
  {
    if steps != [] {
      StepKeepsRing(c, s, steps[0]);
      ClientCloser(c, s, steps[0]);
      if !Apply(c, s, steps[0]).stub.pc.Unlocked? {
        RunReturns(c, Apply(c, s, steps[0]), steps[1..]);
      }
    }
  }

  /** On every continuation a client whose command is completed returns before it has taken more than seven steps. */
  lemma ReturnsInTime(c: Config, s: State, steps: seq<Step>)
    requires Reachable(c, s) && IsRun(c, s, steps) && Published(s.stub.pc) && s.stub.sn < s.ring.completed
    requires AskSteps(steps) >= 7
    ensures Returns(c, s, steps)
  {
    ReachableInv(c, s);
    ServedIs(c, s);
    RunReturns(c, s, steps);
  }

  /** It can take the next one, unless it sleeps and the proxy is about to post: then the post wakes it. */
  lemma ClientGoesOn(c: Config, s: State)
    requires Reachable(c, s) && Published(s.stub.pc) && s.stub.sn < s.ring.completed
    ensures (exists a :: CanAsk(s, a))
      || (s.proxy.pc.PostResp? && CanAsk(Apply(c, s, Serve(DoPostResp)), DoReadResp))
  {
    ReachableInv(c, s);
    ServedIs(c, s);
    if ClientAsleep(s) {
      NoLostWakeup(c, s);
    } else {
      var a := match s.stub.pc
        case LoadWaiting => DoLoadWaiting
        case PostReq => DoPostReq
        case Wait => DoWait(true)
        case Sleep => DoReadResp
        case Take(_) => DoTake
        case Return => DoReturn;
      assert CanAsk(s, a);
    }
  }

  // ---- Waiting for room ---------------------------------------------------------------------------

  /** A reservation goes through exactly while fewer commands are published and not completed than there are slots. */
  lemma ReservesExactly(c: Config, s: State)
    requires Reachable(c, s) && s.stub.pc.Reserve?
    ensures DoFillStep(c, s, DoReserve).stub.pc.Filling? <==> s.ring.published - s.ring.completed < c.slots
  {
    ReachableInv(c, s);
  }

  /** An allocation goes through exactly when the multiple of four that its size rounds up to, and the rest of the arena
      if it has to start over, leave the window from the tail on within one arena. */
  lemma AllocatesExactly(c: Config, s: State)
    requires Reachable(c, s) && s.stub.pc.Alloc? && s.stub.size <= c.arena
    ensures
      var p, s' := s.stub, DoFillStep(c, s, DoAlloc);
      var size, left := (p.size + 3) / 4 * 4, c.arena - p.head % c.arena;
      var end := p.head + (if size <= left then 0 else left) + size;
      && (s'.stub.pc.Copy? <==> end <= s.ring.tail + c.arena)
      && (s'.stub.pc.Copy? ==> s'.stub.head == end && s'.stub.offset == if size <= left then p.head % c.arena else 0)
  {
    ReachableInv(c, s);
  }
}
