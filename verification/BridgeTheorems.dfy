/** What the bridge promises on every run, over all interleavings of any number of client threads and
    the proxy. */
module BridgeTheorems {
  import opened RingConfig
  import opened BridgeModel
  import opened BridgeRing
  import opened BridgeArena
  import opened BridgeWake
  import opened BridgeCalls
  import opened BridgeContexts

  predicate Inv(c: Config, s: State) {
    RingInv(c, s) && ArenaInv(c, s) && WakeInv(c, s) && CallInv(c, s) && ContextInv(c, s)
  }

  lemma InitInv(c: Config, s: State)
    requires Init(c, s)
    ensures Inv(c, s)
  {
    InitRing(c, s);
    InitArena(c, s);
    InitWake(c, s);
    InitCalls(c, s);
    InitContexts(c, s);
  }

  lemma StepKeepsInv(c: Config, s: State, st: Step)
    requires Inv(c, s) && Enabled(c, s, st)
    ensures Inv(c, Apply(c, s, st))
  {
    StepKeepsArena(c, s, st);
    StepKeepsWake(c, s, st);
    StepKeepsCalls(c, s, st);
    StepKeepsContexts(c, s, st);
  }

  lemma {:induction false} RunKeepsInv(c: Config, s: State, steps: seq<Step>)
    requires Inv(c, s) && IsRun(c, s, steps)
    ensures Inv(c, After(c, s, steps))
    decreases |steps|
  {
    if steps != [] {
      StepKeepsInv(c, s, steps[0]);
      RunKeepsInv(c, Apply(c, s, steps[0]), steps[1..]);
    }
  }

  /** A set of states that contains every start and is closed under steps */
  ghost predicate Inductive(c: Config, good: iset<State>) {
    && (forall s :: Init(c, s) ==> s in good)
    && (forall s, st :: s in good && Shaped(c, s) && Enabled(c, s, st) ==> Apply(c, s, st) in good)
  }

  /** Every state of every run: what lies in all such sets. RunsReach says that these are the ends of runs. */
  ghost predicate Reachable(c: Config, s: State): (r: bool)
    ensures r ==> Shaped(c, s)
  {
    ShapedInductive(c);
    forall good :: Inductive(c, good) ==> s in good
  }

  ghost function ShapedStates(c: Config): iset<State> {
    iset s | Shaped(c, s)
  }

  lemma ShapedInductive(c: Config)
    ensures Inductive(c, ShapedStates(c))
  {
    forall s, st | Shaped(c, s) && Enabled(c, s, st) ensures Shaped(c, Apply(c, s, st)) {
      StepKeepsShape(c, s, st);
    }
  }

  lemma ReachableInv(c: Config, s: State)
    requires Reachable(c, s)
    ensures Inv(c, s)
  {
    var good := iset x | Inv(c, x);
    forall x | Init(c, x) ensures x in good {
      InitInv(c, x);
    }
    forall x, st | x in good && Shaped(c, x) && Enabled(c, x, st) ensures Apply(c, x, st) in good {
      StepKeepsInv(c, x, st);
    }
    assert Inductive(c, good);
  }

  lemma ReachableStep(c: Config, s: State, st: Step)
    requires Reachable(c, s) && Enabled(c, s, st)
    ensures Reachable(c, Apply(c, s, st))
  {
    forall good | Inductive(c, good) ensures Apply(c, s, st) in good {
      assert s in good;
    }
  }

  lemma InitReachable(c: Config, s: State)
    requires Init(c, s)
    ensures Reachable(c, s)
  {
    forall good | Inductive(c, good) ensures s in good {
    }
  }

  ghost predicate EndsRun(c: Config, s0: State, steps: seq<Step>, s: State) {
    Init(c, s0) && IsRun(c, s0, steps) && After(c, s0, steps) == s
  }

  /** The reachable states are the ends of runs from a start. */
  lemma RunsReach(c: Config, s: State)
    ensures Reachable(c, s) <==> EndOfRun(c, s)
  {
    if s0, steps :| EndsRun(c, s0, steps, s) {
      InitReachable(c, s0);
      RunReaches(c, s0, steps);
    }
    if Reachable(c, s) {
      EndsInductive(c);
    }
  }

  ghost predicate EndOfRun(c: Config, s: State) {
    exists s0, steps :: EndsRun(c, s0, steps, s)
  }

  ghost function EndStates(c: Config): iset<State> {
    iset s | EndOfRun(c, s)
  }

  lemma EndsInductive(c: Config)
    ensures Inductive(c, EndStates(c))
  {
    forall s | Init(c, s) ensures EndOfRun(c, s) {
      assert EndsRun(c, s, [], s);
    }
    forall s, st | EndOfRun(c, s) && Shaped(c, s) && Enabled(c, s, st) ensures EndOfRun(c, Apply(c, s, st)) {
      EndsGoOn(c, s, st);
    }
  }

  lemma EndsGoOn(c: Config, s: State, st: Step)
    requires EndOfRun(c, s) && Shaped(c, s) && Enabled(c, s, st)
    ensures EndOfRun(c, Apply(c, s, st))
  {
    var s0, steps :| EndsRun(c, s0, steps, s);
    RunAppend(c, s0, steps, st);
    assert EndsRun(c, s0, steps + [st], Apply(c, s, st));
  }

  lemma {:induction false} RunReaches(c: Config, s: State, steps: seq<Step>)
    requires Reachable(c, s) && IsRun(c, s, steps)
    ensures Reachable(c, After(c, s, steps))
    decreases |steps|
  {
    if steps != [] {
      ReachableStep(c, s, steps[0]);
      RunReaches(c, Apply(c, s, steps[0]), steps[1..]);
    }
  }

  lemma {:induction false} RunAppend(c: Config, s: State, steps: seq<Step>, st: Step)
    requires IsRun(c, s, steps) && Enabled(c, After(c, s, steps), st)
    ensures IsRun(c, s, steps + [st]) && After(c, s, steps + [st]) == Apply(c, After(c, s, steps), st)
    decreases |steps|
  {
    if steps == [] {
      StepKeepsShape(c, s, st);
      assert steps + [st] == [st];
      assert IsRun(c, Apply(c, s, st), [st][1..]);
    } else {
      RunAppend(c, Apply(c, s, steps[0]), steps[1..], st);
      assert (steps + [st])[1..] == steps[1..] + [st];
    }
  }

  // ---- Safety -----------------------------------------------------------------------------

  /** The proxy's k-th handler call is for the k-th published command: its opcode, arguments and payload
      references as they stood when it was published, its payload bytes as its client wrote them, and its
      issuer's context and surfaces. No published command is skipped, repeated or reordered. */
  lemma DispatchIsFaithful(c: Config, s: State)
    requires Reachable(c, s)
    ensures s.ring.completed <= |s.hist.runs| <= s.ring.completed + 1 && |s.hist.runs| <= |s.hist.log|
    ensures forall k :: 0 <= k < |s.hist.runs| ==>
      && s.hist.runs[k].core == s.hist.log[k].core
      && s.hist.runs[k].core.op == s.hist.log[k].op
      && ViewsOk(s.hist.runs[k].views, s.hist.log[k].payloads)
      && RanInContext(s, k)
  {
    ReachableInv(c, s);
    forall k | 0 <= k < |s.hist.runs| ensures s.hist.runs[k].core.op == s.hist.log[k].op {
      assert EntryOk(c, s.hist.log[k], s.hist.mem);
    }
  }

  /** Ring occupancy, and the slot being filled is none the proxy still reads. */
  lemma RingOccupancy(c: Config, s: State)
    requires Reachable(c, s)
    ensures s.ring.completed <= s.ring.published <= s.stub.localSeq <= s.ring.completed + c.slots
    ensures Unpublished(s.stub.pc) ==>
      forall q :: s.ring.completed <= q < s.ring.published ==> Index(c, q) != Index(c, s.stub.sn)
    ensures |s.hist.log| == s.ring.published
    ensures forall q :: s.ring.completed <= q < s.ring.published ==>
      Core(s.ring.slots[Index(c, q)]) == s.hist.log[q].core
  {
    ReachableInv(c, s);
    if Unpublished(s.stub.pc) {
      FilledSlotApart(c, s);
    }
  }

  /** The proxy has not yet given back the window of command q. */
  predicate Unreleased(s: State, q: nat) {
    s.ring.completed <= q && !(q == s.ring.completed && (s.proxy.pc.LoadNeeds? || s.proxy.pc.Complete?))
  }

  /** Two arena ranges have no byte in common. */
  predicate Disjoint(a: nat, n: nat, b: nat, m: nat) {
    a + n <= b || b + m <= a
  }

  /** No allocation overlaps a payload of an earlier command that the proxy has not released, nor an
      earlier payload of the same command, also across the wrap point. */
  lemma AllocationIsApart(c: Config, s: State, pl: Payload, ref: Ref, lo: nat, hi: nat)
    requires Inv(c, s) && (s.stub.pc.Copy? || s.stub.pc.Record?)
    requires PayloadOk(c, pl, ref, lo, hi, s.hist.mem) && s.ring.tail <= lo && hi <= Start(s.stub)
    ensures Disjoint(ref.offset, ref.size, s.stub.offset, s.stub.size)
  {
    RangesApart(pl.start, ref.size, Start(s.stub), s.stub.size, c.arena);
  }

  /** Two ranges less than an arena apart stay apart when they are wrapped. */
  lemma RangesApart(a: nat, n: nat, b: nat, m: nat, arena: nat)
    requires arena > 0 && a + n <= b && b + m <= a + arena
    requires a % arena + n <= arena && b % arena + m <= arena
    ensures Disjoint(a % arena, n, b % arena, m)
  {
    var p, q := a % arena, b % arena;
    if !Disjoint(p, n, q, m) {
      var x := if p < q then q else p;
      OffsetMod(a, x - p, arena);
      OffsetMod(b, x - q, arena);
      ModDistinct(a + (x - p), b + (x - q), arena);
    }
  }

  lemma LivePayloadsAreApart(c: Config, s: State, q: nat, k: nat)
    requires Reachable(c, s) && (s.stub.pc.Copy? || s.stub.pc.Record?)
    requires q < |s.hist.log| && Unreleased(s, q) && k < |s.hist.log[q].core.refs|
    ensures var ref := s.hist.log[q].core.refs[k];
      && Disjoint(ref.offset, ref.size, s.stub.offset, s.stub.size)
      && ref.offset % 4 == 0 && ref.offset + ref.size <= c.arena
  {
    ReachableInv(c, s);
    UnreleasedWindow(c, s, q);
    var e := s.hist.log[q];
    assert EntryOk(c, e, s.hist.mem);
    assert PayloadOk(c, e.payloads[k], e.core.refs[k], e.begin, e.end, s.hist.mem);
    AllocationIsApart(c, s, e.payloads[k], e.core.refs[k], e.begin, e.end);
  }

  /** The window of an unreleased command lies between the tail and the allocation in progress. */
  lemma UnreleasedWindow(c: Config, s: State, q: nat)
    requires Inv(c, s) && (s.stub.pc.Copy? || s.stub.pc.Record?)
    requires q < |s.hist.log| && Unreleased(s, q)
    ensures s.ring.tail <= s.hist.log[q].begin && s.hist.log[q].end <= Start(s.stub)
  {
    assert WindowOk(s.hist.log, q);
    ReleasedBefore(c, s, q);
    EndMono(s.hist.log, q + 1, |s.hist.log|);
  }

  /** The tail is no further than the windows of the commands that are released. */
  lemma ReleasedBefore(c: Config, s: State, q: nat)
    requires RingInv(c, s) && Layout(c, s) && q <= |s.hist.log| && (q == |s.hist.log| || Unreleased(s, q))
    ensures s.ring.tail <= EndOf(s.hist.log, q)
  {
    if s.proxy.pc.LoadNeeds? || s.proxy.pc.Complete? {
      EndMono(s.hist.log, s.ring.completed + 1, q);
    } else {
      EndMono(s.hist.log, s.ring.completed, q);
    }
  }

  lemma OwnPayloadsAreApart(c: Config, s: State, k: nat)
    requires Reachable(c, s) && (s.stub.pc.Copy? || s.stub.pc.Record?) && k < |StubSlot(c, s).refs|
    ensures var ref := StubSlot(c, s).refs[k];
      && Disjoint(ref.offset, ref.size, s.stub.offset, s.stub.size)
      && s.stub.offset % 4 == 0 && s.stub.offset + s.stub.size <= c.arena
  {
    ReachableInv(c, s);
    assert PayloadOk(c, s.stub.payloads[k], StubSlot(c, s).refs[k], s.stub.begin, Start(s.stub), s.hist.mem);
    ReleasedBefore(c, s, |s.hist.log|);
    AllocationIsApart(c, s, s.stub.payloads[k], StubSlot(c, s).refs[k], s.stub.begin, Start(s.stub));
  }

  /** A blocking call returns what the handler of that very command left behind. */
  lemma BlockingCallGetsOwnAnswer(c: Config, s: State)
    requires Reachable(c, s)
    ensures forall q :: q in s.hist.answers ==> q < |s.hist.done| && s.hist.answers[q] == s.hist.done[q]
    ensures s.stub.pc.Take? ==> s.ring.completed == s.ring.published == s.stub.sn + 1 && !Busy(s.proxy.pc)
  {
    ReachableInv(c, s);
    if s.stub.pc.Take? {
      QuietWhileTaking(c, s);
    }
  }

  /** At most one frame in flight: when an asynchronous swap returned, all swaps before it were done,
      and no state has three uncompleted swaps. */
  lemma OneFrameInFlight(c: Config, s: State)
    requires Reachable(c, s)
    ensures forall i, q ::
      0 <= i < |s.hist.swapReturns| && 0 <= q < s.hist.swapReturns[i].0 && q < |s.hist.log| && IsSwap(s, q) ==>
      q < s.hist.swapReturns[i].1
    ensures forall a, b, d :: 0 <= a < b < d < |s.hist.log| && IsSwap(s, a) && IsSwap(s, b) && IsSwap(s, d) ==>
      a < s.ring.completed
  {
    ReachableInv(c, s);
    forall i, q | 0 <= i < |s.hist.swapReturns| && 0 <= q < s.hist.swapReturns[i].0 && q < |s.hist.log|
                  && IsSwap(s, q)
      ensures q < s.hist.swapReturns[i].1
    {
      assert ReturnOk(s, i);
    }
    forall a, b, d | 0 <= a < b < d < |s.hist.log| && IsSwap(s, a) && IsSwap(s, b) && IsSwap(s, d)
      ensures a < s.ring.completed
    {
      AtMostTwoSwaps(c, s, a, b, d);
    }
  }

  // ---- Wake-ups and progress --------------------------------------------------------------

  /** No wake-up is lost, the two sides never sleep on each other, and the bridge stops moving exactly
      when nothing is left to do or the lock holder asks for a payload that can never fit. */
  lemma NoDeadlock(c: Config, s: State)
    requires Reachable(c, s)
    ensures ProxyAsleep(s) && s.ring.completed < s.ring.published ==> s.stub.pc.LoadWaiting? || s.stub.pc.PostReq?
    ensures ClientAsleep(s) && s.ring.completed > s.stub.target ==> s.proxy.pc.PostResp?
    ensures !(ProxyAsleep(s) && ClientAsleep(s))
    ensures (exists st :: Productive(c, s, st)) <==> !AtRest(c, s)
  {
    ReachableInv(c, s);
    NoLostWakeup(c, s);
    StopsExactlyAtRest(c, s);
  }

  /** A payload that does not fit behind the earlier payloads of its slot blocks its caller on every
      continuation of the run. */
  lemma {:induction false} CannotFitForever(c: Config, s: State, steps: seq<Step>)
    requires Inv(c, s) && CannotFit(c, s) && IsRun(c, s, steps)
    ensures After(c, s, steps).stub == s.stub
    decreases |steps|
  {
    if steps != [] {
      CannotFitStays(c, s, steps[0]);
      StepKeepsInv(c, s, steps[0]);
      CannotFitForever(c, Apply(c, s, steps[0]), steps[1..]);
    }
  }

  /** The first payload of a slot, all earlier slots completed: it is placed at the next load of the tail
      if it fits before or behind the wrap point, and never placed otherwise. */
  lemma FirstPayloadBound(c: Config, s: State, steps: seq<Step>)
    requires Reachable(c, s) && s.stub.pc.Alloc? && s.stub.payloads == []
    requires s.ring.completed == s.ring.published && IsRun(c, s, steps)
    ensures var pos, size := s.stub.head % c.arena, Round4(s.stub.size);
      if size <= c.arena - pos || size <= pos then AllocData(c, s).stub.pc.Copy?
      else After(c, s, steps).stub == s.stub
    ensures 2 * Round4(s.stub.size) <= c.arena ==> AllocData(c, s).stub.pc.Copy?
  {
    ReachableInv(c, s);
    ArenaProgress(c, s);
    if CannotFit(c, s) {
      CannotFitForever(c, s, steps);
    }
  }
}
