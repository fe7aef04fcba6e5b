/** data_tail is stored before completed_seq: a payload may be overwritten before its command counts as
    completed, but only after its handler has returned. */
module BridgeEarlyRelease {
  import Bits
  import opened RingConfig
  import opened BridgeModel
  import opened BridgeRing
  import opened BridgeArena
  import opened BridgeTheorems
  import opened Options

  // ---- The exact window -------------------------------------------------------------------

  /** The allocation in progress reuses bytes of command q's window, and completed_seq has not passed q. */
  ghost predicate ReusesBytesOf(c: Config, s: State, q: nat)
    requires c.arena > 0
  {
    && s.ring.completed <= q < |s.hist.log|
    && (s.stub.pc.Copy? || s.stub.pc.Record?)
    && exists p, r :: Shared(c, s, q, p, r)
  }

  predicate Shared(c: Config, s: State, q: nat, p: int, r: int)
    requires c.arena > 0 && q < |s.hist.log|
  {
    s.hist.log[q].begin <= p < s.hist.log[q].end && Start(s.stub) <= r < s.stub.head && p % c.arena == r % c.arena
  }

  function Max(a: int, b: int): int { if a < b then b else a }
  function Min(a: int, b: int): int { if a < b then a else b }

  lemma ModShift(p: int, m: nat)
    requires m > 0
    ensures (p + m) % m == p % m
  {
    assert p + m == m * (p / m + 1) + p % m;
    Bits.ModUnique(p + m, m, p / m + 1, p % m);
  }

  /** Bytes of an uncompleted command are reused exactly when its handler has returned, the proxy has
      stored the tail but not yet completed_seq, and the new window reaches the old one around the wrap. */
  lemma ReuseExactly(c: Config, s: State, q: nat)
    requires Reachable(c, s) && s.ring.completed <= q < |s.hist.log| && (s.stub.pc.Copy? || s.stub.pc.Record?)
    ensures ReusesBytesOf(c, s, q) <==>
      && q == s.ring.completed && (s.proxy.pc.LoadNeeds? || s.proxy.pc.Complete?)
      && Max(s.hist.log[q].begin + c.arena, Start(s.stub)) < Min(s.hist.log[q].end + c.arena, s.stub.head)
    ensures ReusesBytesOf(c, s, q) ==> q < |s.hist.done|
  {
    ReachableInv(c, s);
    var e := s.hist.log[q];
    var r := Max(e.begin + c.arena, Start(s.stub));
    if !Unreleased(s, q) && r < Min(e.end + c.arena, s.stub.head) {
      ModShift(r - c.arena, c.arena);
      assert Shared(c, s, q, r - c.arena, r);
    }
    forall p, r | Shared(c, s, q, p, r)
      ensures !Unreleased(s, q) && e.begin + c.arena <= r && r < e.end + c.arena
    {
      SharedIsReleased(c, s, q, p, r);
    }
  }

  lemma SharedIsReleased(c: Config, s: State, q: nat, p: int, r: int)
    requires RingInv(c, s) && Layout(c, s) && FillingOk(c, s) && (s.stub.pc.Copy? || s.stub.pc.Record?)
    requires s.ring.completed <= q < |s.hist.log| && Shared(c, s, q, p, r)
    ensures !Unreleased(s, q) && s.hist.log[q].begin + c.arena <= r < s.hist.log[q].end + c.arena
  {
    var log, n := s.hist.log, s.ring.completed;
    assert WindowOk(log, q);
    EndMono(log, q + 1, |log|);
    EndMono(log, n, q);
    if s.proxy.pc.LoadNeeds? || s.proxy.pc.Complete? {
      if n < q {
        EndMono(log, n + 1, q);
      }
    }
    if r < p + c.arena {
      ModDistinct(p, r, c.arena);
    }
  }

  // ---- A run ------------------------------------------------------------------------------

  const SMALL: Config := Config(2, 4, true)

  function FreshSlot(): Slot {
    Slot(Swap, [], 0, 0, 0, false, 0, 0)
  }

  function FreshState(): State {
    State(Ring(0, 0, 0, false, [FreshSlot(), FreshSlot()], [0, 0, 0, 0], [], 0, 0),
          Stub(Unlocked, 0, Swap, SendVoid, 0, 0, 0, 0, None, None, 0, 0, 0, 0, 0, 0, [], 0, None),
          Proxy(Poll, 0),
          Egl(0, None, [None, None, None, None, None, None, None, None, None]),
          map[0 := Tls(0, None)],
          History([], map[], [], [], map[], [], []))
  }

  lemma FreshIsReachable()
    ensures SMALL.Valid() && Reachable(SMALL, FreshState())
  {
    assert IsPow2(2);
    assert Init(SMALL, FreshState());
    InitReachable(SMALL, FreshState());
  }

  lemma Go(s: State, st: Step) returns (s': State)
    requires Reachable(SMALL, s) && Enabled(SMALL, s, st)
    ensures s' == Apply(SMALL, s, st) && Reachable(SMALL, s')
  {
    ReachableStep(SMALL, s, st);
    s' := Apply(SMALL, s, st);
  }

  /** What the two sides have not touched. */
  predicate SameProxySide(s: State, s': State) {
    && s'.ring.completed == s.ring.completed && s'.ring.tail == s.ring.tail && s'.proxy == s.proxy
    && s'.ring.waiting == s.ring.waiting
  }

  /** A client takes the lock and reserves the whole arena for its command. */
  lemma Reserve(s: State) returns (s': State)
    requires Reachable(SMALL, s) && s.stub.pc == Unlocked && 0 in s.tls
    requires s.stub.localSeq - s.ring.completed < 2 && s.ring.tail == s.stub.head && s.stub.head % 4 == 0
    ensures Reachable(SMALL, s') && SameProxySide(s, s') && s'.hist == s.hist && 0 in s'.tls
    ensures s'.stub.pc == Copy && s'.stub.size == 4 && s'.stub.src == None && s'.stub.mode == SendVoid
    ensures s'.stub.head == s.stub.head + 4
  {
    var op := Plain(1, []);
    s' := Go(s, Fill(DoLock(0, op, SendVoid)));
    s' := Go(s', Fill(DoReserve));
    s' := Go(s', Fill(DoFill));
    s' := Go(s', Fill(DoFill));
    s' := Go(s', Fill(DoFill));
    s' := Go(s', Fill(DoFill));
    s' := Go(s', Fill(DoFill));
    s' := Go(s', Fill(DoData(None, 4)));
    s' := Go(s', Fill(DoAlloc));
  }

  /** The client sends its command off. */
  lemma Send(s: State) returns (s': State)
    requires Reachable(SMALL, s) && s.stub.pc == Copy && s.stub.src == None && s.stub.mode == SendVoid
    requires !s.ring.waiting
    ensures Reachable(SMALL, s') && SameProxySide(s, s')
    ensures s'.stub.pc == Unlocked && s'.stub.head == s.stub.head
    ensures |s'.hist.log| == |s.hist.log| + 1 && s'.tls.Keys == s.tls.Keys
  {
    s' := Go(s, Fill(DoCopy));
    s' := Go(s', Fill(DoRecord));
    s' := Go(s', Fill(DoRecord));
    s' := Go(s', Fill(DoRecord));
    s' := Publish(s');
  }

  lemma Publish(s: State) returns (s': State)
    requires Reachable(SMALL, s) && s.stub.pc == Encode && s.stub.mode == SendVoid && !s.ring.waiting
    ensures Reachable(SMALL, s') && SameProxySide(s, s')
    ensures s'.stub.pc == Unlocked && s'.stub.head == s.stub.head
    ensures |s'.hist.log| == |s.hist.log| + 1 && s'.tls.Keys == s.tls.Keys
  {
    s' := Go(s, Fill(DoSend));
    s' := Go(s', Ask(DoPublish));
    s' := Go(s', Ask(DoLoadWaiting));
    s' := Go(s', Ask(DoReturn));
  }

  /** The proxy finds a command and runs its handler. */
  lemma RunHandler(s: State) returns (s': State)
    requires Reachable(SMALL, s) && s.proxy.pc == Poll && s.ring.completed < |s.hist.log|
    ensures Reachable(SMALL, s') && s'.stub == s.stub && s'.ring.completed == s.ring.completed
    ensures s'.hist.log == s.hist.log && s'.tls == s.tls && s'.proxy.pc == Release
  {
    ReachableInv(SMALL, s);
    s' := Go(s, Idle(DoPoll(false)));
    s' := Go(s', Step.Serve(DoBind));
    s' := Go(s', Step.Serve(DoEnter));
    s' := Go(s', Step.Serve(HandlerDone));
  }

  /** The proxy serves a command up to the store of the tail. */
  lemma Serve(s: State) returns (s': State)
    requires Reachable(SMALL, s) && s.proxy.pc == Poll && s.ring.completed < |s.hist.log|
    requires s.hist.log[s.ring.completed].begin < s.hist.log[s.ring.completed].end
    ensures Reachable(SMALL, s') && s'.stub == s.stub && s'.ring.completed == s.ring.completed
    ensures s'.hist.log == s.hist.log && s'.tls == s.tls && s'.proxy.pc == LoadNeeds
  {
    s' := RunHandler(s);
    ReachableInv(SMALL, s');
    assert WindowOk(s'.hist.log, s'.ring.completed);
    assert Core(s'.ring.slots[Index(SMALL, s'.ring.completed)]) == s'.hist.log[s'.ring.completed].core;
    s' := Go(s', Step.Serve(DoRelease));
    s' := Go(s', Step.Serve(DoStoreTail));
  }

  /** The tail of command 0 is stored, and the lock is free. */
  lemma TailStored() returns (s: State)
    ensures Reachable(SMALL, s) && s.stub.pc == Unlocked && 0 in s.tls && s.proxy.pc == LoadNeeds
    ensures s.ring.completed == 0 && s.stub.localSeq == 1 && s.ring.tail == s.stub.head == 4
    ensures |s.hist.log| == 1 && s.hist.log[0].begin == 0 && s.hist.log[0].end == 4
  {
    FreshIsReachable();
    s := Reserve(FreshState());
    s := Send(s);
    ReachableInv(SMALL, s);
    assert WindowOk(s.hist.log, 0);
    s := Serve(s);
    ReachableInv(SMALL, s);
  }

  /** Command 0 is not completed, and the allocation of command 1 reuses its bytes. */
  lemma ReuseHappens() returns (s: State)
    ensures Reachable(SMALL, s) && s.ring.completed == 0 && ReusesBytesOf(SMALL, s, 0)
  {
    s := TailStored();
    s := Reserve(s);
    ReuseExactly(SMALL, s, 0);
  }
}
