/** stub/gles3_2_stub.c, stub/bridge_core.c: deleting a fence handle that the client does not own (any more). The id is
    freed whoever holds it; exactly when somebody does, two live handles come to share an id. */
module SyncDeletes {
  import opened Bits
  import opened SyncHandles
  import opened Options

  lemma IdRange(h: nat)
    ensures IdOf(h) <= IDS
  {
    Widths();
    Mask(h, ID_BITS, MAX_SYNCS);
  }

  /** The free keeps the invariant exactly when no other handle holds the id. */
  lemma FreeAgainExactly(s: State, t: nat)
    requires Inv(s) && Enabled(s, DoFree(t)) && s.threads[t].SentAgain?
    ensures Inv(Apply(s, DoFree(t))) <==> Harmless(s, DoFree(t))
  {
    if Harmless(s, DoFree(t)) {
      FreeAgainKeeps(s, t);
    } else {
      IdRange(s.threads[t].handle);
      assert !Apply(s, DoFree(t)).table.used[IdOf(s.threads[t].handle)];
    }
  }

  // ---- Runs ---------------------------------------------------------------------------------

  lemma {:induction false} RunAppend(s: State, a: seq<Step>, b: seq<Step>)
    requires IsRun(s, a) && IsRun(After(s, a), b)
    ensures IsRun(s, a + b) && After(s, a + b) == After(After(s, a), b)
    ensures AllHarmless(s, a) && AllHarmless(After(s, a), b) ==> AllHarmless(s, a + b)
    decreases |a|
  {
    if a == [] {
      assert a + b == b;
    } else {
      RunAppend(Apply(s, a[0]), a[1..], b);
      assert (a + b)[1..] == a[1..] + b;
    }
  }

  /** A run between two states */
  ghost predicate Ends(s: State, steps: seq<Step>, s': State) {
    IsRun(s, steps) && After(s, steps) == s'
  }

  /** A harmless one */
  ghost predicate Leads(s: State, steps: seq<Step>, s': State) {
    Ends(s, steps, s') && AllHarmless(s, steps)
  }

  lemma OneStep(s: State, st: Step)
    requires Enabled(s, st) && Harmless(s, st) && Apply(s, st).table.Valid()
    ensures Leads(s, [st], Apply(s, st))
  {
    assert [st][1..] == [];
  }

  lemma Chain(s: State, a: seq<Step>, s1: State, b: seq<Step>, s2: State)
    requires Leads(s, a, s1) && Leads(s1, b, s2)
    ensures Leads(s, a + b, s2)
  {
    RunAppend(s, a, b);
  }

  function FreeIds(t: Table): set<nat>
    requires t.Valid()
  {
    set id | 1 <= id <= IDS && !t.used[id]
  }

  function Ids(n: nat): set<nat> {
    if n == 0 then {} else Ids(n - 1) + {n}
  }

  lemma {:induction false} IdCount(n: nat)
    ensures |Ids(n)| == n && forall id :: id in Ids(n) <==> 1 <= id <= n
  {
    if n > 0 {
      IdCount(n - 1);
    }
  }

  lemma FewFree(t: Table)
    requires t.Valid()
    ensures |FreeIds(t)| <= IDS
  {
    IdCount(IDS);
    assert Ids(IDS) == FreeIds(t) + (Ids(IDS) - FreeIds(t));
  }

  /** What allocations by thread t leave as it was */
  predicate Around(s: State, s': State, t: nat, x: nat) {
    && s'.threads.Keys == s.threads.Keys && (forall u :: u in s.threads && u != t ==> s'.threads[u] == s.threads[u])
    && s.owned <= s'.owned && (forall h :: h in s'.owned ==> h in s.owned || IdOf(h) != x)
    && s.made <= s'.made
  }

  /** A thread that keeps creating fences gets every free id in the end. */
  lemma {:induction false} ReachId(s: State, t: nat, x: nat) returns (steps: seq<Step>, s': State, k: nat)
    requires s.table.Valid() && t in s.threads && s.threads[t].Idle? && 1 <= x <= IDS && !s.table.used[x]
    ensures Leads(s, steps, s') && s'.table.Valid() && Around(s, s', t, x)
    ensures s'.threads[t] == HasHandle(k) && IdOf(k) == x
    ensures |s.made| < |s'.made| <= |s.made| + |FreeIds(s.table)| && s'.made[|s'.made| - 1] == k
    decreases |FreeIds(s.table)|
  {
    AllocFacts(s.table);
    var s1 := Apply(s, DoAlloc(t));
    var h := Alloc(s.table).1;
    OneStep(s, DoAlloc(t));
    assert FreeIds(s1.table) == FreeIds(s.table) - {IdOf(h)} && IdOf(h) in FreeIds(s.table);
    if IdOf(h) == x {
      steps, s', k := [DoAlloc(t)], s1, h;
    } else {
      var s2 := Apply(s1, DoSendFence(t));
      OneStep(s1, DoSendFence(t));
      Chain(s, [DoAlloc(t)], s1, [DoSendFence(t)], s2);
      assert Around(s, s2, t, x);
      var more;
      more, s', k := ReachId(s2, t, x);
      steps := [DoAlloc(t)] + [DoSendFence(t)] + more;
      Chain(s, [DoAlloc(t)] + [DoSendFence(t)], s2, more, s');
    }
  }

  // ---- What goes wrong, and exactly when ----------------------------------------------------

  /** If somebody holds the freed id, a harmless run leads to two live handles with that id. */
  lemma HarmShows(s: State, t: nat) returns (steps: seq<Step>, s2: State)
    requires Inv(s) && Enabled(s, DoFree(t)) && s.threads[t].SentAgain? && !Harmless(s, DoFree(t))
    ensures Leads(Apply(s, DoFree(t)), steps, s2) && !Distinct(s2)
  {
    var id := IdOf(s.threads[t].handle);
    IdRange(s.threads[t].handle);
    assert IdOk(s, id);
    var s' := Apply(s, DoFree(t));
    var k;
    steps, s2, k := ReachId(s', t, id);
    if s.holders[id].Leaving? {
      steps, s2 := LeaverFreesIt(s', t, steps, s2, s.holders[id].tid);
    } else if s.holders[id].Owned? {
      assert s.holders[id].handle in s2.owned;
    } else {
      assert s2.threads[s.holders[id].tid] == HasHandle(s.holders[id].handle);
    }
  }

  /** A thread that is about to free the id takes it away from the new holder as well. */
  lemma LeaverFreesIt(s': State, t: nat, steps: seq<Step>, s1: State, u: nat) returns (all: seq<Step>, s2: State)
    requires Leads(s', steps, s1) && s1.table.Valid() && t in s1.threads && u in s1.threads && t != u
    requires s1.threads[t].HasHandle? && s1.threads[u].SentDelete?
    requires 1 <= IdOf(s1.threads[t].handle) == IdOf(s1.threads[u].handle) <= IDS
    ensures Leads(s', all, s2) && !Distinct(s2)
  {
    var k := s1.threads[t].handle;
    var a := Apply(s1, DoSendFence(t));
    OneStep(s1, DoSendFence(t));
    var b := Apply(a, DoFree(u));
    OneStep(a, DoFree(u));
    var more, k2;
    more, s2, k2 := ReachId(b, t, IdOf(k));
    Chain(s', steps, s1, [DoSendFence(t)], a);
    Chain(s', steps + [DoSendFence(t)], a, [DoFree(u)], b);
    all := steps + [DoSendFence(t)] + [DoFree(u)] + more;
    Chain(s', steps + [DoSendFence(t)] + [DoFree(u)], b, more, s2);
    assert k in b.owned && k in s2.owned;
  }

  /** Freeing the id of a handle that is not owned leaves live handles distinct on all harmless continuations exactly
      when nobody else holds that id. */
  lemma FreeAgainIsSafeExactly(s: State, t: nat)
    requires Inv(s) && Enabled(s, DoFree(t)) && s.threads[t].SentAgain?
    ensures (forall steps, s2 :: Leads(Apply(s, DoFree(t)), steps, s2) ==> Distinct(s2)) <==> Harmless(s, DoFree(t))
  {
    var s' := Apply(s, DoFree(t));
    if Harmless(s, DoFree(t)) {
      FreeAgainKeeps(s, t);
      forall steps, s2 | Leads(s', steps, s2) ensures Distinct(s2) {
        RunKeepsInv(s', steps);
        InvDistinct(s2);
      }
    } else {
      var steps, s2 := HarmShows(s, t);
    }
  }

  /** Thread t creates fence g, deletes it, creates fences until one, h, has the same id, and deletes g again: the next
      fence of that id shares it with h. */
  lemma DoubleDeleteFreesAnother(s0: State, t: nat) returns (steps: seq<Step>, g: nat, h: nat, k: nat)
    requires Init(s0) && t in s0.threads
    ensures IsRun(s0, steps)
    ensures var s := After(s0, steps); h in s.owned && t in s.threads && s.threads[t] == HasHandle(k)
    ensures g != h && IdOf(g) == IdOf(h) == IdOf(k) && !Distinct(After(s0, steps))
  {
    InitInv(s0);
    var s1, first;
    first, s1, g := FenceAndDelete(s0, t);
    var more, s2;
    more, s2, h := ReachId(s1, t, IdOf(g));
    Chain(s0, first, s1, more, s2);
    FewFree(s1.table);
    assert g == s2.made[0];
    NewGen(s0, first + more, s2);
    var all, s3 := DeleteAgain(s0, first + more, s2, t, g);
    var rest, s4;
    rest, s4, k := ReachId(s3, t, IdOf(g));
    RunAppend(s0, all, rest);
    steps := all + rest;
    assert h in s3.owned && h in s4.owned;
  }

  /** The second deletion of g, harmless or not */
  lemma DeleteAgain(s0: State, steps: seq<Step>, s: State, t: nat, g: nat) returns (all: seq<Step>, s': State)
    requires Ends(s0, steps, s) && t in s.threads && s.threads[t].HasHandle? && g !in s.owned && g != 0
    requires s.table.Valid() && g != s.threads[t].handle && 1 <= IdOf(g) <= IDS
    ensures Ends(s0, all, s') && s'.table == Free(s.table, g) && s'.table.Valid()
    ensures s'.threads == s.threads[t := Idle] && s'.owned == s.owned + {s.threads[t].handle}
  {
    var a := Apply(s, DoSendFence(t));
    var b := Apply(a, DoSendAgain(t, g));
    s' := Apply(b, DoFree(t));
    var s1 := Further(s0, steps, s, DoSendFence(t));
    var s2 := Further(s0, s1, a, DoSendAgain(t, g));
    all := Further(s0, s2, b, DoFree(t));
  }

  lemma Further(s0: State, steps: seq<Step>, s: State, st: Step) returns (more: seq<Step>)
    requires Ends(s0, steps, s) && Enabled(s, st) && Apply(s, st).table.Valid()
    ensures Ends(s0, more, Apply(s, st))
  {
    assert [st][1..] == [] && IsRun(s, [st]);
    RunAppend(s0, steps, [st]);
    more := steps + [st];
  }

  /** The first fence of all, created and deleted */
  lemma FenceAndDelete(s0: State, t: nat) returns (steps: seq<Step>, s1: State, g: nat)
    requires Init(s0) && t in s0.threads
    ensures Leads(s0, steps, s1) && s1.table.Valid() && t in s1.threads && s1.threads[t].Idle?
    ensures s1.owned == {} && s1.made == [g] && g != 0 && 1 <= IdOf(g) <= IDS && !s1.table.used[IdOf(g)]
  {
    AllocFacts(s0.table);
    g := Alloc(s0.table).1;
    var a := Apply(s0, DoAlloc(t));
    var b := Apply(a, DoSendFence(t));
    var c := Apply(b, DoSendDelete(t, g));
    s1 := Apply(c, DoFree(t));
    OneStep(s0, DoAlloc(t));
    OneStep(a, DoSendFence(t));
    OneStep(b, DoSendDelete(t, g));
    OneStep(c, DoFree(t));
    Chain(s0, [DoAlloc(t)], a, [DoSendFence(t)], b);
    Chain(s0, [DoAlloc(t)] + [DoSendFence(t)], b, [DoSendDelete(t, g)], c);
    steps := [DoAlloc(t)] + [DoSendFence(t)] + [DoSendDelete(t, g)] + [DoFree(t)];
    Chain(s0, [DoAlloc(t)] + [DoSendFence(t)] + [DoSendDelete(t, g)], c, [DoFree(t)], s1);
  }

  /** Within few allocations no handle value comes back. */
  lemma NewGen(s0: State, steps: seq<Step>, s: State)
    requires Init(s0) && Leads(s0, steps, s) && 1 < |s.made| <= GENS
    ensures s.made[0] != s.made[|s.made| - 1]
  {
    if s.made[0] == s.made[|s.made| - 1] {
      HandlesReturnLate(s0, steps, 0, |s.made| - 1);
    }
  }
}
