/** Fence handles over the bridge: the client threads of SyncHandles send their commands through BridgeModel's ring, and
    what holds of the order of their log holds of the handler calls of the proxy. */
module SyncOrder {
  import opened Options
  import opened Bytes
  import opened BridgeModel
  import BridgeTheorems
  import BridgeArena
  import Sync = SyncHandles

  /** Positions in the list of opcodes */
  const OP_DELETE_SYNC: nat := 259
  const OP_FENCE_SYNC: nat := 260

  // ---- Commands as they are sent ------------------------------------------------------------------------

  predicate IsFence(op: Op) {
    op.Plain? && op.opcode == OP_FENCE_SYNC && |op.args| == 12
  }

  predicate IsDelete(op: Op) {
    op.Plain? && op.opcode == OP_DELETE_SYNC && |op.args| == 4
  }

  predicate IsSync(op: Op) {
    IsFence(op) || IsDelete(op)
  }

  /** The handle in the arguments: behind condition and flags, or alone */
  function HandleOf(op: Op): nat
    requires IsSync(op)
  {
    if IsFence(op) then UnLe(op.args[8..12]) else UnLe(op.args)
  }

  predicate Carries(op: Op, e: Sync.Command) {
    IsSync(op) && HandleOf(op) == e.handle && (IsFence(op) <==> e.Fence?)
  }

  /** How many of the first n commands are about fences */
  function Pos(log: seq<Entry>, n: nat): (k: nat)
    requires n <= |log|
    ensures k <= n
  {
    if n == 0 then 0 else Pos(log, n - 1) + if IsSync(log[n - 1].op) then 1 else 0
  }

  // ---- Both systems at once -------------------------------------------------------------------------------

  datatype Both = Both(bridge: State, sync: Sync.State)

  /** A step of the bridge that publishes nothing about fences, a step of a thread on the handle table, or the
      publication of a fence command, which is a step of both. */
  datatype Joint = OfBridge(b: Step) | OfSync(y: Sync.Step) | OfBoth(y: Sync.Step)

  predicate Publishes(s: State, b: Step) {
    b.Ask? && b.a.DoPublish? && IsSync(s.stub.op)
  }

  predicate Sends(y: Sync.Step) {
    y.DoSendFence? || y.DoSendDelete? || y.DoSendAgain?
  }

  predicate Enabled2(c: Config, s: Both, j: Joint)
    requires Shaped(c, s.bridge)
  {
    match j
    case OfBridge(b) => Enabled(c, s.bridge, b) && !Publishes(s.bridge, b)
    case OfSync(y) => Sync.Enabled(s.sync, y) && !Sends(y)
    case OfBoth(y) =>
      && Sync.Enabled(s.sync, y) && Sends(y) && Enabled(c, s.bridge, Ask(DoPublish))
      && var log := Sync.Apply(s.sync, y).log;
         |log| > 0 && Carries(s.bridge.stub.op, log[|log| - 1])
  }

  function Apply2(c: Config, s: Both, j: Joint): Both
    requires Shaped(c, s.bridge) && Enabled2(c, s, j)
  {
    match j
    case OfBridge(b) => s.(bridge := Apply(c, s.bridge, b))
    case OfSync(y) => s.(sync := Sync.Apply(s.sync, y))
    case OfBoth(y) => Both(Apply(c, s.bridge, Ask(DoPublish)), Sync.Apply(s.sync, y))
  }

  /** No free hits the id of another handle. */
  predicate Harmless2(s: Both, j: Joint) {
    j.OfSync? ==> Sync.Harmless(s.sync, j.y)
  }

  /** Reachable by a joint run */
  predicate IsRun2(c: Config, s: Both, js: seq<Joint>)
    decreases |js|
  {
    Shaped(c, s.bridge) && (js == [] || (Enabled2(c, s, js[0]) && Harmless2(s, js[0]) && IsRun2(c, Apply2(c, s, js[0]), js[1..])))
  }

  function After2(c: Config, s: Both, js: seq<Joint>): Both
    requires IsRun2(c, s, js)
    decreases |js|
  {
    if js == [] then s else After2(c, Apply2(c, s, js[0]), js[1..])
  }

  // ---- The two logs agree -----------------------------------------------------------------------------------

  predicate LogsAgree(log: seq<Entry>, sync: seq<Sync.Command>) {
    && Pos(log, |log|) == |sync|
    && forall k :: 0 <= k < |log| && IsSync(log[k].op) ==> Pos(log, k) < |sync| && Carries(log[k].op, sync[Pos(log, k)])
  }

  predicate Inv2(c: Config, s: Both) {
    && BridgeTheorems.Inv(c, s.bridge) && Sync.Inv(s.sync)
    && LogsAgree(s.bridge.hist.log, s.sync.log)
  }

  lemma {:induction false} PosPrefix(log: seq<Entry>, e: Entry, n: nat)
    requires n <= |log|
    ensures Pos(log + [e], n) == Pos(log, n)
  {
    if n > 0 {
      PosPrefix(log, e, n - 1);
    }
  }

  lemma LogsGrow(log: seq<Entry>, sync: seq<Sync.Command>, e: Entry, more: seq<Sync.Command>)
    requires LogsAgree(log, sync)
    requires if IsSync(e.op) then |more| == 1 && Carries(e.op, more[0]) else more == []
    ensures LogsAgree(log + [e], sync + more)
  {
    PosPrefix(log, e, |log|);
    forall k | 0 <= k < |log| && IsSync(log[k].op)
      ensures Pos(log + [e], k) == Pos(log, k)
    {
      PosPrefix(log, e, k);
    }
  }

  /** Only a publication changes the bridge's log. */
  lemma LogStep(c: Config, s: State, b: Step)
    requires Shaped(c, s) && Enabled(c, s, b)
    ensures var log, log' := s.hist.log, Apply(c, s, b).hist.log;
      if b == Ask(DoPublish) then |log'| == |log| + 1 && log'[..|log|] == log && log'[|log|].op == s.stub.op
      else log' == log
  {
  }

  lemma SyncLogStep(s: Sync.State, y: Sync.Step)
    requires Sync.Enabled(s, y)
    ensures var log' := Sync.Apply(s, y).log;
      if Sends(y) then |log'| == |s.log| + 1 && log'[..|s.log|] == s.log else log' == s.log
  {
  }

  lemma LogsStep(c: Config, s: Both, j: Joint)
    requires Shaped(c, s.bridge) && LogsAgree(s.bridge.hist.log, s.sync.log) && Enabled2(c, s, j)
    ensures LogsAgree(Apply2(c, s, j).bridge.hist.log, Apply2(c, s, j).sync.log)
  {
    var s' := Apply2(c, s, j);
    var log, sync, log', sync' := s.bridge.hist.log, s.sync.log, s'.bridge.hist.log, s'.sync.log;
    if !j.OfSync? {
      LogStep(c, s.bridge, if j.OfBridge? then j.b else Ask(DoPublish));
    }
    if !j.OfBridge? {
      SyncLogStep(s.sync, j.y);
    }
    if |log'| > |log| {
      LogsGrow(log, sync, log'[|log|], sync'[|sync|..]);
      assert log' == log + [log'[|log|]] && sync' == sync + sync'[|sync|..];
    }
  }

  lemma Step2(c: Config, s: Both, j: Joint)
    requires Inv2(c, s) && Enabled2(c, s, j) && Harmless2(s, j)
    ensures Inv2(c, Apply2(c, s, j))
  {
    LogsStep(c, s, j);
    if !j.OfSync? {
      BridgeTheorems.StepKeepsInv(c, s.bridge, if j.OfBridge? then j.b else Ask(DoPublish));
    }
    if !j.OfBridge? {
      Sync.StepKeepsInv(s.sync, j.y);
    }
  }

  lemma {:induction false} Run2(c: Config, s: Both, js: seq<Joint>)
    requires Inv2(c, s) && IsRun2(c, s, js)
    ensures Inv2(c, After2(c, s, js))
    decreases |js|
  {
    if js != [] {
      Step2(c, s, js[0]);
      Run2(c, Apply2(c, s, js[0]), js[1..]);
    }
  }

  // ---- What the proxy sees -------------------------------------------------------------------------------------

  /** The command with a given number is somewhere in between. */
  lemma {:induction false} AtPos(log: seq<Entry>, a: nat, b: nat, k: nat) returns (m: nat)
    requires a <= b <= |log| && Pos(log, a) <= k < Pos(log, b)
    ensures a <= m < b && IsSync(log[m].op) && Pos(log, m) == k
  {
    if k < Pos(log, b - 1) {
      m := AtPos(log, a, b - 1, k);
    } else {
      m := b - 1;
    }
  }

  lemma {:induction false} PosMono(log: seq<Entry>, a: nat, b: nat)
    requires a < b <= |log|
    ensures Pos(log, a) + (if IsSync(log[a].op) then 1 else 0) <= Pos(log, b)
    decreases b
  {
    if a + 1 < b {
      PosMono(log, a, b - 1);
    }
  }

  /** On every joint run, between two handler calls that create fences of one id there is one that deletes the
      earlier. */
  lemma ProxySeesDeleteFirst(c: Config, s0: Both, js: seq<Joint>, a: nat, b: nat) returns (m: nat)
    requires Init(c, s0.bridge) && Sync.Init(s0.sync) && IsRun2(c, s0, js)
    requires var runs := After2(c, s0, js).bridge.hist.runs;
      && a < b < |runs| && IsFence(runs[a].core.op) && IsFence(runs[b].core.op)
      && Sync.IdOf(HandleOf(runs[a].core.op)) == Sync.IdOf(HandleOf(runs[b].core.op))
    ensures var runs := After2(c, s0, js).bridge.hist.runs;
      a < m < b && IsDelete(runs[m].core.op) && HandleOf(runs[m].core.op) == HandleOf(runs[a].core.op)
  {
    BridgeTheorems.InitInv(c, s0.bridge);
    Sync.InitInv(s0.sync);
    Run2(c, s0, js);
    var s := After2(c, s0, js);
    RunsAreLog(c, s.bridge);
    m := DeleteLogged(s.bridge.hist.log, s.sync.log, a, b);
  }

  lemma DeleteLogged(log: seq<Entry>, sync: seq<Sync.Command>, a: nat, b: nat) returns (m: nat)
    requires LogsAgree(log, sync) && a < b < |log| && forall n :: 0 <= n < |sync| ==> Sync.Alternates(sync, n)
    requires IsFence(log[a].op) && IsFence(log[b].op)
    requires Sync.IdOf(HandleOf(log[a].op)) == Sync.IdOf(HandleOf(log[b].op))
    ensures a < m < b && IsDelete(log[m].op) && HandleOf(log[m].op) == HandleOf(log[a].op)
  {
    PosMono(log, a, b);
    var k := Sync.DeletedBetween(sync, Pos(log, a), Pos(log, b));
    m := AtPos(log, a, b, k);
  }

  /** What handler calls read is what was published. */
  lemma RunsAreLog(c: Config, s: State)
    requires BridgeTheorems.Inv(c, s)
    ensures |s.hist.runs| <= |s.hist.log|
    ensures forall k :: 0 <= k < |s.hist.runs| ==> s.hist.runs[k].core.op == s.hist.log[k].op
  {
    forall k | 0 <= k < |s.hist.runs| ensures s.hist.runs[k].core.op == s.hist.log[k].op {
      assert BridgeArena.EntryOk(c, s.hist.log[k], s.hist.mem);
    }
  }
}
