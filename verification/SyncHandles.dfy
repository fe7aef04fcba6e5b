/** GLsync handles that the stub allocates itself (stub/bridge_core.c, stub/gles3_2_stub.c): next-fit ids
    under a generation count, and the order in which the proxy learns of creations and deletions. */
module SyncHandles {
  import opened Bits
  import opened Options

  const MAX_SYNCS: nat := 256
  const IDS: nat := 255
  const ID_BITS: nat := 8
  const GENS: nat := 0xFF_FFFF

  // ---- Handles ----------------------------------------------------------------------------

  /** (gen << BRIDGE_SYNC_ID_BITS) | id */
  function MakeHandle(gen: nat, id: nat): nat {
    Or(Shl(gen, ID_BITS), id)
  }

  /** handle & BRIDGE_SYNC_ID_MASK */
  function IdOf(handle: nat): nat {
    And(handle, MAX_SYNCS - 1)
  }

  /** handle >> BRIDGE_SYNC_ID_BITS */
  function GenOf(handle: nat): nat {
    Shr(handle, ID_BITS)
  }

  /** (gen + 1) & 0x00FFFFFF, skipping 0 */
  function NextGen(gen: nat): nat {
    Wrapped(gen, GENS)
  }

  function Wrapped(gen: nat, mask: nat): nat {
    var g := And(gen + 1, mask);
    if g == 0 then 1 else g
  }

  lemma Widths()
    ensures Pow2(8) == MAX_SYNCS && Pow2(24) == GENS + 1
  {
    assert Pow2(4) == 16;
    assert Pow2(12) == 4096;
    assert Pow2(16) == 65536;
    assert Pow2(20) == 1048576;
  }

  lemma NextGenIs(gen: nat)
    requires gen <= GENS
    ensures NextGen(gen) == if gen == GENS then 1 else gen + 1
  {
    WrappedIs(gen, 24, GENS) by { Widths(); }
  }

  lemma OneRound(x: nat, m: nat)
    requires 0 < x <= m
    ensures x % m == if x == m then 0 else x
  {
    if x == m {
      ModUnique(x, m, 1, 0);
    } else {
      ModUnique(x, m, 0, x);
    }
  }

  lemma WrappedIs(gen: nat, k: nat, mask: nat)
    requires Pow2(k) == mask + 1 && gen <= mask && mask > 0
    ensures Wrapped(gen, mask) == if gen == mask then 1 else gen + 1
  {
    AndMask(gen + 1, k);
    OneRound(gen + 1, mask + 1);
  }

  /** Id and generation can be read back from a handle. */
  lemma HandleParts(gen: nat, id: nat)
    requires id < MAX_SYNCS
    ensures MakeHandle(gen, id) == gen * MAX_SYNCS + id
    ensures IdOf(MakeHandle(gen, id)) == id && GenOf(MakeHandle(gen, id)) == gen
  {
    Packed(gen, id, ID_BITS, MAX_SYNCS) by { Widths(); }
    Mask(gen * MAX_SYNCS + id, ID_BITS, MAX_SYNCS) by { Widths(); }
  }

  /** gen << k | id packs and unpacks. */
  lemma Packed(gen: nat, id: nat, k: nat, m: nat)
    requires Pow2(k) == m && id < m
    ensures Or(Shl(gen, k), id) == gen * m + id
    ensures (gen * m + id) % m == id && Shr(gen * m + id, k) == gen
  {
    Pack(gen, id, k, m);
    ShrIsDiv(gen * m + id, k, m);
    ModUnique(gen * m + id, m, gen, id) by {
      assert gen * m == m * gen;
    }
  }

  // ---- The table --------------------------------------------------------------------------

  /** g_sync_used, g_sync_gen, g_sync_next */
  datatype Table = Table(used: seq<bool>, gen: nat, next: nat) {
    predicate Valid() {
      |used| == MAX_SYNCS && gen <= GENS && 1 <= next <= MAX_SYNCS
    }
  }

  /** The n-th id that an allocation looks at, n from 1. */
  function Candidate(next: nat, n: nat): (id: nat)
    requires next >= 1 && n >= 1
    ensures 1 <= id <= IDS
  {
    1 + (next - 1 + n - 1) % IDS
  }

  /** The first free candidate from the n-th on. */
  function FirstFree(t: Table, n: nat): (r: Option<nat>)
    requires t.Valid() && 1 <= n <= IDS + 1
    ensures r.Some? ==> n <= r.value <= IDS && !t.used[Candidate(t.next, r.value)]
    ensures r.Some? ==> forall m :: n <= m < r.value ==> t.used[Candidate(t.next, m)]
    ensures r.None? ==> forall m :: n <= m <= IDS ==> t.used[Candidate(t.next, m)]
    decreases IDS + 1 - n
  {
    if n > IDS then None
    else if !t.used[Candidate(t.next, n)] then Some(n)
    else FirstFree(t, n + 1)
  }

  /** What bridge_sync_alloc does to the table; handle 0 means failure. */
  function Alloc(t: Table): (r: (Table, nat))
    requires t.Valid()
  {
    match FirstFree(t, 1)
    case None => (t, 0)
    case Some(n) =>
      var id := Candidate(t.next, n);
      var gen := NextGen(t.gen);
      (Table(t.used[id := true], gen, id + 1), MakeHandle(gen, id))
  }

  /** bridge_sync_free */
  function Free(t: Table, handle: nat): Table
    requires t.Valid()
  {
    var id := IdOf(handle);
    if id == 0 then t else t.(used := t.used[id := false])
  }

  /** Every id is some candidate. */
  lemma EveryIdIsCandidate(next: nat, id: nat) returns (n: nat)
    requires 1 <= next <= MAX_SYNCS && 1 <= id <= IDS
    ensures 1 <= n <= IDS && Candidate(next, n) == id
  {
    var gap: int := id - next;
    if gap >= 0 {
      n := 1 + gap;
    } else if gap + IDS >= 0 {
      n := 1 + gap + IDS;
      assert next - 1 + n - 1 == id - 1 + IDS;
    }
  }

  /** Allocation fails exactly when all 255 ids are taken; otherwise it takes a free id and a new
      generation, and touches no other id. */
  lemma AllocFacts(t: Table)
    requires t.Valid()
    ensures var (t', h) := Alloc(t);
      && t'.Valid()
      && (h == 0 <==> forall id :: 1 <= id <= IDS ==> t.used[id])
      && (h == 0 ==> t' == t)
      && (h != 0 ==>
            && 1 <= IdOf(h) <= IDS && !t.used[IdOf(h)] && t'.used == t.used[IdOf(h) := true]
            && GenOf(h) == NextGen(t.gen) == t'.gen && h == GenOf(h) * MAX_SYNCS + IdOf(h))
  {
    NextGenIs(t.gen);
    var r := FirstFree(t, 1);
    if r.Some? {
      HandleParts(NextGen(t.gen), Candidate(t.next, r.value));
    } else {
      forall id | 1 <= id <= IDS ensures t.used[id] {
        var n := EveryIdIsCandidate(t.next, id);
      }
    }
  }

  /** The id given out last is the last candidate of the next allocation. */
  lemma LastCandidate(id: nat, n: nat)
    requires 1 <= id <= IDS && 1 <= n <= IDS && Candidate(id + 1, n) == id
    ensures n == IDS
  {
  }

  /** Next fit: an id that is freed right after its allocation is not used again while another one is free. */
  lemma NotReusedAtOnce(t: Table, other: nat)
    requires t.Valid() && Alloc(t).1 != 0
    requires var (t1, h) := Alloc(t); 1 <= other <= IDS && other != IdOf(h) && !t1.used[other]
    ensures var (t1, h) := Alloc(t);
      t1.Valid() && Alloc(Free(t1, h)).1 != 0 && IdOf(Alloc(Free(t1, h)).1) != IdOf(h)
  {
    AllocFacts(t);
    var (t1, h) := Alloc(t);
    AllocFacts(Free(t1, h));
    NextIs(t);
    Passes(Free(t1, h), IdOf(h), other);
  }

  /** The id just before the next one is taken only when no other is free. */
  lemma Passes(t: Table, id: nat, other: nat)
    requires t.Valid() && 1 <= id <= IDS && t.next == id + 1
    requires 1 <= other <= IDS && other != id && !t.used[other]
    ensures Alloc(t).1 != 0 && IdOf(Alloc(t).1) != id
  {
    AllocFacts(t);
    var n := EveryIdIsCandidate(t.next, other);
    var r := FirstFree(t, 1);
    assert r.Some? && r.value <= n;
    if Candidate(t.next, r.value) == id {
      LastCandidate(id, r.value);
    }
    AllocId(t);
  }

  lemma NextIs(t: Table)
    requires t.Valid() && Alloc(t).1 != 0
    ensures Alloc(t).0.next == IdOf(Alloc(t).1) + 1
  {
    AllocFacts(t);
    AllocId(t);
  }

  /** The id in the handle is that of the first free candidate. */
  lemma AllocId(t: Table)
    requires t.Valid() && FirstFree(t, 1).Some?
    ensures IdOf(Alloc(t).1) == Candidate(t.next, FirstFree(t, 1).value)
  {
    HandleParts(NextGen(t.gen), Candidate(t.next, FirstFree(t, 1).value));
  }

  /** The allocator as the stub keeps it. */
  class SyncTable {
    var used: array<bool>
    var gen: nat
    var next: nat

    ghost predicate Valid()
      reads this, used
    {
      View().Valid()
    }

    ghost function View(): Table
      reads this, used
    {
      Table(used[..], gen, next)
    }

    constructor ()
      ensures Valid() && fresh(used) && gen == 0 && next == 1
      ensures forall id :: 0 <= id < used.Length ==> !used[id]
    {
      used := new bool[MAX_SYNCS](_ => false);
      gen, next := 0, 1;
    }

    method BumpGen()
      modifies this`gen
      ensures gen == NextGen(old(gen)) && gen <= GENS
    {
      gen := And(gen + 1, GENS);
      if gen == 0 {
        gen := 1;
      }
    }

    method BridgeSyncAlloc() returns (handle: nat)
      requires Valid()
      modifies this`gen, this`next, used
      ensures Valid() && View() == Alloc(old(View())).0 && handle == Alloc(old(View())).1
    {
      handle := 0;
      var n := 1;
      ghost var t := View();
      while n < MAX_SYNCS
        invariant 1 <= n <= MAX_SYNCS && View() == t && handle == 0
        invariant FirstFree(t, 1) == FirstFree(t, n)
      {
        var id := 1 + (next - 1 + n - 1) % IDS;
        if !used[id] {
          used[id] := true;
          next := id + 1;
          BumpGen();
          handle := MakeHandle(gen, id);
          assert used[..] == t.used[id := true];
          return;
        }
        n := n + 1;
      }
    }

    method BridgeSyncFree(handle: nat)
      requires Valid()
      modifies used
      ensures Valid() && View() == Free(old(View()), handle)
    {
      var id := And(handle, MAX_SYNCS - 1);
      if id == 0 {
        return;
      }
      used[id] := false;
    }
  }

  // ---- Generations ------------------------------------------------------------------------

  /** Generation of the k-th successful allocation of a fresh table, k from 0. */
  function GenAt(k: nat): (g: nat)
    ensures 1 <= g <= GENS
  {
    1 + k % GENS
  }

  lemma GenAtNext(k: nat)
    ensures NextGen(GenAt(k)) == GenAt(k + 1)
  {
    NextGenIs(GenAt(k));
    var q, r := k / GENS, k % GENS;
    if r + 1 < GENS {
      ModUnique(k + 1, GENS, q, r + 1);
    } else {
      ModUnique(k + 1, GENS, q + 1, 0);
    }
  }

  lemma EqualGensApart(j: nat, k: nat)
    requires j < k && GenAt(j) == GenAt(k)
    ensures k - j >= GENS
  {
    assert k - j == GENS * (k / GENS - j / GENS);
  }

  // ---- Client threads ---------------------------------------------------------------------

  /** What the proxy sees, in the order of the ring. Again is a deletion of a handle that the client does not own,
      most likely deleted before; for the proxy it looks like any other. */
  datatype Command = Fence(handle: nat) | Delete(handle: nat) | Again(handle: nat)

  /** Where a thread is inside glFenceSync or glDeleteSync. */
  datatype ThreadPc = Idle | HasHandle(handle: nat) | SentDelete(handle: nat) | SentAgain(handle: nat)

  /** Who keeps an id taken: the thread that allocated it, the client, or the thread that deletes it. */
  datatype Holder = Made(tid: nat, handle: nat) | Owned(handle: nat) | Leaving(tid: nat, handle: nat)

  /** owned: handles that glFenceSync has returned and nobody has deleted yet. log, made and holders are
      history: the published commands, the handles of all successful allocations, the taken ids. */
  datatype State = State(table: Table, threads: map<nat, ThreadPc>, owned: set<nat>,
                         log: seq<Command>, made: seq<nat>, holders: map<nat, Holder>)

  datatype Step =
    | DoAlloc(tid: nat)
    | DoSendFence(tid: nat)
    | DoSendDelete(tid: nat, handle: nat)
    | DoSendAgain(tid: nat, handle: nat)
    | DoFree(tid: nat)

  /** glDeleteSync takes any handle but 0. */
  predicate Enabled(s: State, st: Step) {
    s.table.Valid() && st.tid in s.threads &&
    match st
    case DoAlloc(t) => s.threads[t].Idle?
    case DoSendFence(t) => s.threads[t].HasHandle?
    case DoSendDelete(t, h) => s.threads[t].Idle? && h in s.owned
    case DoSendAgain(t, h) => s.threads[t].Idle? && h !in s.owned && h != 0
    case DoFree(t) => s.threads[t].SentDelete? || s.threads[t].SentAgain?
  }

  /** Freeing the id of a handle that the client does not own hits no other handle with that id. */
  predicate Harmless(s: State, st: Step) {
    st.DoFree? && st.tid in s.threads && s.threads[st.tid].SentAgain? ==>
      var id := IdOf(s.threads[st.tid].handle); id == 0 || id !in s.holders
  }

  function AllocStep(s: State, t: nat): State
    requires s.table.Valid()
  {
    var (table, h) := Alloc(s.table);
    if h == 0 then s
    else s.(table := table, threads := s.threads[t := HasHandle(h)], made := s.made + [h],
            holders := s.holders[IdOf(h) := Made(t, h)])
  }

  function FenceStep(s: State, t: nat, h: nat): State {
    s.(threads := s.threads[t := Idle], owned := s.owned + {h}, log := s.log + [Fence(h)],
       holders := s.holders[IdOf(h) := Owned(h)])
  }

  /** glDeleteSync publishes first and frees afterwards. */
  function DeleteStep(s: State, t: nat, h: nat): State {
    s.(threads := s.threads[t := SentDelete(h)], owned := s.owned - {h}, log := s.log + [Delete(h)],
       holders := s.holders[IdOf(h) := Leaving(t, h)])
  }

  function FreeStep(s: State, t: nat, h: nat): State
    requires s.table.Valid()
  {
    s.(table := Free(s.table, h), threads := s.threads[t := Idle], holders := s.holders - {IdOf(h)})
  }

  function AgainStep(s: State, t: nat, h: nat): State {
    s.(threads := s.threads[t := SentAgain(h)], log := s.log + [Again(h)])
  }

  /** Whoever holds the id goes on holding it, but it is free in the table. */
  function FreeAgainStep(s: State, t: nat, h: nat): State
    requires s.table.Valid()
  {
    s.(table := Free(s.table, h), threads := s.threads[t := Idle])
  }

  function Apply(s: State, st: Step): State
    requires Enabled(s, st)
  {
    match st
    case DoAlloc(t) => AllocStep(s, t)
    case DoSendFence(t) => FenceStep(s, t, s.threads[t].handle)
    case DoSendDelete(t, h) => DeleteStep(s, t, h)
    case DoSendAgain(t, h) => AgainStep(s, t, h)
    case DoFree(t) =>
      var h := s.threads[t].handle;
      if s.threads[t].SentDelete? then FreeStep(s, t, h) else FreeAgainStep(s, t, h)
  }

  // ---- The order of commands --------------------------------------------------------------

  /** A creation, or the deletion of a handle that was owned */
  predicate About(e: Command, id: nat) {
    !e.Again? && IdOf(e.handle) == id
  }

  /** The last command about an id among the first n. */
  function Last(log: seq<Command>, n: nat, id: nat): Option<Command>
    requires n <= |log|
  {
    if n == 0 then None
    else if About(log[n - 1], id) then Some(log[n - 1])
    else Last(log, n - 1, id)
  }

  lemma {:induction false} LastPrefix(log: seq<Command>, more: seq<Command>, n: nat, id: nat)
    requires n <= |log|
    ensures Last(log + more, n, id) == Last(log, n, id)
  {
    if n > 0 {
      LastPrefix(log, more, n - 1, id);
    }
  }

  /** Nothing about the id is out, or its last command is a deletion. */
  predicate Quiet(last: Option<Command>) {
    last.None? || last.value.Delete?
  }

  /** A fence follows nothing or a deletion of the same id; a deletion follows the fence of its handle. */
  predicate Alternates(log: seq<Command>, j: nat)
    requires j < |log|
  {
    var last := Last(log, j, IdOf(log[j].handle));
    if log[j].Fence? then Quiet(last) else log[j].Delete? ==> last == Some(Fence(log[j].handle))
  }

  /** Between two fences of one id the earlier handle is deleted. */
  lemma {:induction false} DeletedBetween(log: seq<Command>, i: nat, j: nat) returns (k: nat)
    requires i < j < |log| && forall n :: 0 <= n < |log| ==> Alternates(log, n)
    requires log[i].Fence? && log[j].Fence? && IdOf(log[i].handle) == IdOf(log[j].handle)
    ensures i < k < j && log[k] == Delete(log[i].handle)
  {
    assert Alternates(log, j);
    k := FirstDelete(log, i, j, IdOf(log[i].handle));
  }

  /** If the last command about the id of fence i is a deletion, fence i has been deleted. */
  lemma {:induction false} FirstDelete(log: seq<Command>, i: nat, n: nat, id: nat) returns (k: nat)
    requires i < n <= |log| && forall m :: 0 <= m < |log| ==> Alternates(log, m)
    requires log[i].Fence? && IdOf(log[i].handle) == id && Quiet(Last(log, n, id))
    ensures i < k < n && log[k] == Delete(log[i].handle)
    decreases n
  {
    if About(log[n - 1], id) {
      k := MatchingDelete(log, i, n - 1, id);
    } else {
      k := FirstDelete(log, i, n - 1, id);
    }
  }

  /** The first command about the id after fence i is the deletion of its handle. */
  lemma {:induction false} MatchingDelete(log: seq<Command>, i: nat, j: nat, id: nat) returns (k: nat)
    requires i < j < |log| && forall m :: 0 <= m < |log| ==> Alternates(log, m)
    requires log[i].Fence? && IdOf(log[i].handle) == id && About(log[j], id)
    ensures i < k <= j && log[k] == Delete(log[i].handle)
    decreases j
  {
    assert Alternates(log, j);
    if m :| i < m < j && About(log[m], id) {
      k := MatchingDelete(log, i, m, id);
    } else {
      LastIs(log, i, j, id);
      k := j;
    }
  }

  lemma {:induction false} LastIs(log: seq<Command>, i: nat, j: nat, id: nat)
    requires i < j <= |log| && About(log[i], id)
    requires forall m :: i < m < j ==> !About(log[m], id)
    ensures Last(log, j, id) == Some(log[i])
    decreases j
  {
    if i + 1 < j {
      LastIs(log, i, j - 1, id);
    }
  }

  // ---- Invariant --------------------------------------------------------------------------

  predicate HandleOk(h: nat) {
    1 <= IdOf(h) <= IDS
  }

  /** What a thread's position means. */
  predicate ThreadOk(s: State, t: nat)
    requires t in s.threads
  {
    match s.threads[t]
    case Idle => true
    case HasHandle(h) => HandleOk(h) && IdOf(h) in s.holders && s.holders[IdOf(h)] == Made(t, h)
    case SentDelete(h) => HandleOk(h) && IdOf(h) in s.holders && s.holders[IdOf(h)] == Leaving(t, h)
    case SentAgain(_) => true
  }

  predicate OwnedOk(s: State, h: nat) {
    HandleOk(h) && IdOf(h) in s.holders && s.holders[IdOf(h)] == Owned(h)
  }

  /** What a taken or free id means for the log. */
  predicate IdOk(s: State, id: nat) {
    var last := Last(s.log, |s.log|, id);
    if id !in s.holders then Quiet(last)
    else
      match s.holders[id]
      case Made(t, h) => IdOf(h) == id && Quiet(last) && t in s.threads && s.threads[t] == HasHandle(h)
      case Owned(h) => IdOf(h) == id && last == Some(Fence(h)) && h in s.owned
      case Leaving(t, h) => IdOf(h) == id && last == Some(Delete(h)) && t in s.threads && s.threads[t] == SentDelete(h)
  }

  predicate Inv(s: State) {
    && s.table.Valid()
    && (forall t :: t in s.threads ==> ThreadOk(s, t))
    && (forall h :: h in s.owned ==> OwnedOk(s, h))
    && (forall id :: 1 <= id <= IDS ==> IdOk(s, id) && (s.table.used[id] <==> id in s.holders))
    && (forall j :: 0 <= j < |s.log| ==> Alternates(s.log, j))
  }

  /** Generations count the allocations. */
  predicate GensOk(s: State) {
    && s.table.gen == (if s.made == [] then 0 else GenAt(|s.made| - 1))
    && (forall k :: 0 <= k < |s.made| ==> s.made[k] == GenAt(k) * MAX_SYNCS + IdOf(s.made[k]))
  }

  predicate Init(s: State) {
    && s.table == Table(seq(MAX_SYNCS, _ => false), 0, 1)
    && (forall t :: t in s.threads ==> s.threads[t].Idle?)
    && s.owned == {} && s.log == [] && s.made == [] && s.holders == map[]
  }

  lemma InitInv(s: State)
    requires Init(s)
    ensures Inv(s) && GensOk(s)
  {
  }

  lemma AllocKeeps(s: State, t: nat)
    requires Inv(s) && Enabled(s, DoAlloc(t))
    ensures Inv(AllocStep(s, t))
  {
    AllocFacts(s.table);
    var s' := AllocStep(s, t);
    var (table, h) := Alloc(s.table);
    if h != 0 {
      forall u | u in s'.threads ensures ThreadOk(s', u) {
        assert ThreadOk(s, u);
      }
      forall g | g in s'.owned ensures OwnedOk(s', g) {
        assert OwnedOk(s, g);
      }
      forall id | 1 <= id <= IDS ensures IdOk(s', id) {
        assert IdOk(s, id);
      }
    }
  }

  lemma LogGrows(s: State, e: Command, id: nat)
    ensures var log' := s.log + [e];
      Last(log', |log'|, id) == if About(e, id) then Some(e) else Last(s.log, |s.log|, id)
  {
    LastPrefix(s.log, [e], |s.log|, id);
  }

  lemma AlternatesGrows(s: State, e: Command)
    requires forall j :: 0 <= j < |s.log| ==> Alternates(s.log, j)
    requires var last := Last(s.log, |s.log|, IdOf(e.handle));
      if e.Fence? then Quiet(last) else e.Delete? ==> last == Some(Fence(e.handle))
    ensures forall j :: 0 <= j < |s.log| + 1 ==> Alternates(s.log + [e], j)
  {
    forall j | 0 <= j < |s.log| + 1 ensures Alternates(s.log + [e], j) {
      if j < |s.log| {
        assert Alternates(s.log, j);
        LastPrefix(s.log, [e], j, IdOf(s.log[j].handle));
      } else {
        LastPrefix(s.log, [e], j, IdOf(e.handle));
      }
    }
  }

  lemma FenceKeeps(s: State, t: nat)
    requires Inv(s) && Enabled(s, DoSendFence(t))
    ensures Inv(FenceStep(s, t, s.threads[t].handle))
  {
    var h := s.threads[t].handle;
    var s' := FenceStep(s, t, h);
    assert ThreadOk(s, t) && IdOk(s, IdOf(h));
    AlternatesGrows(s, Fence(h));
    forall u | u in s'.threads ensures ThreadOk(s', u) {
      assert ThreadOk(s, u);
    }
    forall g | g in s'.owned ensures OwnedOk(s', g) {
      assert g == h || OwnedOk(s, g);
    }
    forall id | 1 <= id <= IDS ensures IdOk(s', id) && (s'.table.used[id] <==> id in s'.holders) {
      assert IdOk(s, id);
      LogGrows(s, Fence(h), id);
    }
  }

  lemma DeleteKeeps(s: State, t: nat, h: nat)
    requires Inv(s) && Enabled(s, DoSendDelete(t, h))
    ensures Inv(DeleteStep(s, t, h))
  {
    var s' := DeleteStep(s, t, h);
    assert OwnedOk(s, h) && IdOk(s, IdOf(h));
    AlternatesGrows(s, Delete(h));
    forall u | u in s'.threads ensures ThreadOk(s', u) {
      assert ThreadOk(s, u);
    }
    forall g | g in s'.owned ensures OwnedOk(s', g) {
      assert OwnedOk(s, g);
    }
    forall id | 1 <= id <= IDS ensures IdOk(s', id) && (s'.table.used[id] <==> id in s'.holders) {
      assert IdOk(s, id);
      LogGrows(s, Delete(h), id);
    }
  }

  lemma FreeKeeps(s: State, t: nat)
    requires Inv(s) && Enabled(s, DoFree(t)) && s.threads[t].SentDelete?
    ensures Inv(FreeStep(s, t, s.threads[t].handle))
  {
    var h := s.threads[t].handle;
    var s' := FreeStep(s, t, h);
    assert ThreadOk(s, t) && IdOk(s, IdOf(h));
    forall u | u in s'.threads ensures ThreadOk(s', u) {
      assert ThreadOk(s, u);
    }
    forall g | g in s'.owned ensures OwnedOk(s', g) {
      assert OwnedOk(s, g);
    }
    forall id | 1 <= id <= IDS ensures IdOk(s', id) && (s'.table.used[id] <==> id in s'.holders) {
      assert IdOk(s, id);
    }
  }

  lemma AgainKeeps(s: State, t: nat, h: nat)
    requires Inv(s) && Enabled(s, DoSendAgain(t, h))
    ensures Inv(AgainStep(s, t, h))
  {
    var s' := AgainStep(s, t, h);
    AlternatesGrows(s, Again(h));
    forall u | u in s'.threads ensures ThreadOk(s', u) {
      assert ThreadOk(s, u);
    }
    forall g | g in s'.owned ensures OwnedOk(s', g) {
      assert OwnedOk(s, g);
    }
    forall id | 1 <= id <= IDS ensures IdOk(s', id) && (s'.table.used[id] <==> id in s'.holders) {
      assert IdOk(s, id);
      LogGrows(s, Again(h), id);
    }
  }

  lemma FreeAgainKeeps(s: State, t: nat)
    requires Inv(s) && Enabled(s, DoFree(t)) && s.threads[t].SentAgain? && Harmless(s, DoFree(t))
    ensures Inv(FreeAgainStep(s, t, s.threads[t].handle))
  {
    var s' := FreeAgainStep(s, t, s.threads[t].handle);
    forall u | u in s'.threads ensures ThreadOk(s', u) {
      assert ThreadOk(s, u);
    }
    forall g | g in s'.owned ensures OwnedOk(s', g) {
      assert OwnedOk(s, g);
    }
    forall id | 1 <= id <= IDS ensures IdOk(s', id) && (s'.table.used[id] <==> id in s'.holders) {
      assert IdOk(s, id);
    }
  }

  lemma StepKeepsInv(s: State, st: Step)
    requires Inv(s) && Enabled(s, st) && Harmless(s, st)
    ensures Inv(Apply(s, st))
  {
    match st
    case DoAlloc(t) => AllocKeeps(s, t);
    case DoSendFence(t) => FenceKeeps(s, t);
    case DoSendDelete(t, h) => DeleteKeeps(s, t, h);
    case DoSendAgain(t, h) => AgainKeeps(s, t, h);
    case DoFree(t) =>
      if s.threads[t].SentDelete? {
        FreeKeeps(s, t);
      } else {
        FreeAgainKeeps(s, t);
      }
  }

  lemma StepKeepsGens(s: State, st: Step)
    requires s.table.Valid() && GensOk(s) && Enabled(s, st)
    ensures GensOk(Apply(s, st))
  {
    if st.DoAlloc? {
      AllocKeepsGens(s, st.tid);
    }
  }

  lemma AllocKeepsGens(s: State, t: nat)
    requires s.table.Valid() && GensOk(s)
    ensures GensOk(AllocStep(s, t))
  {
    AllocFacts(s.table);
    NextGenAt(|s.made|);
    var h := Alloc(s.table).1;
    assert h != 0 ==> h == GenAt(|s.made|) * MAX_SYNCS + IdOf(h);
  }

  /** The generation of the next allocation */
  lemma NextGenAt(n: nat)
    ensures NextGen(if n == 0 then 0 else GenAt(n - 1)) == GenAt(n)
  {
    if n == 0 {
      NextGenIs(0);
    } else {
      GenAtNext(n - 1);
    }
  }

  // ---- Runs -------------------------------------------------------------------------------

  predicate IsRun(s: State, steps: seq<Step>)
    decreases |steps|
  {
    s.table.Valid() && (steps == [] || (Enabled(s, steps[0]) && IsRun(Apply(s, steps[0]), steps[1..])))
  }

  function After(s: State, steps: seq<Step>): State
    requires IsRun(s, steps)
    decreases |steps|
  {
    if steps == [] then s else After(Apply(s, steps[0]), steps[1..])
  }

  predicate AllHarmless(s: State, steps: seq<Step>)
    requires IsRun(s, steps)
    decreases |steps|
  {
    steps == [] || (Harmless(s, steps[0]) && AllHarmless(Apply(s, steps[0]), steps[1..]))
  }

  /** Deleting every handle at most once is harmless. */
  lemma {:induction false} OnceIsHarmless(s: State, steps: seq<Step>)
    requires IsRun(s, steps) && forall t :: t in s.threads ==> !s.threads[t].SentAgain?
    requires forall i :: 0 <= i < |steps| ==> !steps[i].DoSendAgain?
    ensures AllHarmless(s, steps)
    decreases |steps|
  {
    if steps != [] {
      OnceIsHarmless(Apply(s, steps[0]), steps[1..]);
    }
  }

  lemma {:induction false} RunKeepsInv(s: State, steps: seq<Step>)
    requires Inv(s) && IsRun(s, steps) && AllHarmless(s, steps)
    ensures Inv(After(s, steps))
    decreases |steps|
  {
    if steps != [] {
      StepKeepsInv(s, steps[0]);
      RunKeepsInv(Apply(s, steps[0]), steps[1..]);
    }
  }

  lemma {:induction false} RunKeepsGens(s: State, steps: seq<Step>)
    requires GensOk(s) && IsRun(s, steps)
    ensures GensOk(After(s, steps))
    decreases |steps|
  {
    if steps != [] {
      StepKeepsGens(s, steps[0]);
      RunKeepsGens(Apply(s, steps[0]), steps[1..]);
    }
  }

  /** On every interleaving of the client threads the proxy sees the deletion of an id's old handle before
      the fence of its new one. */
  lemma DeleteSeenFirst(s0: State, steps: seq<Step>, i: nat, j: nat) returns (k: nat)
    requires Init(s0) && IsRun(s0, steps) && AllHarmless(s0, steps) && i < j < |After(s0, steps).log|
    requires var log := After(s0, steps).log;
      log[i].Fence? && log[j].Fence? && IdOf(log[i].handle) == IdOf(log[j].handle)
    ensures i < k < j && After(s0, steps).log[k] == Delete(After(s0, steps).log[i].handle)
  {
    InitInv(s0);
    RunKeepsInv(s0, steps);
    k := DeletedBetween(After(s0, steps).log, i, j);
  }

  /** Live handles, whether returned already or about to be, have distinct ids. */
  predicate Distinct(s: State) {
    && (forall g, h :: g in s.owned && h in s.owned && g != h ==> IdOf(g) != IdOf(h))
    && (forall t, h :: t in s.threads && s.threads[t].HasHandle? && h in s.owned ==>
          IdOf(s.threads[t].handle) != IdOf(h))
    && (forall t, u ::
          t in s.threads && u in s.threads && t != u && s.threads[t].HasHandle? && s.threads[u].HasHandle? ==>
          IdOf(s.threads[t].handle) != IdOf(s.threads[u].handle))
  }

  lemma InvDistinct(s: State)
    requires Inv(s)
    ensures Distinct(s)
  {
    forall h | h in s.owned ensures s.holders[IdOf(h)] == Owned(h) {
      assert OwnedOk(s, h);
    }
    forall t | t in s.threads && s.threads[t].HasHandle?
      ensures s.holders[IdOf(s.threads[t].handle)] == Made(t, s.threads[t].handle)
    {
      assert ThreadOk(s, t);
    }
  }

  /** Live handles have distinct ids, and an allocation fails exactly when 255 of them are live. */
  lemma LiveHandles(s0: State, steps: seq<Step>)
    requires Init(s0) && IsRun(s0, steps) && AllHarmless(s0, steps)
    ensures var s := After(s0, steps);
      && Distinct(s) && s.table.Valid()
      && (Alloc(s.table).1 == 0 <==> forall id :: 1 <= id <= IDS ==> id in s.holders)
  {
    InitInv(s0);
    RunKeepsInv(s0, steps);
    InvDistinct(After(s0, steps));
    AllocFacts(After(s0, steps).table);
  }

  /** A handle value comes back only after 2^24 - 1 successful allocations, whatever is deleted. */
  lemma HandlesReturnLate(s0: State, steps: seq<Step>, j: nat, k: nat)
    requires Init(s0) && IsRun(s0, steps) && j < k < |After(s0, steps).made|
    requires After(s0, steps).made[j] == After(s0, steps).made[k]
    ensures k - j >= GENS
  {
    InitInv(s0);
    RunKeepsGens(s0, steps);
    EqualGensApart(j, k);
  }
}
