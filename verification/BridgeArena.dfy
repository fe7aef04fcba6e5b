/** The payload arena: no live payload is overwritten, and every handler sees the bytes its client wrote.

    Positions are counted without wrapping; position p is stored at arena[p % c.arena]. The history's
    map mem holds the byte every client copied to a position. */
module BridgeArena {
  import opened RingConfig
  import opened BridgeModel
  import opened BridgeRing

  // ---- Arithmetic -------------------------------------------------------------------------

  lemma OffsetMod(start: nat, j: nat, m: nat)
    requires m > 0 && start % m + j < m
    ensures (start + j) % m == start % m + j
  {
    Bits.ModUnique(start + j, m, start / m, start % m + j);
  }

  import Bits
  import opened Options

  /** Where an allocation lands: aligned, inside the arena, and at the residue of its position. */
  lemma PlaceFacts(head: nat, size: nat, arena: nat)
    requires arena > 0 && arena % 4 == 0 && head % 4 == 0 && size % 4 == 0 && size <= arena
    ensures var (offset, newHead) := Place(head, size, arena);
      && newHead >= head + size && newHead % 4 == 0
      && offset % 4 == 0 && offset + size <= arena
      && offset == (newHead - size) % arena
  {
    ModOfMultiple(head, arena);
    NextWrap(head, arena);
    PlaceAtFacts(head, head % arena, size, arena);
  }

  lemma PlaceAtFacts(head: nat, pos: nat, size: nat, arena: nat)
    requires pos < arena && size <= arena
    requires arena % 4 == 0 && head % 4 == 0 && size % 4 == 0 && pos % 4 == 0
    ensures var (offset, newHead) := PlaceAt(head, pos, size, arena);
      && newHead >= head + size && newHead % 4 == 0
      && offset % 4 == 0 && offset + size <= arena
      && (if size <= arena - pos then newHead - size == head && offset == pos
          else newHead - size == head + (arena - pos) && offset == 0)
  {
  }

  lemma NextWrap(head: nat, arena: nat)
    requires arena > 0
    ensures (head + (arena - head % arena)) % arena == 0
  {
    assert head == arena * (head / arena) + head % arena;
    assert arena * (head / arena + 1) == arena * (head / arena) + arena;
    Bits.ModUnique(head + (arena - head % arena), arena, head / arena + 1, 0);
  }

  lemma ModOfMultiple(x: nat, m: nat)
    requires m > 0 && m % 4 == 0 && x % 4 == 0
    ensures (x % m) % 4 == 0
  {
    var k := m / 4;
    assert x == m * (x / m) + x % m && m == 4 * k;
    assert m * (x / m) == 4 * (k * (x / m));
  }

  lemma Round4Fits(size: nat, arena: nat)
    requires arena % 4 == 0 && size <= arena
    ensures Round4(size) <= arena
  {
  }

  // ---- Invariant --------------------------------------------------------------------------

  /** Head after the first n commands. */
  function EndOf(log: seq<Entry>, n: nat): nat
    requires n <= |log|
  {
    if n == 0 then 0 else log[n - 1].end
  }

  /** Each command owns the window [begin, end); the windows follow each other. */
  predicate WindowOk(log: seq<Entry>, q: nat)
    requires q < |log|
  {
    && log[q].begin == EndOf(log, q) && log[q].begin <= log[q].end
    && log[q].core.wm == log[q].end
    && (!log[q].core.wmValid ==> log[q].begin == log[q].end)
  }

  predicate Windows(log: seq<Entry>) {
    forall q :: 0 <= q < |log| ==> WindowOk(log, q)
  }

  lemma {:induction false} EndMono(log: seq<Entry>, i: nat, j: nat)
    requires Windows(log) && i <= j <= |log|
    ensures EndOf(log, i) <= EndOf(log, j)
    decreases j - i
  {
    if i < j {
      EndMono(log, i, j - 1);
      assert WindowOk(log, j - 1);
    }
  }

  /** data_tail: the end of the last released window. */
  predicate TailAt(s: State) {
    && s.ring.completed <= |s.hist.log|
    && if s.proxy.pc.LoadNeeds? || s.proxy.pc.Complete? then
         s.ring.completed < |s.hist.log| && s.ring.tail == s.hist.log[s.ring.completed].end
       else s.ring.tail == EndOf(s.hist.log, s.ring.completed)
  }

  predicate HeadAt(c: Config, s: State) {
    var p, end := s.stub, EndOf(s.hist.log, |s.hist.log|);
    && p.head % 4 == 0
    && s.ring.tail <= p.head <= s.ring.tail + c.arena
    && (if Unpublished(p.pc) then p.begin == end && p.begin <= p.head else p.head == end)
  }

  /** The first n bytes stand at start. */
  predicate Holds(mem: map<int, byte>, start: int, bytes: seq<byte>, n: nat)
    requires n <= |bytes|
  {
    forall j :: 0 <= j < n ==> Byte(mem, start + j) == Some(bytes[j])
  }

  function Byte(mem: map<int, byte>, p: int): Option<byte> {
    if p in mem then Some(mem[p]) else None
  }

  /** One payload and the reference the command carries to it. */
  predicate PayloadOk(c: Config, pl: Payload, ref: Ref, lo: nat, hi: nat, mem: map<int, byte>)
    requires c.arena > 0
  {
    && lo <= pl.start && pl.start + Round4(ref.size) <= hi
    && ref.offset == pl.start % c.arena && ref.offset % 4 == 0
    && ref.offset + Round4(ref.size) <= c.arena
    && |pl.bytes| <= ref.size
    && Holds(mem, pl.start, pl.bytes, |pl.bytes|)
  }

  predicate PayloadsOk(c: Config, pls: seq<Payload>, refs: seq<Ref>, lo: nat, hi: nat, mem: map<int, byte>)
    requires c.arena > 0
  {
    && |pls| == |refs|
    && forall k :: 0 <= k < |pls| ==> PayloadOk(c, pls[k], refs[k], lo, hi, mem)
  }

  /** A published slot says what its issuer meant. */
  predicate EntryOk(c: Config, e: Entry, mem: map<int, byte>)
    requires c.arena > 0
  {
    && e.core.op == e.op && e.core.ctx == e.issuer && e.core.needs == NeedsOf(c, e.mode)
    && PayloadsOk(c, e.payloads, e.core.refs, e.begin, e.end, mem)
  }

  predicate EntriesOk(c: Config, s: State)
    requires c.arena > 0
  {
    forall q :: 0 <= q < |s.hist.log| ==> EntryOk(c, s.hist.log[q], s.hist.mem)
  }

  /** Position of the payload being written. */
  function Start(p: Stub): int {
    p.head - Round4(p.size)
  }

  /** The slot being filled, store by store. */
  predicate FillingOk(c: Config, s: State)
    requires Shaped(c, s)
  {
    var p, slot := s.stub, StubSlot(c, s);
    match p.pc
    case Filling(k) =>
      && k <= 4 && p.payloads == [] && p.head == p.begin
      && (k >= 1 ==> slot.ctx == p.issuer) && (k >= 2 ==> slot.wm == p.head) && (k >= 3 ==> !slot.wmValid)
    case Encode => Encoded(c, s) && slot.wm == p.head
    case Alloc => Encoded(c, s) && slot.wm == p.head && Sized(c, p)
    case Copy => Writing(c, s)
    case Record(k) =>
      && k <= 2 && Writing(c, s) && (p.src.Some? ==> p.copied == p.size)
      && (k >= 1 ==> slot.wm == p.head) && (k >= 2 ==> slot.wmValid)
    case Publish => Encoded(c, s) && slot.wm == p.head && slot.needs == NeedsOf(c, p.mode)
    case _ => true
  }

  predicate Sized(c: Config, p: Stub) {
    p.size <= c.arena && (p.src.Some? ==> |p.src.value| == p.size)
  }

  /** Command words and finished payloads are in place. */
  predicate Encoded(c: Config, s: State)
    requires Shaped(c, s)
  {
    var p, slot := s.stub, StubSlot(c, s);
    && slot.op == p.op && slot.ctx == p.issuer
    && (!slot.wmValid || p.payloads == [] ==> p.head == p.begin)
    && PayloadsOk(c, p.payloads, slot.refs, p.begin, p.head, s.hist.mem)
  }

  /** A payload is allocated and its first bytes are copied. */
  predicate Writing(c: Config, s: State)
    requires Shaped(c, s)
  {
    var p, slot := s.stub, StubSlot(c, s);
    && Sized(c, p) && p.begin <= Start(p)
    && slot.op == p.op && slot.ctx == p.issuer
    && p.offset == Start(p) % c.arena && p.offset % 4 == 0 && p.offset + Round4(p.size) <= c.arena
    && PayloadsOk(c, p.payloads, slot.refs, p.begin, Start(p), s.hist.mem)
    && p.copied <= p.size
    && (p.src.Some? ==> Holds(s.hist.mem, Start(p), p.src.value, p.copied))
  }

  /** From here on the arena still holds what the clients copied: the handler of the current slot may
      write into its own window once it has started. */
  function LiveFrom(s: State): nat
    requires s.ring.completed <= |s.hist.log|
    requires Started(s.proxy.pc) ==> s.ring.completed < |s.hist.log|
  {
    if Started(s.proxy.pc) then s.hist.log[s.ring.completed].end else EndOf(s.hist.log, s.ring.completed)
  }

  /** Payload integrity */
  predicate LiveByte(c: Config, s: State, from: nat, p: int)
    requires Shaped(c, s) && p in s.hist.mem
  {
    p < s.stub.head && (from <= p ==> s.ring.arena[p % c.arena] == s.hist.mem[p])
  }

  predicate LiveBytes(c: Config, s: State)
    requires Shaped(c, s)
    requires s.ring.completed <= |s.hist.log|
    requires Started(s.proxy.pc) ==> s.ring.completed < |s.hist.log|
  {
    forall p :: p in s.hist.mem ==> LiveByte(c, s, LiveFrom(s), p)
  }

  /** What a handler could read is what the client wrote. */
  predicate ViewsOk(views: seq<seq<byte>>, pls: seq<Payload>) {
    && |views| == |pls|
    && forall k :: 0 <= k < |pls| ==> pls[k].bytes <= views[k]
  }

  predicate RunsSawBytes(s: State) {
    && |s.hist.runs| <= |s.hist.log|
    && forall k :: 0 <= k < |s.hist.runs| ==> ViewsOk(s.hist.runs[k].views, s.hist.log[k].payloads)
  }

  predicate Layout(c: Config, s: State)
    requires Shaped(c, s)
  {
    Windows(s.hist.log) && TailAt(s) && HeadAt(c, s)
  }

  predicate ArenaInv(c: Config, s: State)
    requires RingInv(c, s)
  {
    Layout(c, s) && EntriesOk(c, s) && FillingOk(c, s) && LiveBytes(c, s) && RunsSawBytes(s)
  }

  lemma InitArena(c: Config, s: State)
    requires Init(c, s) && RingInv(c, s)
    ensures ArenaInv(c, s)
  {
  }

  // ---- Layout -----------------------------------------------------------------------------

  /** One round of ring_data_alloc keeps head - tail within the arena. */
  lemma AllocLayout(c: Config, s: State)
    requires RingInv(c, s) && Layout(c, s) && FillingOk(c, s) && s.stub.pc.Alloc?
    ensures Layout(c, AllocData(c, s))
  {
    Round4Fits(s.stub.size, c.arena);
    PlaceFacts(s.stub.head, Round4(s.stub.size), c.arena);
  }

  lemma LayoutFrame(c: Config, s: State, s': State)
    requires Shaped(c, s) && Layout(c, s) && Shaped(c, s')
    requires s'.hist.log == s.hist.log && s'.proxy == s.proxy
    requires s'.ring.completed == s.ring.completed && s'.ring.tail == s.ring.tail
    requires s'.stub.head == s.stub.head
    requires Unpublished(s'.stub.pc) ==>
               s'.stub.begin == if Unpublished(s.stub.pc) then s.stub.begin else s.stub.head
    requires Unpublished(s.stub.pc) && !Unpublished(s'.stub.pc) ==> s.stub.head == s.stub.begin
    ensures Layout(c, s')
  {
  }

  lemma FillLayout(c: Config, s: State, st: FillStep)
    requires Shaped(c, s) && Layout(c, s) && CanFill(c, s, st) && !st.DoAlloc?
    requires Shaped(c, DoFillStep(c, s, st))
    ensures Layout(c, DoFillStep(c, s, st))
  {
    LayoutFrame(c, s, DoFillStep(c, s, st));
  }

  lemma PublishLayout(c: Config, s: State)
    requires RingInv(c, s) && Layout(c, s) && FillingOk(c, s) && s.stub.pc.Publish?
    ensures Layout(c, PublishSlot(c, s))
  {
    var log, log' := s.hist.log, PublishSlot(c, s).hist.log;
    forall q | 0 <= q < |log'| ensures WindowOk(log', q) {
      if q < |log| {
        assert WindowOk(log, q);
      }
    }
  }

  lemma AskLayout(c: Config, s: State, st: AskStep)
    requires Shaped(c, s) && Layout(c, s) && CanAsk(s, st) && !st.DoPublish?
    ensures Shaped(c, DoAskStep(c, s, st)) && Layout(c, DoAskStep(c, s, st))
  {
    LayoutFrame(c, s, DoAskStep(c, s, st));
  }

  lemma IdleLayout(c: Config, s: State, st: IdleStep)
    requires Shaped(c, s) && Layout(c, s) && CanIdle(s, st)
    ensures Shaped(c, DoIdleStep(s, st)) && Layout(c, DoIdleStep(s, st))
  {
  }

  /** Releasing a window moves the tail to its end, never past the head. */
  lemma ServeLayout(c: Config, s: State, st: ServeStep)
    requires RingInv(c, s) && Layout(c, s) && CanServe(c, s, st)
    requires Shaped(c, DoServeStep(c, s, st))
    ensures Layout(c, DoServeStep(c, s, st))
  {
    if st.DoRelease? || st.DoStoreTail? {
      ReleaseLayout(c, s, st);
    }
  }

  lemma ReleaseLayout(c: Config, s: State, st: ServeStep)
    requires RingInv(c, s) && Layout(c, s) && CanServe(c, s, st) && (st.DoRelease? || st.DoStoreTail?)
    requires Shaped(c, DoServeStep(c, s, st))
    ensures Layout(c, DoServeStep(c, s, st))
  {
    var q := s.ring.completed;
    assert Core(s.ring.slots[Index(c, q)]) == s.hist.log[q].core;
    assert WindowOk(s.hist.log, q);
    EndMono(s.hist.log, q + 1, |s.hist.log|);
  }

  // ---- Payload records --------------------------------------------------------------------

  /** A byte copied past all of them changes no earlier payload's record. */
  lemma PayloadsStable(c: Config, pls: seq<Payload>, refs: seq<Ref>, lo: nat, hi: nat,
                       mem: map<int, byte>, p: int, b: byte)
    requires c.arena > 0 && PayloadsOk(c, pls, refs, lo, hi, mem) && hi <= p
    ensures PayloadsOk(c, pls, refs, lo, hi, mem[p := b])
  {
    forall k | 0 <= k < |pls| ensures PayloadOk(c, pls[k], refs[k], lo, hi, mem[p := b]) {
      assert PayloadOk(c, pls[k], refs[k], lo, hi, mem);
    }
  }

  lemma EntryStable(c: Config, e: Entry, mem: map<int, byte>, p: int, b: byte)
    requires c.arena > 0 && EntryOk(c, e, mem) && e.end <= p
    ensures EntryOk(c, e, mem[p := b])
  {
    PayloadsStable(c, e.payloads, e.core.refs, e.begin, e.end, mem, p, b);
  }

  lemma EntriesStable(c: Config, log: seq<Entry>, mem: map<int, byte>, p: int, b: byte)
    requires c.arena > 0 && Windows(log) && EndOf(log, |log|) <= p
    requires forall q :: 0 <= q < |log| ==> EntryOk(c, log[q], mem)
    ensures forall q :: 0 <= q < |log| ==> EntryOk(c, log[q], mem[p := b])
  {
    forall q | 0 <= q < |log| ensures EntryOk(c, log[q], mem[p := b]) {
      EndMono(log, q + 1, |log|);
      EntryStable(c, log[q], mem, p, b);
    }
  }

  /** Widening the window keeps the payloads inside it. */
  lemma PayloadsWiden(c: Config, pls: seq<Payload>, refs: seq<Ref>, lo: nat, hi: nat, hi': nat,
                      mem: map<int, byte>)
    requires c.arena > 0 && PayloadsOk(c, pls, refs, lo, hi, mem) && hi <= hi'
    ensures PayloadsOk(c, pls, refs, lo, hi', mem)
  {
    forall k | 0 <= k < |pls| ensures PayloadOk(c, pls[k], refs[k], lo, hi', mem) {
      assert PayloadOk(c, pls[k], refs[k], lo, hi, mem);
    }
  }

  lemma PayloadsAppend(c: Config, pls: seq<Payload>, refs: seq<Ref>, pl: Payload, ref: Ref,
                       lo: nat, hi: nat, mem: map<int, byte>)
    requires c.arena > 0 && PayloadsOk(c, pls, refs, lo, hi, mem) && PayloadOk(c, pl, ref, lo, hi, mem)
    ensures PayloadsOk(c, pls + [pl], refs + [ref], lo, hi, mem)
  {
    forall k | 0 <= k < |pls| + 1 ensures PayloadOk(c, (pls + [pl])[k], (refs + [ref])[k], lo, hi, mem) {
      if k < |pls| {
        assert PayloadOk(c, pls[k], refs[k], lo, hi, mem);
      }
    }
  }

  lemma FillEntries(c: Config, s: State, st: FillStep)
    requires RingInv(c, s) && ArenaInv(c, s) && CanFill(c, s, st)
    requires Shaped(c, DoFillStep(c, s, st))
    ensures EntriesOk(c, DoFillStep(c, s, st))
  {
    if st.DoCopy? {
      CopyEntries(c, s);
    }
  }

  lemma CopyEntries(c: Config, s: State)
    requires RingInv(c, s) && ArenaInv(c, s) && s.stub.pc.Copy?
    ensures EntriesOk(c, CopyData(c, s))
  {
    var p := s.stub;
    if p.src.Some? && p.copied < |p.src.value| && p.offset + p.copied < c.arena {
      EntriesStable(c, s.hist.log, s.hist.mem, Start(p) + p.copied, p.src.value[p.copied]);
    }
  }

  lemma AskEntries(c: Config, s: State, st: AskStep)
    requires RingInv(c, s) && ArenaInv(c, s) && CanAsk(s, st)
    ensures EntriesOk(c, DoAskStep(c, s, st))
  {
    if st.DoPublish? {
      var s' := PublishSlot(c, s);
      forall q | 0 <= q < |s'.hist.log| ensures EntryOk(c, s'.hist.log[q], s'.hist.mem) {
        if q < |s.hist.log| {
          assert EntryOk(c, s.hist.log[q], s.hist.mem);
        }
      }
    }
  }

  // ---- The slot being filled --------------------------------------------------------------

  lemma FillingFrame(c: Config, s: State, s': State)
    requires Shaped(c, s) && Shaped(c, s') && FillingOk(c, s)
    requires s'.stub == s.stub && s'.hist.mem == s.hist.mem
    requires Core(StubSlot(c, s')) == Core(StubSlot(c, s))
    ensures FillingOk(c, s')
  {
    assert Core(StubSlot(c, s')).refs == StubSlot(c, s').refs;
  }

  lemma AllocFilling(c: Config, s: State)
    requires RingInv(c, s) && Layout(c, s) && FillingOk(c, s) && s.stub.pc.Alloc?
    ensures FillingOk(c, AllocData(c, s))
  {
    var p := s.stub;
    Round4Fits(p.size, c.arena);
    PlaceFacts(p.head, Round4(p.size), c.arena);
    var (offset, newHead) := Place(p.head, Round4(p.size), c.arena);
    PayloadsWiden(c, p.payloads, StubSlot(c, s).refs, p.begin, p.head, newHead - Round4(p.size), s.hist.mem);
  }

  lemma CopyFilling(c: Config, s: State)
    requires RingInv(c, s) && FillingOk(c, s) && s.stub.pc.Copy?
    ensures FillingOk(c, CopyData(c, s))
  {
    var p := s.stub;
    if p.src.Some? && p.copied < |p.src.value| && p.offset + p.copied < c.arena {
      PayloadsStable(c, p.payloads, StubSlot(c, s).refs, p.begin, Start(p), s.hist.mem,
                     Start(p) + p.copied, p.src.value[p.copied]);
    }
  }

  lemma RecordFilling(c: Config, s: State)
    requires RingInv(c, s) && FillingOk(c, s) && s.stub.pc.Record?
    ensures Shaped(c, RecordData(c, s)) && FillingOk(c, RecordData(c, s))
  {
    var p, slot := s.stub, StubSlot(c, s);
    if p.pc.k >= 2 {
      PayloadsWiden(c, p.payloads, slot.refs, p.begin, Start(p), p.head, s.hist.mem);
      PayloadsAppend(c, p.payloads, slot.refs,
                     Payload(Start(p), if p.src.Some? then p.src.value else []), Ref(p.offset, p.size),
                     p.begin, p.head, s.hist.mem);
    }
  }

  lemma StoresFilling(c: Config, s: State)
    requires RingInv(c, s) && FillingOk(c, s) && s.stub.pc.Filling?
    ensures Shaped(c, FillSlot(c, s)) && FillingOk(c, FillSlot(c, s))
  {
  }

  lemma SendFilling(c: Config, s: State)
    requires RingInv(c, s) && FillingOk(c, s) && s.stub.pc.Encode?
    ensures Shaped(c, StoreNeeds(c, s)) && FillingOk(c, StoreNeeds(c, s))
  {
  }

  lemma FillFilling(c: Config, s: State, st: FillStep)
    requires RingInv(c, s) && Layout(c, s) && FillingOk(c, s) && CanFill(c, s, st)
    requires Shaped(c, DoFillStep(c, s, st))
    ensures FillingOk(c, DoFillStep(c, s, st))
  {
    match st
    case DoAlloc => AllocFilling(c, s);
    case DoCopy => CopyFilling(c, s);
    case DoRecord => RecordFilling(c, s);
    case DoFill => StoresFilling(c, s);
    case DoSend => SendFilling(c, s);
    case _ =>
  }

  lemma AskFilling(c: Config, s: State, st: AskStep)
    requires Shaped(c, s) && CanAsk(s, st)
    ensures Shaped(c, DoAskStep(c, s, st)) && FillingOk(c, DoAskStep(c, s, st))
  {
  }

  lemma ServeFilling(c: Config, s: State, st: ServeStep)
    requires RingInv(c, s) && FillingOk(c, s) && CanServe(c, s, st) && Shaped(c, DoServeStep(c, s, st))
    ensures FillingOk(c, DoServeStep(c, s, st))
  {
    FillingFrame(c, s, DoServeStep(c, s, st));
  }

  // ---- Live bytes -------------------------------------------------------------------------

  /** Storing at the residue of one position disturbs no other position less than an arena away. */
  lemma StoreApart(c: Config, arena: seq<byte>, p: int, at: int, b: byte)
    requires c.arena > 0 && |arena| == c.arena && p != at && p < at + c.arena && at < p + c.arena
    ensures arena[at % c.arena := b][p % c.arena] == arena[p % c.arena]
  {
    if p < at {
      ModDistinct(p, at, c.arena);
    } else {
      ModDistinct(at, p, c.arena);
    }
  }

  lemma CopyLive(c: Config, s: State)
    requires RingInv(c, s) && ArenaInv(c, s) && s.stub.pc.Copy?
    ensures LiveBytes(c, CopyData(c, s))
  {
    var p, s' := s.stub, CopyData(c, s);
    if p.src.Some? && p.copied < |p.src.value| && p.offset + p.copied < c.arena {
      var at := Start(p) + p.copied;
      OffsetMod(Start(p), p.copied, c.arena);
      LiveFromBounds(c, s);
      forall i | i in s'.hist.mem ensures LiveByte(c, s', LiveFrom(s'), i) {
        if i != at {
          assert LiveByte(c, s, LiveFrom(s), i);
          if LiveFrom(s) <= i {
            StoreApart(c, s.ring.arena, i, at, p.src.value[p.copied]);
          }
        }
      }
    }
  }

  /** The live window starts at or after the tail, and before the slot being filled. */
  lemma LiveFromBounds(c: Config, s: State)
    requires RingInv(c, s) && Layout(c, s)
    ensures s.ring.tail <= LiveFrom(s)
    ensures Unpublished(s.stub.pc) ==> LiveFrom(s) <= s.stub.begin
  {
    var q, log := s.ring.completed, s.hist.log;
    EndMono(log, q, |log|);
    if q < |log| {
      assert WindowOk(log, q);
      EndMono(log, q + 1, |log|);
    }
  }

  lemma FillLive(c: Config, s: State, st: FillStep)
    requires RingInv(c, s) && ArenaInv(c, s) && CanFill(c, s, st)
    requires Shaped(c, DoFillStep(c, s, st)) && Counters(c, DoFillStep(c, s, st))
    ensures LiveBytes(c, DoFillStep(c, s, st))
  {
    if st.DoCopy? {
      CopyLive(c, s);
    } else if st.DoAlloc? {
      Round4Fits(s.stub.size, c.arena);
      PlaceFacts(s.stub.head, Round4(s.stub.size), c.arena);
      LiveFrame(c, s, AllocData(c, s));
    } else {
      FillLiveFrame(c, s, st);
    }
  }

  lemma FillLiveFrame(c: Config, s: State, st: FillStep)
    requires Shaped(c, s) && Counters(c, s) && LiveBytes(c, s) && CanFill(c, s, st) && !st.DoCopy? && !st.DoAlloc?
    requires Shaped(c, DoFillStep(c, s, st)) && Counters(c, DoFillStep(c, s, st))
    ensures LiveBytes(c, DoFillStep(c, s, st))
  {
    LiveFrame(c, s, DoFillStep(c, s, st));
  }

  /** Nothing copied, nothing stored, the head not lowered, the window not widened. */
  lemma LiveFrame(c: Config, s: State, s': State)
    requires Shaped(c, s) && s.ring.completed <= |s.hist.log|
    requires Started(s.proxy.pc) ==> s.ring.completed < |s.hist.log|
    requires LiveBytes(c, s) && Shaped(c, s') && s'.ring.completed <= |s'.hist.log|
    requires Started(s'.proxy.pc) ==> s'.ring.completed < |s'.hist.log|
    requires s'.hist.mem == s.hist.mem && s'.ring.arena == s.ring.arena && s.stub.head <= s'.stub.head
    requires LiveFrom(s) <= LiveFrom(s')
    ensures LiveBytes(c, s')
  {
    forall p | p in s'.hist.mem ensures LiveByte(c, s', LiveFrom(s'), p) {
      assert LiveByte(c, s, LiveFrom(s), p);
    }
  }

  lemma AskLive(c: Config, s: State, st: AskStep)
    requires RingInv(c, s) && LiveBytes(c, s) && CanAsk(s, st)
    requires Shaped(c, DoAskStep(c, s, st)) && Counters(c, DoAskStep(c, s, st))
    ensures LiveBytes(c, DoAskStep(c, s, st))
  {
    LiveFrame(c, s, DoAskStep(c, s, st));
  }

  /** A handler's writes stay in its own window, which no longer counts as live. */
  lemma HandlerWriteLive(c: Config, s: State, pos: nat, value: byte)
    requires RingInv(c, s) && ArenaInv(c, s) && CanServe(c, s, HandlerWrite(pos, value))
    ensures LiveBytes(c, DoServeStep(c, s, HandlerWrite(pos, value)))
  {
    var s' := DoServeStep(c, s, HandlerWrite(pos, value));
    assert WindowOk(s.hist.log, s.ring.completed);
    forall p | p in s'.hist.mem ensures LiveByte(c, s', LiveFrom(s'), p) {
      assert LiveByte(c, s, LiveFrom(s), p);
      if LiveFrom(s) <= p {
        StoreApart(c, s.ring.arena, p, pos, value);
      }
    }
  }

  lemma ServeLive(c: Config, s: State, st: ServeStep)
    requires RingInv(c, s) && ArenaInv(c, s) && CanServe(c, s, st)
    requires Shaped(c, DoServeStep(c, s, st)) && Counters(c, DoServeStep(c, s, st))
    ensures LiveBytes(c, DoServeStep(c, s, st))
  {
    if st.HandlerWrite? {
      HandlerWriteLive(c, s, st.pos, st.value);
    } else {
      ServeLiveFrame(c, s, st);
    }
  }

  lemma ServeLiveFrame(c: Config, s: State, st: ServeStep)
    requires Shaped(c, s) && Counters(c, s) && LiveBytes(c, s) && Windows(s.hist.log)
    requires CanServe(c, s, st) && !st.HandlerWrite?
    requires Shaped(c, DoServeStep(c, s, st)) && Counters(c, DoServeStep(c, s, st))
    ensures LiveBytes(c, DoServeStep(c, s, st))
  {
    if s.ring.completed < |s.hist.log| {
      assert WindowOk(s.hist.log, s.ring.completed);
    }
    LiveFrame(c, s, DoServeStep(c, s, st));
  }

  // ---- What handlers see ------------------------------------------------------------------

  lemma ViewSeesPayload(c: Config, s: State, pl: Payload, ref: Ref, lo: nat, hi: nat)
    requires RingInv(c, s) && LiveBytes(c, s) && LiveFrom(s) <= lo
    requires PayloadOk(c, pl, ref, lo, hi, s.hist.mem)
    ensures pl.bytes <= s.ring.arena[ref.offset..ref.offset + ref.size]
  {
    var view := s.ring.arena[ref.offset..ref.offset + ref.size];
    forall j | 0 <= j < |pl.bytes| ensures view[j] == pl.bytes[j] {
      assert Byte(s.hist.mem, pl.start + j) == Some(pl.bytes[j]);
      assert LiveByte(c, s, LiveFrom(s), pl.start + j);
      OffsetMod(pl.start, j, c.arena);
    }
  }

  lemma EnterSeesPayloads(c: Config, s: State)
    requires RingInv(c, s) && ArenaInv(c, s) && s.proxy.pc.Enter?
    ensures var q := s.ring.completed;
      ViewsOk(Views(s.ring.arena, ProxySlot(c, s).refs), s.hist.log[q].payloads)
  {
    var q := s.ring.completed;
    var e := s.hist.log[q];
    assert Core(s.ring.slots[Index(c, q)]) == e.core;
    assert WindowOk(s.hist.log, q);
    assert EntryOk(c, e, s.hist.mem);
    forall k | 0 <= k < |e.payloads|
      ensures e.payloads[k].bytes <= Views(s.ring.arena, e.core.refs)[k]
    {
      assert PayloadOk(c, e.payloads[k], e.core.refs[k], e.begin, e.end, s.hist.mem);
      ViewSeesPayload(c, s, e.payloads[k], e.core.refs[k], e.begin, e.end);
    }
  }

  lemma ServeSees(c: Config, s: State, st: ServeStep)
    requires RingInv(c, s) && ArenaInv(c, s) && CanServe(c, s, st)
    ensures RunsSawBytes(DoServeStep(c, s, st))
  {
    if st.DoEnter? {
      EnterSeesPayloads(c, s);
    }
  }

  lemma SeesFrame(s: State, s': State)
    requires RunsSawBytes(s) && s'.hist.runs == s.hist.runs && s.hist.log <= s'.hist.log
    ensures RunsSawBytes(s')
  {
  }

  lemma FillSees(c: Config, s: State, st: FillStep)
    requires Shaped(c, s) && RunsSawBytes(s) && CanFill(c, s, st)
    ensures RunsSawBytes(DoFillStep(c, s, st))
  {
    SeesFrame(s, DoFillStep(c, s, st));
  }

  lemma AskSees(c: Config, s: State, st: AskStep)
    requires Shaped(c, s) && RunsSawBytes(s) && CanAsk(s, st)
    ensures RunsSawBytes(DoAskStep(c, s, st))
  {
    SeesFrame(s, DoAskStep(c, s, st));
  }

  // ---- One step ---------------------------------------------------------------------------

  lemma FillKeepsArena(c: Config, s: State, st: FillStep)
    requires RingInv(c, s) && ArenaInv(c, s) && CanFill(c, s, st)
    requires RingInv(c, DoFillStep(c, s, st))
    ensures ArenaInv(c, DoFillStep(c, s, st))
  {
    if st.DoAlloc? {
      AllocLayout(c, s);
    } else {
      FillLayout(c, s, st);
    }
    FillEntries(c, s, st);
    FillFilling(c, s, st);
    FillLive(c, s, st);
    FillSees(c, s, st);
  }

  lemma AskKeepsArena(c: Config, s: State, st: AskStep)
    requires RingInv(c, s) && ArenaInv(c, s) && CanAsk(s, st)
    requires RingInv(c, DoAskStep(c, s, st))
    ensures ArenaInv(c, DoAskStep(c, s, st))
  {
    if st.DoPublish? {
      PublishLayout(c, s);
    } else {
      AskLayout(c, s, st);
    }
    AskEntries(c, s, st);
    AskFilling(c, s, st);
    AskLive(c, s, st);
    AskSees(c, s, st);
  }

  lemma IdleKeepsArena(c: Config, s: State, st: IdleStep)
    requires RingInv(c, s) && ArenaInv(c, s) && CanIdle(s, st)
    requires RingInv(c, DoIdleStep(s, st))
    ensures ArenaInv(c, DoIdleStep(s, st))
  {
    IdleLayout(c, s, st);
    FillingFrame(c, s, DoIdleStep(s, st));
    LiveFrame(c, s, DoIdleStep(s, st));
  }

  lemma ServeKeepsArena(c: Config, s: State, st: ServeStep)
    requires RingInv(c, s) && ArenaInv(c, s) && CanServe(c, s, st)
    requires RingInv(c, DoServeStep(c, s, st))
    ensures ArenaInv(c, DoServeStep(c, s, st))
  {
    ServeLayout(c, s, st);
    ServeFilling(c, s, st);
    ServeLive(c, s, st);
    ServeSees(c, s, st);
    ServeEntries(c, s, st);
  }

  /** The proxy touches neither the entries nor what was copied for them. */
  lemma ServeEntries(c: Config, s: State, st: ServeStep)
    requires Shaped(c, s) && EntriesOk(c, s) && CanServe(c, s, st)
    ensures EntriesOk(c, DoServeStep(c, s, st))
  {
    assert DoServeStep(c, s, st).hist.mem == s.hist.mem && DoServeStep(c, s, st).hist.log == s.hist.log;
  }

  lemma StepKeepsArena(c: Config, s: State, st: Step)
    requires RingInv(c, s) && ArenaInv(c, s) && Enabled(c, s, st)
    ensures RingInv(c, Apply(c, s, st)) && ArenaInv(c, Apply(c, s, st))
  {
    StepKeepsRing(c, s, st);
    match st
    case Fill(f) => FillKeepsArena(c, s, f);
    case Ask(a) => AskKeepsArena(c, s, a);
    case Idle(i) => IdleKeepsArena(c, s, i);
    case Serve(v) => ServeKeepsArena(c, s, v);
  }
}
