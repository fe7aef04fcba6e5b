/** The command bridge as a transition system: client threads that serialise on g_lock and fill ring
    slots (stub/bridge_core.c), and one proxy loop that dispatches them (proxy/proxy.c). A step is one
    load or store of shared memory, one eventfd read or write, or one thread-local action. */
module BridgeModel {
  import opened RingConfig
  import Bytes
  import opened Options

  type byte = Bytes.byte

  /** slots: ring size; arena: payload arena size; contexts: MAX_CONTEXTS is 8 */
  datatype Config = Config(slots: nat, arena: nat, asyncSwap: bool) {
    predicate Valid() {
      IsPow2(slots) && arena > 0 && arena % 4 == 0
    }
  }

  const MAX_CONTEXTS: nat := 8
  const EGL_MAX_CONTEXTS: nat := 8

  // ---- Commands ---------------------------------------------------------------------------

  datatype Surfaces = Surfaces(display: nat, draw: nat, read: nat)

  /** What a client asks for: a context switch, a swap, or any other GL/EGL command. */
  datatype Op =
    | MakeCurrent(surfaces: Surfaces, ctx: nat)
    | Swap
    | Plain(opcode: nat, args: seq<byte>)

  /** bridge_send_void, bridge_send_call, bridge_send_swap */
  datatype Mode = SendVoid | SendCall | SendSwap

  /** One bridge_data_write as the command refers to it. */
  datatype Ref = Ref(offset: nat, size: nat)

  /** BridgeCtrl, less the fields nobody reads back */
  datatype Slot = Slot(op: Op, refs: seq<Ref>, needs: nat, ctx: nat, wm: nat, wmValid: bool,
                       result: int, resLen: nat)

  /** The part of a slot that the proxy only reads. */
  function Core(s: Slot): Slot {
    s.(result := 0, resLen := 0)
  }

  // ---- Shared memory ----------------------------------------------------------------------

  /** BridgeRing, the arena and the two eventfd counters */
  datatype Ring = Ring(published: nat, completed: nat, tail: nat, waiting: bool, slots: seq<Slot>,
                       arena: seq<byte>, resultBuf: seq<byte>, req: nat, resp: nat)

  // ---- Producer: the thread that holds g_lock ---------------------------------------------

  /** Where the lock holder is. a slot is filled from Filling to Publish, waiting from Wait to Take. */
  datatype StubPc =
    | Unlocked
    | Reserve
    | Filling(k: nat)
    | Encode
    | Alloc
    | Copy
    | Record(k: nat)
    | Publish
    | LoadWaiting
    | PostReq
    | Wait
    | Sleep
    | Take(k: nat)
    | Return

  /** A payload as the client handed it over, at its position in the unwrapped arena. */
  datatype Payload = Payload(start: nat, bytes: seq<byte>)

  /** What a thread has current: last_* and have_last of eglMakeCurrent, g_stub_current_ctx */
  datatype Current = Current(surfaces: Surfaces, ctx: nat)
  datatype Tls = Tls(ctx: nat, last: Option<Current>)

  /** Static variables and locals of bridge_core.c; begin, payloads, issuer and meant are history. */
  datatype Stub = Stub(pc: StubPc, tid: nat, op: Op, mode: Mode, sn: nat, target: nat,
                       localSeq: nat, head: nat, pending: Option<nat>,
                       src: Option<seq<byte>>, size: nat, offset: nat, copied: nat,
                       result: int, resLen: nat,
                       begin: nat, payloads: seq<Payload>, issuer: nat, meant: Option<Current>)

  // ---- Proxy ------------------------------------------------------------------------------

  datatype ProxyPc =
    | Poll
    | SetWaiting
    | PollAgain
    | ReadReq
    | ClearWaiting
    | Bind
    | Enter
    | Run
    | Release
    | StoreTail
    | LoadNeeds
    | Complete
    | PostResp

  datatype Proxy = Proxy(pc: ProxyPc, needs: nat)

  /** g_current_ctx, the driver's current context, and g_ctx_bindings */
  datatype Egl = Egl(current: nat, driver: Option<Current>, bindings: seq<Option<Surfaces>>)

  // ---- History ----------------------------------------------------------------------------

  /** A published command: its slot as published, and what its issuer meant by it. */
  datatype Entry = Entry(core: Slot, tid: nat, op: Op, mode: Mode, issuer: nat, meant: Option<Current>,
                         begin: nat, end: nat, payloads: seq<Payload>)

  /** One handler invocation: the slot it read, the payload bytes it could see, the driver's context. */
  datatype Dispatch = Dispatch(core: Slot, views: seq<seq<byte>>, driver: Option<Current>)

  datatype Answer = Answer(result: int, resLen: nat, buf: seq<byte>)

  /** What one handler invocation itself has stored: the last result, length and buffer; no length stored counts as 0. */
  datatype Report = Report(result: Option<int>, resLen: nat, buf: Option<seq<byte>>)

  datatype History = History(log: seq<Entry>, mem: map<int, byte>, runs: seq<Dispatch>, done: seq<Answer>,
                             answers: map<nat, Answer>, swapReturns: seq<(nat, nat)>, reports: seq<Report>) {
    /** The handler that runs stores something. */
    function Storing(change: Report -> Report): History {
      if reports == [] then this
      else this.(reports := reports[|reports| - 1 := change(reports[|reports| - 1])])
    }
  }

  datatype State = State(ring: Ring, stub: Stub, proxy: Proxy, egl: Egl, tls: map<nat, Tls>, hist: History)

  // ---- Arithmetic of the arena allocator --------------------------------------------------

  /** (size + 3) & ~3 */
  function Round4(size: nat): (r: nat)
    ensures r % 4 == 0 && size <= r < size + 4
  {
    (size + 3) / 4 * 4
  }

  /** ring_data_alloc without the wait: offset and new head for a rounded size. */
  function Place(head: nat, size: nat, arena: nat): (nat, nat)
    requires arena > 0
  {
    PlaceAt(head, head % arena, size, arena)
  }

  function PlaceAt(head: nat, pos: nat, size: nat, arena: nat): (nat, nat)
    requires pos < arena
  {
    var toEnd := arena - pos;
    if size <= toEnd then (pos, head + size) else (0, head + toEnd + size)
  }

  /** The test that lets an allocation through. */
  predicate Fits(newHead: nat, tail: nat, arena: nat) {
    newHead - tail <= arena
  }

  /** The test that lets a reservation through. */
  predicate HasFreeSlot(sn: nat, completed: nat, slots: nat) {
    sn - completed < slots
  }

  // ---- Context switching ------------------------------------------------------------------

  /** egl_bind_target_ctx, for binds that succeed */
  function BindTarget(e: Egl, ctx: nat): Egl
    requires |e.bindings| == EGL_MAX_CONTEXTS + 1
  {
    if ctx == 0 || ctx == e.current || ctx >= MAX_CONTEXTS then e
    else if e.bindings[ctx].None? then e
    else e.(current := ctx, driver := Some(Current(e.bindings[ctx].value, ctx)))
  }

  /** h_eglMakeCurrent, for binds that succeed */
  function SwitchTo(e: Egl, surfaces: Surfaces, ctx: nat): Egl
    requires |e.bindings| == EGL_MAX_CONTEXTS + 1 && ctx <= EGL_MAX_CONTEXTS
  {
    if ctx == 0 then e.(current := 0, driver := None)
    else Egl(ctx, Some(Current(surfaces, ctx)), e.bindings[ctx := Some(surfaces)])
  }

  // ---- Steps ------------------------------------------------------------------------------

  /** A client, up to the end of filling its slot */
  datatype FillStep =
    | DoLock(tid: nat, op: Op, mode: Mode)
    | DoRedundant(tid: nat, surfaces: Surfaces, ctx: nat)
    | DoReserve
    | DoFill
    | DoData(src: Option<seq<byte>>, size: nat)
    | DoAlloc
    | DoCopy
    | DoRecord
    | DoSend

  /** A step of a client that stores nothing in shared memory */
  predicate Local(st: FillStep) {
    st.DoLock? || st.DoRedundant? || st.DoReserve? || st.DoData? || st.DoAlloc?
  }

  /** A client, from publishing to returning */
  datatype AskStep =
    | DoPublish
    | DoLoadWaiting
    | DoPostReq
    | DoWait(sleep: bool)
    | DoReadResp
    | DoTake
    | DoReturn

  /** The proxy without work */
  datatype IdleStep =
    | DoPoll(sleep: bool)
    | DoSetWaiting
    | DoPollAgain
    | DoReadReq
    | DoClearWaiting

  /** The proxy on a slot, and its handlers */
  datatype ServeStep =
    | DoBind
    | DoEnter
    | HandlerWrite(pos: nat, value: byte)
    | HandlerResult(result: int)
    | HandlerResultLen(resLen: nat)
    | HandlerResultBuf(buf: seq<byte>)
    | HandlerDone
    | DoRelease
    | DoStoreTail
    | DoLoadNeeds
    | DoComplete
    | DoPostResp

  /** What a handler stores */
  predicate Handling(st: ServeStep) {
    st.HandlerWrite? || st.HandlerResult? || st.HandlerResultLen? || st.HandlerResultBuf?
  }

  datatype Step = Fill(f: FillStep) | Ask(a: AskStep) | Idle(i: IdleStep) | Serve(v: ServeStep)

  /** Sizes that the state keeps all along. */
  predicate Shaped(c: Config, s: State) {
    && c.Valid()
    && |s.ring.slots| == c.slots
    && |s.ring.arena| == c.arena
    && |s.egl.bindings| == EGL_MAX_CONTEXTS + 1
  }

  /** The ring index of a sequence number is one of the slots. */
  function Index(c: Config, sn: nat): (i: nat)
    requires c.Valid()
    ensures i < c.slots
  {
    SlotOfIsMod(sn, c.slots);
    SlotOf(sn, c.slots)
  }

  /** The slot that the lock holder fills or waits on. */
  function StubSlot(c: Config, s: State): Slot
    requires Shaped(c, s)
  {
    s.ring.slots[Index(c, s.stub.sn)]
  }

  /** The slot that the proxy works on. */
  function ProxySlot(c: Config, s: State): Slot
    requires Shaped(c, s)
  {
    s.ring.slots[Index(c, s.ring.completed)]
  }

  function SetStubSlot(c: Config, s: State, slot: Slot): Ring
    requires Shaped(c, s)
  {
    s.ring.(slots := s.ring.slots[Index(c, s.stub.sn) := slot])
  }

  function SetProxySlot(c: Config, s: State, slot: Slot): Ring
    requires Shaped(c, s)
  {
    s.ring.(slots := s.ring.slots[Index(c, s.ring.completed) := slot])
  }

  /** The bytes a handler reads through a command's references. */
  function Views(arena: seq<byte>, refs: seq<Ref>): (v: seq<seq<byte>>)
    ensures |v| == |refs|
  {
    seq(|refs|, k requires 0 <= k < |refs| =>
      if refs[k].offset + refs[k].size <= |arena| then arena[refs[k].offset..refs[k].offset + refs[k].size] else [])
  }

  /** The API discipline of the clients: known threads, one context per thread (EGL 1.4, section 3.7.3),
      contexts that exist, and calls of the right kind. */
  predicate ClientMay(s: State, tid: nat, op: Op, mode: Mode) {
    && tid in s.tls
    && (op.Swap? <==> mode == SendSwap)
    && (op.MakeCurrent? ==>
        && mode == SendCall
        && op.ctx <= EGL_MAX_CONTEXTS
        && s.tls[tid].last != Some(Current(op.surfaces, op.ctx))
        && (op.ctx != 0 ==> forall t :: t in s.tls && t != tid ==> s.tls[t].ctx != op.ctx))
  }

  predicate CanFill(c: Config, s: State, st: FillStep)
    requires Shaped(c, s)
  {
    var p := s.stub;
    match st
    case DoLock(tid, op, mode) => p.pc.Unlocked? && ClientMay(s, tid, op, mode)
    case DoRedundant(tid, surfaces, ctx) =>
      && tid in s.tls && s.tls[tid].last == Some(Current(surfaces, ctx))
      && !(p.pc != Unlocked && p.tid == tid)
    case DoReserve => p.pc.Reserve?
    case DoFill => p.pc.Filling?
    case DoData(src, size) => p.pc.Encode? && size <= c.arena && (src.Some? ==> |src.value| == size)
    case DoAlloc => p.pc.Alloc?
    case DoCopy => p.pc.Copy?
    case DoRecord => p.pc.Record?
    case DoSend => p.pc.Encode?
  }

  predicate CanAsk(s: State, st: AskStep) {
    var p := s.stub;
    match st
    case DoPublish => p.pc.Publish?
    case DoLoadWaiting => p.pc.LoadWaiting?
    case DoPostReq => p.pc.PostReq?
    case DoWait(sleep) => p.pc.Wait?
    case DoReadResp => p.pc.Sleep? && s.ring.resp > 0
    case DoTake => p.pc.Take?
    case DoReturn => p.pc.Return?
  }

  predicate CanIdle(s: State, st: IdleStep) {
    var x := s.proxy;
    match st
    case DoPoll(sleep) => x.pc.Poll?
    case DoSetWaiting => x.pc.SetWaiting?
    case DoPollAgain => x.pc.PollAgain?
    case DoReadReq => x.pc.ReadReq? && s.ring.req > 0
    case DoClearWaiting => x.pc.ClearWaiting?
  }

  /** A handler writes only inside the arena window of its own slot, and reports success for a bind. */
  predicate CanServe(c: Config, s: State, st: ServeStep)
    requires Shaped(c, s)
  {
    var x := s.proxy;
    match st
    case DoBind => x.pc.Bind?
    case DoEnter => x.pc.Enter?
    case HandlerWrite(pos, value) =>
      x.pc.Run? && s.ring.completed < |s.hist.log|
      && s.hist.log[s.ring.completed].begin <= pos < s.hist.log[s.ring.completed].end
    case HandlerResult(result) => x.pc.Run? && !ProxySlot(c, s).op.MakeCurrent?
    case HandlerResultLen(resLen) => x.pc.Run?
    case HandlerResultBuf(buf) => x.pc.Run?
    case HandlerDone => x.pc.Run?
    case DoRelease => x.pc.Release?
    case DoStoreTail => x.pc.StoreTail?
    case DoLoadNeeds => x.pc.LoadNeeds?
    case DoComplete => x.pc.Complete?
    case DoPostResp => x.pc.PostResp?
  }

  predicate Enabled(c: Config, s: State, st: Step)
    requires Shaped(c, s)
  {
    match st
    case Fill(f) => CanFill(c, s, f)
    case Ask(a) => CanAsk(s, a)
    case Idle(i) => CanIdle(s, i)
    case Serve(v) => CanServe(c, s, v)
  }

  // Client side ---------------------------------------------------------------------------

  function Lock(s: State, tid: nat, op: Op, mode: Mode): State {
    s.(stub := s.stub.(pc := Reserve, tid := tid, op := op, mode := mode))
  }

  /** The filter of eglMakeCurrent: nothing is sent, the thread's context index is set again. */
  function Redundant(s: State, tid: nat, ctx: nat): State
    requires tid in s.tls
  {
    s.(tls := s.tls[tid := s.tls[tid].(ctx := ctx)])
  }

  /** One round of ring_reserve_slot. */
  function ReserveSlot(c: Config, s: State): State {
    var p := s.stub;
    if HasFreeSlot(p.localSeq, s.ring.completed, c.slots) then
      s.(stub := p.(pc := Filling(0), sn := p.localSeq, localSeq := p.localSeq + 1, begin := p.head,
                    payloads := [], meant := None))
    else s
  }

  /** The stores of bridge_begin, then opcode and arguments. */
  function FillSlot(c: Config, s: State): State
    requires Shaped(c, s) && s.stub.pc.Filling?
  {
    var p, slot := s.stub, StubSlot(c, s);
    var ctx := if p.tid in s.tls then s.tls[p.tid].ctx else 0;
    match p.pc.k
    case 0 =>
      s.(ring := SetStubSlot(c, s, slot.(ctx := ctx)),
         stub := p.(pc := Filling(1), issuer := ctx,
                    meant := if p.tid in s.tls && ctx != 0 then s.tls[p.tid].last else None))
    case 1 => s.(ring := SetStubSlot(c, s, slot.(wm := p.head)), stub := p.(pc := Filling(2)))
    case 2 => s.(ring := SetStubSlot(c, s, slot.(wmValid := false)), stub := p.(pc := Filling(3)))
    case 3 => s.(ring := SetStubSlot(c, s, slot.(resLen := 0)), stub := p.(pc := Filling(4)))
    case _ =>
      s.(ring := SetStubSlot(c, s, slot.(op := p.op, refs := [])), stub := p.(pc := Encode),
         tls := if p.op.MakeCurrent? && p.tid in s.tls
                then s.tls[p.tid := s.tls[p.tid].(ctx := p.op.ctx)] else s.tls)
  }

  /** The stub calls bridge_data_write. */
  function WantData(s: State, src: Option<seq<byte>>, size: nat): State {
    s.(stub := s.stub.(pc := Alloc, src := src, size := size))
  }

  /** One round of ring_data_alloc. */
  function AllocData(c: Config, s: State): State
    requires Shaped(c, s)
  {
    var p := s.stub;
    var (offset, newHead) := Place(p.head, Round4(p.size), c.arena);
    if Fits(newHead, s.ring.tail, c.arena) then
      s.(stub := p.(pc := Copy, head := newHead, offset := offset, copied := 0))
    else s
  }

  /** One byte of the memcpy, or its end. */
  function CopyData(c: Config, s: State): State
    requires Shaped(c, s)
  {
    var p := s.stub;
    if p.src.Some? && p.copied < |p.src.value| && p.offset + p.copied < c.arena then
      var b := p.src.value[p.copied];
      s.(ring := s.ring.(arena := s.ring.arena[p.offset + p.copied := b]),
         stub := p.(copied := p.copied + 1),
         hist := s.hist.(mem := s.hist.mem[p.head - Round4(p.size) + p.copied := b]))
    else s.(stub := p.(pc := Record(0)))
  }

  /** Watermark, its flag, and the offset the command refers to. */
  function RecordData(c: Config, s: State): State
    requires Shaped(c, s) && s.stub.pc.Record?
  {
    var p, slot := s.stub, StubSlot(c, s);
    match p.pc.k
    case 0 => s.(ring := SetStubSlot(c, s, slot.(wm := p.head)), stub := p.(pc := Record(1)))
    case 1 => s.(ring := SetStubSlot(c, s, slot.(wmValid := true)), stub := p.(pc := Record(2)))
    case _ =>
      var start := if p.head >= Round4(p.size) then p.head - Round4(p.size) else 0;
      var bytes := if p.src.Some? then p.src.value else [];
      s.(ring := SetStubSlot(c, s, slot.(refs := slot.refs + [Ref(p.offset, p.size)])),
         stub := p.(pc := Encode, payloads := p.payloads + [Payload(start, bytes)]))
  }

  function NeedsOf(c: Config, mode: Mode): nat {
    match mode
    case SendVoid => 0
    case SendCall => 1
    case SendSwap => if c.asyncSwap then 2 else 1
  }

  /** publish_cur: needs_response */
  function StoreNeeds(c: Config, s: State): State
    requires Shaped(c, s)
  {
    s.(ring := SetStubSlot(c, s, StubSlot(c, s).(needs := NeedsOf(c, s.stub.mode))),
       stub := s.stub.(pc := Publish))
  }

  /** publish_cur: published_seq. The history keeps the slot as the proxy will find it. */
  function PublishSlot(c: Config, s: State): State
    requires Shaped(c, s)
  {
    var p := s.stub;
    var e := Entry(Core(StubSlot(c, s)), p.tid, p.op, p.mode, p.issuer, p.meant, p.begin, p.head, p.payloads);
    s.(ring := s.ring.(published := p.sn + 1), stub := p.(pc := LoadWaiting),
       hist := s.hist.(log := s.hist.log + [e]))
  }

  /** What bridge_send_* does once the slot is out. */
  function AfterPublish(c: Config, s: State): State {
    var p := s.stub;
    match p.mode
    case SendVoid => s.(stub := p.(pc := Return))
    case SendCall => s.(stub := p.(pc := Wait, target := p.sn))
    case SendSwap =>
      if !c.asyncSwap then s.(stub := p.(pc := Wait, target := p.sn))
      else if p.pending.Some? then s.(stub := p.(pc := Wait, target := p.pending.value))
      else s.(stub := p.(pc := Return))
  }

  function LoadWaitingFlag(c: Config, s: State): State {
    if s.ring.waiting then s.(stub := s.stub.(pc := PostReq)) else AfterPublish(c, s)
  }

  function PostRequest(c: Config, s: State): State {
    AfterPublish(c, s.(ring := s.ring.(req := s.ring.req + 1)))
  }

  /** A load of completed_seq in wait_completed; sleep says whether the spin is over. */
  function WaitCompleted(c: Config, s: State, sleep: bool): State {
    var p := s.stub;
    if s.ring.completed > p.target then
      s.(stub := p.(pc := if p.mode == SendSwap && c.asyncSwap then Return else Take(0)))
    else if sleep then s.(stub := p.(pc := Sleep))
    else s
  }

  function ReadResponse(s: State): State {
    s.(ring := s.ring.(resp := 0), stub := s.stub.(pc := Wait))
  }

  /** bridge_send_call copies the result, its length and the shared result buffer. */
  function TakeAnswer(c: Config, s: State): State
    requires Shaped(c, s) && s.stub.pc.Take?
  {
    var p, slot := s.stub, StubSlot(c, s);
    match p.pc.k
    case 0 => s.(stub := p.(pc := if p.mode == SendSwap then Return else Take(1), result := slot.result))
    case 1 => s.(stub := p.(pc := Take(2), resLen := slot.resLen))
    case _ =>
      s.(stub := p.(pc := Return),
         hist := s.hist.(answers := s.hist.answers[p.sn := Answer(p.result, p.resLen, s.ring.resultBuf)]))
  }

  /** Unlock and return to the caller. An asynchronous swap becomes the pending one and the history notes
      how much was completed when it returned; eglMakeCurrent remembers a success. */
  function ReturnCall(c: Config, s: State): State {
    var p := s.stub;
    var swap := p.mode == SendSwap && c.asyncSwap;
    s.(stub := p.(pc := Unlocked, pending := if swap then Some(p.sn) else p.pending),
       tls := if p.op.MakeCurrent? && p.tid in s.tls
              then s.tls[p.tid := s.tls[p.tid].(last :=
                     if p.result != 0 then Some(Current(p.op.surfaces, p.op.ctx)) else None)]
              else s.tls,
       hist := if swap then s.hist.(swapReturns := s.hist.swapReturns + [(p.sn, s.ring.completed)]) else s.hist)
  }

  // Proxy ---------------------------------------------------------------------------------

  /** A load of published_seq at the top of the loop or in its spin. */
  function PollPublished(s: State, sleep: bool): State {
    if s.ring.completed < s.ring.published then s.(proxy := s.proxy.(pc := Bind))
    else if sleep then s.(proxy := s.proxy.(pc := SetWaiting))
    else s
  }

  function PollSecond(s: State): State {
    s.(proxy := s.proxy.(pc := if s.ring.completed >= s.ring.published then ReadReq else ClearWaiting))
  }

  /** Read the opcode and bind the target context, except for eglMakeCurrent. */
  function BindContext(c: Config, s: State): State
    requires Shaped(c, s)
  {
    var slot := ProxySlot(c, s);
    s.(proxy := s.proxy.(pc := Enter), egl := if slot.op.MakeCurrent? then s.egl else BindTarget(s.egl, slot.ctx))
  }

  /** The handler starts. eglMakeCurrent has its effect at once. */
  function EnterHandler(c: Config, s: State): State
    requires Shaped(c, s)
  {
    var slot := ProxySlot(c, s);
    var run := Dispatch(Core(slot), Views(s.ring.arena, slot.refs), s.egl.driver);
    var s1 := s.(proxy := s.proxy.(pc := Run),
                 hist := s.hist.(runs := s.hist.runs + [run], reports := s.hist.reports + [Report(None, 0, None)]));
    if slot.op.MakeCurrent? && slot.op.ctx <= EGL_MAX_CONTEXTS then
      s1.(egl := SwitchTo(s.egl, slot.op.surfaces, slot.op.ctx), ring := SetProxySlot(c, s, slot.(result := 1)),
          hist := s1.hist.Storing((r: Report) => r.(result := Some(1))))
    else s1
  }

  function FinishHandler(c: Config, s: State): State
    requires Shaped(c, s)
  {
    var slot := ProxySlot(c, s);
    s.(proxy := s.proxy.(pc := Release),
       hist := s.hist.(done := s.hist.done + [Answer(slot.result, slot.resLen, s.ring.resultBuf)]))
  }

  function DoFillStep(c: Config, s: State, st: FillStep): State
    requires Shaped(c, s) && CanFill(c, s, st)
  {
    match st
    case DoLock(tid, op, mode) => Lock(s, tid, op, mode)
    case DoRedundant(tid, surfaces, ctx) => Redundant(s, tid, ctx)
    case DoReserve => ReserveSlot(c, s)
    case DoFill => FillSlot(c, s)
    case DoData(src, size) => WantData(s, src, size)
    case DoAlloc => AllocData(c, s)
    case DoCopy => CopyData(c, s)
    case DoRecord => RecordData(c, s)
    case DoSend => StoreNeeds(c, s)
  }

  function DoAskStep(c: Config, s: State, st: AskStep): State
    requires Shaped(c, s) && CanAsk(s, st)
  {
    match st
    case DoPublish => PublishSlot(c, s)
    case DoLoadWaiting => LoadWaitingFlag(c, s)
    case DoPostReq => PostRequest(c, s)
    case DoWait(sleep) => WaitCompleted(c, s, sleep)
    case DoReadResp => ReadResponse(s)
    case DoTake => TakeAnswer(c, s)
    case DoReturn => ReturnCall(c, s)
  }

  function DoIdleStep(s: State, st: IdleStep): State
    requires CanIdle(s, st)
  {
    match st
    case DoPoll(sleep) => PollPublished(s, sleep)
    case DoSetWaiting => s.(ring := s.ring.(waiting := true), proxy := s.proxy.(pc := PollAgain))
    case DoPollAgain => PollSecond(s)
    case DoReadReq => s.(ring := s.ring.(req := 0), proxy := s.proxy.(pc := ClearWaiting))
    case DoClearWaiting => s.(ring := s.ring.(waiting := false), proxy := s.proxy.(pc := Poll))
  }

  function DoServeStep(c: Config, s: State, st: ServeStep): State
    requires Shaped(c, s) && CanServe(c, s, st)
  {
    var slot := ProxySlot(c, s);
    match st
    case DoBind => BindContext(c, s)
    case DoEnter => EnterHandler(c, s)
    case HandlerWrite(pos, value) => s.(ring := s.ring.(arena := s.ring.arena[pos % c.arena := value]))
    case HandlerResult(result) =>
      s.(ring := SetProxySlot(c, s, slot.(result := result)), hist := s.hist.Storing((r: Report) => r.(result := Some(result))))
    case HandlerResultLen(resLen) =>
      s.(ring := SetProxySlot(c, s, slot.(resLen := resLen)), hist := s.hist.Storing((r: Report) => r.(resLen := resLen)))
    case HandlerResultBuf(buf) =>
      s.(ring := s.ring.(resultBuf := buf), hist := s.hist.Storing((r: Report) => r.(buf := Some(buf))))
    case HandlerDone => FinishHandler(c, s)
    case DoRelease => s.(proxy := s.proxy.(pc := if slot.wmValid then StoreTail else LoadNeeds))
    case DoStoreTail => s.(ring := s.ring.(tail := slot.wm), proxy := s.proxy.(pc := LoadNeeds))
    case DoLoadNeeds => s.(proxy := Proxy(Complete, slot.needs))
    case DoComplete =>
      s.(ring := s.ring.(completed := s.ring.completed + 1),
         proxy := s.proxy.(pc := if s.proxy.needs != 0 then PostResp else Poll))
    case DoPostResp => s.(ring := s.ring.(resp := s.ring.resp + 1), proxy := s.proxy.(pc := Poll))
  }

  function Apply(c: Config, s: State, st: Step): State
    requires Shaped(c, s) && Enabled(c, s, st)
  {
    match st
    case Fill(f) => DoFillStep(c, s, f)
    case Ask(a) => DoAskStep(c, s, a)
    case Idle(i) => DoIdleStep(s, i)
    case Serve(v) => DoServeStep(c, s, v)
  }

  lemma FillKeepsShape(c: Config, s: State, st: FillStep)
    requires Shaped(c, s) && CanFill(c, s, st)
    ensures Shaped(c, DoFillStep(c, s, st))
  {
  }

  lemma ServeKeepsShape(c: Config, s: State, st: ServeStep)
    requires Shaped(c, s) && CanServe(c, s, st)
    ensures Shaped(c, DoServeStep(c, s, st))
  {
  }

  lemma StepKeepsShape(c: Config, s: State, st: Step)
    requires Shaped(c, s) && Enabled(c, s, st)
    ensures Shaped(c, Apply(c, s, st))
  {
    match st
    case Fill(f) => FillKeepsShape(c, s, f);
    case Ask(a) =>
    case Idle(i) =>
    case Serve(v) => ServeKeepsShape(c, s, v);
  }

  // ---- Runs -------------------------------------------------------------------------------

  /** Fresh shared memory; any set of threads, none with a context. */
  predicate Init(c: Config, s: State) {
    && Shaped(c, s)
    && s.ring.published == 0 && s.ring.completed == 0 && s.ring.tail == 0 && !s.ring.waiting
    && s.ring.req == 0 && s.ring.resp == 0
    && s.stub.pc == Unlocked && s.stub.localSeq == 0 && s.stub.head == 0 && s.stub.pending == None
    && s.proxy.pc == Poll
    && s.egl.current == 0 && s.egl.driver == None
    && (forall i :: 0 <= i < |s.egl.bindings| ==> s.egl.bindings[i] == None)
    && (forall t :: t in s.tls ==> s.tls[t] == Tls(0, None))
    && s.hist == History([], map[], [], [], map[], [], [])
  }

  /** The states after each prefix of a run. */
  predicate IsRun(c: Config, s: State, steps: seq<Step>)
    decreases |steps|
  {
    Shaped(c, s) && (steps == [] || (Enabled(c, s, steps[0]) && IsRun(c, Apply(c, s, steps[0]), steps[1..])))
  }

  function After(c: Config, s: State, steps: seq<Step>): (s': State)
    requires IsRun(c, s, steps)
    ensures Shaped(c, s')
    decreases |steps|
  {
    if steps == [] then s else After(c, Apply(c, s, steps[0]), steps[1..])
  }
}
