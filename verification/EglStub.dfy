/** stub/egl_stub.c: eglMakeCurrent with its thread-local record of the last successful call. */
module EglStub {
  import opened BridgeModel
  import opened BridgeTheorems
  import opened StubCore
  import opened Options

  /** last_display, last_draw, last_read, last_context and have_last; g_stub_current_ctx */
  class Thread {
    const stub: StubCore.Stub
    const tid: nat
    var currentCtx: nat
    var last: Option<Current>

    ghost predicate Valid()
      reads this, stub, stub.ring, stub.ring.slots, stub.ring.arena
    {
      stub.Valid() && tid in stub.ring.at.tls && stub.ring.at.tls[tid] == Tls(currentCtx, last)
    }

    constructor (stub: StubCore.Stub, tid: nat)
      requires stub.Valid() && tid in stub.ring.at.tls && stub.ring.at.tls[tid] == Tls(0, None)
      ensures Valid() && this.stub == stub && this.tid == tid
    {
      this.stub, this.tid, currentCtx, last := stub, tid, 0, None;
    }

    /** eglMakeCurrent: a repeated call sends nothing; any other call is sent, and remembered if it
        succeeds. done is false when the bridge made no progress in the given rounds. */
    method EglMakeCurrent(surfaces: Surfaces, ctx: nat, spins: nat, rounds: nat) returns (done: bool, ok: bool)
      requires Valid() && stub.ring.at.stub.pc == StubPc.Unlocked && ctx <= EGL_MAX_CONTEXTS
      requires ctx != 0 ==> forall t :: t in stub.ring.at.tls && t != tid ==> stub.ring.at.tls[t].ctx != ctx
      modifies this, stub, stub.ring, stub.ring.slots, stub.ring.arena
      ensures done ==> Valid() && stub.ring.at.stub.pc == StubPc.Unlocked && currentCtx == ctx
      ensures done && ok ==> last == Some(Current(surfaces, ctx))
      ensures done && !ok ==> last == None
      ensures old(last) == Some(Current(surfaces, ctx)) ==>
        done && ok && stub.ring.at.hist.log == old(stub.ring.at.hist.log)
      ensures done && old(last) != Some(Current(surfaces, ctx)) ==>
        && |stub.ring.at.hist.log| == |old(stub.ring.at.hist.log)| + 1
        && stub.ring.at.hist.log[|old(stub.ring.at.hist.log)|].op == MakeCurrent(surfaces, ctx)
    {
      if last == Some(Current(surfaces, ctx)) {
        stub.ring.Fill(DoRedundant(tid, surfaces, ctx));
        currentCtx := ctx;
        return true, true;
      }
      ok := false;
      var op := MakeCurrent(surfaces, ctx);
      done := stub.BridgeBegin(tid, currentCtx, op, SendCall, rounds);
      if !done {
        return;
      }
      stub.Setup(op);
      currentCtx := ctx;
      var result, resLen, buf;
      done, result, resLen, buf := stub.BridgeSendCall(spins, rounds);
      ok := done && result != 0;
      last := if ok then Some(Current(surfaces, ctx)) else None;
    }
  }
}
