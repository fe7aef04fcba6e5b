# Verification of the GLES bridge

This project models the logic of the bridge that lets a 64-bit client use a 32-bit OpenGL ES driver through a proxy
process, and proves properties of the model in Dafny 4.11. Check all of it with `dafny verify dfyconfig.toml`.

## What is modelled

**The command bridge.** Client threads take a lock, fill slots of a ring in shared memory, copy payloads into a
wrapping arena and publish; one proxy loop dispatches. `BridgeModel` is a transition system with one step for every
load or store of shared memory and every eventfd read or write. The number of slots (a power of two), the arena size
(a positive multiple of 4), the set of threads and the switch for asynchronous swaps are parameters. `BridgeRing`,
`BridgeArena`, `BridgeWake`, `BridgeCalls` and `BridgeContexts` hold one invariant each; `BridgeTheorems` states what
follows for every reachable state, `BridgeReports` that nothing an earlier command left in a slot passes for an answer,
and `BridgeProgress` bounds how long a published command waits and its client after it. A history of published commands,
handler calls, what handlers stored, and answers lets the theorems speak about whole runs.

**Its code.** `StubCore`, `EglStub` and `ProxyLoop` are the functions of `stub/bridge_core.c`, `stub/egl_stub.c` and
`proxy/proxy.c` as imperative code over slot and arena arrays (`BridgeMemory`). Every access to shared memory is one
step of the transition system, which the ghost field `at` records, so the theorems hold of this code. Between two
accesses other parties may run: `Stub.OthersRun` and `Proxy.ClientsRun` stand for that. Their contracts allow exactly
what `OthersRuns` and `ClientsRuns` prove of every run of the other parties; their bodies are the empty run. Loops that
wait carry a bound on rounds and report when it is used up.

**Caches in front of the driver.** `FboDriver`/`FboCache`/`FboRefines` (framebuffer attachments, proxy),
`ShadowTex`/`ShadowRefines` (texture bindings, stub) and `LocCache`/`LocSoundness` (uniform and attribute locations,
stub) each have the table as the code keeps it, a specification of every operation, and the theorem that the cache is
invisible. `FboExact` and `ShadowExact` prove that the conditions of the first two are exact: whatever command breaks
one, there is a continuation that keeps them all and shows the difference. `FboKnown` and `ShadowKnown` say what these
caches are good for: which calls are skipped, as a function of the commands before them, and how long that lasts. The
driver models keep texture objects apart from texture names, and names apart per share group.

**Fence handles** (`SyncHandles`, `SyncDeletes` for handles deleted twice, `SyncOrder` for their way over the bridge),
the **slot count** (`RingConfig`), **upload sizes** (`Unpack`), **draw messages** (`DrawMessage`) and **vertex ranges that
travel with a draw** (`Piggyback`).

**cJSON.** `JsonStrings`, `JsonEscapes`, `JsonUtf8` and `JsonStringCode` for strings, `JsonTree` and `JsonTreeCode` for
trees, `ChildList` for the doubly linked child lists. `JsonGrammar` is the grammar of the texts that are accepted,
`JsonLayout` that of the texts that are printed, `JsonTables` has the tables of the standards they go by.

`Bits`, `Bytes` and `Options` hold masks and shifts, little-endian integers, and the option type.

## Where the code does not do what one would expect

The first name is the theorem with the exact condition, the others are runs or inputs that show the case.

- `data_tail` is stored before `completed_seq`: payload bytes can be overwritten before their command counts as
  completed, though never before its handler has returned (`ReuseExactly`, `ReuseHappens`).
- Context index 8 is handed out, but `egl_bind_target_ctx` ignores it (`BindReaches`, `LastContextUnreachable`).
- The framebuffer cache records an attachment before the driver has accepted it (`FboExact.CleanExactly`,
  `RejectedAttachIsSkippedLater`).
- The texture shadow (`ShadowExact.CleanExactly` has all conditions at once):
  - After `eglCreateContext` the next shadow access also wipes the shadow of the context that is current
    (`ResetIsRightExactly`, `CreateContextLosesBind`). The reset in `eglDestroyContext` stands behind a `return`.
  - A second `eglCreateContext` before that access overwrites the reset that is due, and the shadow of an index that is
    used again keeps the bindings of its predecessor (`OverwrittenResetLosesBind`).
  - A unit that the driver rejects becomes the shadow's active unit all the same (`RejectedUnitLosesBind`).
  - A texture named 0xFFFFFFFF is taken for the shadow's own marker (`MarkerDrop`, `MarkerIsLost`).
- A name of 64 bytes or more is cut to 63 in the location cache and can be found under that name
  (`WrongHitExactly`, `CutNameIsFound`).
- The proxy keeps a 64-bit index offset in a 32-bit `uintptr_t` (`DrawElementsArrives`).
- An attribute stride of 0 is taken for 1 instead of the element size (`TightCarried`, `TightAttribute` for an
  attribute alone in its buffer, `TightExample`).
- `glDrawArrays` names one vertex too many, so a mapping that ends with the drawn vertices is not sent (`ExtraVertex`).
- `gl_bytes_per_pixel` takes stencil indices for 4 bytes (`PixelSizes`, `Size2DExact`, `Size3DExact`).
- A `\u` escape followed by four bytes that are not all hexadecimal digits is accepted as U+0000, and U+0000 ends a C
  string (`BeyondGrammarExactly`, `BadDigitsAreZero`, `BadDigitsExample`).
- Every byte up to 32 counts as a blank between JSON tokens, and what follows the value is ignored unless the end is
  required (`ParseExactly`).
- Appending an item does not clear its `next`, and an item that is a child already is taken again (`AddItemToArray`,
  `InsertItemInArray`, `ReplaceItemViaPointer`). Nor is an item of another list told apart (`DetachItemViaPointer`,
  `ReplaceItemViaPointer`).
- Deleting a fence handle twice frees the id for which another handle may stand (`FreeAgainIsSafeExactly`,
  `DoubleDeleteFreesAnother`).

## Model

| member | source | states |
|---|---|---|
| BridgeTheorems.DispatchIsFaithful | proxy/proxy.c:893-1013 | On every run the k-th handler call is for the k-th published command, with opcode, arguments and payload references as published, the payload bytes its client wrote, and its issuer's context and surfaces current (except for commands without a context and for context index 8); none is skipped, repeated or reordered |
| BridgeTheorems.RingOccupancy | stub/bridge_core.c:538-567 | completed <= published <= reserved <= completed + slots always; the slot being filled is none the proxy still reads; published slots keep their contents |
| BridgeTheorems.AllocationIsApart | stub/bridge_core.c:570-652 | A new arena range has no byte in common with any payload between the tail and the allocation, also across the wrap point |
| BridgeTheorems.UnreleasedWindow | proxy/proxy.c:1004-1013 | Until the proxy stores the tail for a command, the tail stays at or before the command's window, and later allocations start behind it |
| BridgeTheorems.LivePayloadsAreApart | stub/bridge_core.c:570-652 | While a payload is allocated and copied, its range overlaps no payload of any command that is not released; every range is 4-aligned and inside the arena |
| BridgeTheorems.OwnPayloadsAreApart | stub/bridge_core.c:642-652 | It overlaps no earlier payload of its own slot either |
| BridgeTheorems.BlockingCallGetsOwnAnswer | stub/bridge_core.c:711-752 | Every answer a blocking call took is what the handler of that very sequence number left; while it is taken the ring is empty and no handler runs |
| BridgeReports.WaitingSlotsHaveNoLength | stub/bridge_core.c:625-640 | In every reachable state the slot of every published command whose handler has not started has result length 0, whatever the slot was used for before |
| BridgeReports.AnswersAreStored | stub/bridge_core.c:711-752 | Every answer a blocking call took has the result, length and buffer that the handler of its own command stored last, and length 0 if it stored none |
| BridgeReports.DoneIsStored | proxy/proxy.c:893-1003 | So has what is left at the end of every handler call, blocking or not |
| BridgeReports.StepKeepsReports | stub/bridge_core.c:625-752 | Each step of every party keeps this |
| BridgeReports.ResponseIffAsked | proxy/proxy.c:1004-1023 | A response is posted for exactly the commands that were not sent as void |
| BridgeReports.RequestIffAnnounced | stub/bridge_core.c:683-709 | A client posts a request for exactly the commands after whose publication it finds the proxy about to sleep, asleep or just woken |
| BridgeTheorems.OneFrameInFlight | stub/bridge_core.c:860-892 | When an asynchronous swap returned, every earlier swap was completed; no state has three uncompleted swaps |
| BridgeTheorems.NoDeadlock | stub/bridge_core.c:505-535 | No wake-up is lost in either direction, the two sides never sleep on each other, and some step makes progress unless nothing is left to do or a payload can never fit |
| BridgeProgress.ServedInTime | proxy/proxy.c:838-1024 | On every continuation a published command is completed before the proxy's loop has taken nine steps per slot and two more |
| BridgeProgress.LoopGoesOn | proxy/proxy.c:841-891 | While a published command waits the loop can take a step, or the client that is about to wake it can |
| BridgeProgress.ReturnsInTime | stub/bridge_core.c:683-752 | On every continuation a client whose command is completed returns before it has taken more than seven steps of its own |
| BridgeProgress.ClientGoesOn | stub/bridge_core.c:683-709 | It can take the next one, or it sleeps and the proxy's next step wakes it |
| BridgeProgress.ReservesExactly | stub/bridge_core.c:538-567 | In every reachable state a reservation goes through if and only if fewer commands are published and not completed than there are slots |
| BridgeProgress.AllocatesExactly | stub/bridge_core.c:570-623 | An allocation goes through if and only if its size rounded up to a multiple of 4, and the rest of the arena if it has to start over, fit in one arena from the tail on; then it lies there |
| BridgeTheorems.CannotFitForever | stub/bridge_core.c:585-617 | A payload that does not fit behind the earlier ones of its slot holds its thread up on every continuation of the run |
| BridgeTheorems.FirstPayloadBound | stub/bridge_core.c:570-623 | With all earlier slots completed the first payload of a slot is placed at once if its rounded size fits before or behind the wrap point, else never; half an arena always fits |
| BridgeTheorems.StepKeepsInv | proxy/proxy.c:838-1024 | Every step of every party keeps all five invariants |
| BridgeTheorems.RunKeepsInv | proxy/proxy.c:838-1024 | So does every run |
| BridgeTheorems.ReachableInv | stub/bridge_core.c:538-752 | They hold in every reachable state |
| BridgeTheorems.RunsReach | proxy/proxy.c:838-1024 | The reachable states are exactly the ends of runs from a start |
| BridgeRing.StepKeepsRing | stub/bridge_core.c:538-567 | Each step keeps the counters in order, published slots unchanged, and dispatch in publish order |
| BridgeRing.FilledSlotApart | stub/bridge_core.c:544-566 | The slot being filled is none between completed and published |
| BridgeArena.StepKeepsArena | stub/bridge_core.c:570-652 | Each step keeps the payload windows consecutive, the tail at their released end, and every unreleased byte as its client copied it |
| BridgeArena.PlaceFacts | stub/bridge_core.c:585-603 | An allocation starts at or after the head, ends at the new head, lies inside the arena and is 4-aligned |
| BridgeArena.EnterSeesPayloads | proxy/proxy.c:893-925 | A handler that starts sees its command's payload bytes |
| BridgeWake.StepKeepsWake | stub/bridge_core.c:683-709 | Each step keeps: the proxy sleeps over a published command only while its producer is about to post, a client over a completed one only while the proxy is |
| BridgeWake.NoLostWakeup | proxy/proxy.c:841-891 | Hence neither side waits in vain |
| BridgeWake.StopsExactlyAtRest | proxy/proxy.c:841-891 | A productive step exists if and only if the bridge is not at rest |
| BridgeWake.ArenaProgress | stub/bridge_core.c:585-617 | The first allocation of a slot proceeds if and only if s <= D - pos or s <= pos |
| BridgeCalls.StepKeepsCalls | stub/bridge_core.c:711-752 | Each step keeps the slot's and the result buffer's answer until the caller has copied it, and at most one swap pending besides the one being sent |
| BridgeCalls.QuietWhileTaking | stub/bridge_core.c:745-751 | While an answer is copied the proxy is idle and the slot holds its own handler's result |
| BridgeCalls.AtMostTwoSwaps | stub/bridge_core.c:872-878 | Of any three swaps the first is completed |
| BridgeContexts.StepKeepsContexts | proxy/protocol/egl.c:885-921 | Each step keeps the recorded bindings right for every thread's context, so that each command runs in its issuer's |
| BridgeContexts.FilterIsInvisible | stub/egl_stub.c:914-919 | The redundant-call filter of eglMakeCurrent changes nothing |
| BridgeContexts.BindReaches | proxy/protocol/egl.c:119-143 | Binding a recorded context makes it current with its surfaces if and only if its index is below 8 or it was current already |
| BridgeContexts.SwitchReaches | proxy/protocol/egl.c:906-921 | After eglMakeCurrent the driver has the context and surfaces asked for, nothing for context 0, and no other record has changed |
| BridgeContexts.LastContextUnreachable | proxy/protocol/egl.c:121-122 | With contexts 1 and 8, a command for context 8 runs in context 1 |
| BridgeEarlyRelease.ReuseExactly | proxy/proxy.c:1004-1013 | Bytes of a command that is not completed are reused exactly while the proxy stands between its two stores and the new window reaches around the wrap; its handler has returned by then |
| BridgeEarlyRelease.ReuseHappens | proxy/proxy.c:1004-1013 | There is a run on which this happens |
| BridgeMemory.Shared.SlotIndex | bridge/bridge_config.c:183-186 | seq & mask is an index below the slot count, the remainder of seq |
| StubCore.OthersStep | stub/bridge_core.c:505-567 | Steps of other parties leave the lock holder's state, the published commands and its thread-local state alone, and move completed and tail only forward |
| StubCore.OthersRuns | stub/bridge_core.c:505-567 | So does every run of them: what the methods take for granted of the other parties holds of all their interleavings |
| StubCore.PayloadsStand | stub/bridge_core.c:642-652 | The payloads of the slot being filled stand in the arena where its references say |
| StubCore.Stub.RingReserveSlot | stub/bridge_core.c:538-567 | Takes the next sequence number once a slot is free, in the first round if one is free already |
| StubCore.Stub.BridgeBegin | stub/bridge_core.c:625-640 | Reserves a slot, in the first round if one is free; the slot then has the caller's context, the head as watermark, no valid watermark, and result length 0, and stays so while others run |
| StubCore.Stub.WrapAround | stub/bridge_core.c:585-603 | The head's position, or offset 0 if the rounded size does not fit before the wrap point |
| StubCore.Stub.RingDataAlloc | stub/bridge_core.c:570-623 | Places the rounded size once it fits in front of the tail, in the first round if it fits already |
| StubCore.Stub.CopyIn | stub/bridge_core.c:646-647 | Copies the whole source, byte by byte, while others run |
| StubCore.Stub.BridgeDataWrite | stub/bridge_core.c:642-652 | The bytes stand in the arena at the returned offset, aligned and inside; the command carries them; sizes above the arena are refused |
| StubCore.Stub.PublishCur | stub/bridge_core.c:683-709 | The command becomes the last published one, with the issuer's operation, context and payloads |
| StubCore.Stub.WaitCompleted | stub/bridge_core.c:505-535 | Returns only when the awaited command is completed, at once if it already is |
| StubCore.Stub.BridgeSendVoid | stub/bridge_core.c:673-680 | Publishes one command and gives the lock back |
| StubCore.Stub.BridgeSendCall | stub/bridge_core.c:711-752 | The result, its length and the result buffer are those its own handler stored, length 0 if it stored none |
| StubCore.Stub.BridgeSendSwap | stub/bridge_core.c:860-892 | Asynchronously: returns 1 with all earlier swaps completed; otherwise its own handler's result |
| EglStub.Thread.EglMakeCurrent | stub/egl_stub.c:896-949 | A repeated call sends nothing; any other sends one command and is remembered if it succeeds |
| ProxyLoop.ClientsStep | proxy/proxy.c:838-1024 | Steps of clients leave the proxy's state, the slot it works on and the dispatched commands alone |
| ProxyLoop.ClientsRuns | proxy/proxy.c:838-1024 | So does every run of clients |
| ProxyLoop.Egl.EglBindTargetCtx | proxy/protocol/egl.c:119-143 | Switches to the recorded surfaces of the context, in the cases of the specification |
| ProxyLoop.Egl.HEglMakeCurrent | proxy/protocol/egl.c:885-921 | Switches and records the surfaces |
| ProxyLoop.Proxy.AwaitWork | proxy/proxy.c:841-891 | Finds a published command if there is one, else ends asleep on an empty req_efd or awake at the top of the loop |
| ProxyLoop.Proxy.ServeOne | proxy/proxy.c:893-1023 | Completes exactly one command; its answer is what its handler left |
| ProxyLoop.Proxy.Drain | proxy/proxy.c:838-1024 | Dispatches published commands in order, each once with its published contents, until the ring is empty |
| RingConfig.IsPow2Iff | bridge/bridge_config.c:22-25 | The test accepts exactly the powers of two |
| RingConfig.RoundUpPow2 | bridge/bridge_config.c:27-38 | The least power of two not below v, and 0 if that needs more than 32 bits |
| RingConfig.BridgeConfig.LoadRingSlots | bridge/bridge_config.c:145-173 | A power of two between 64 and 65536, the least one not below the clamped setting |
| RingConfig.BridgeConfig.RingSlots | bridge/bridge_config.c:175-181 | The same on every call |
| RingConfig.SlotOfIsMod | bridge/bridge_config.c:183-186 | seq & mask is seq modulo the slot count |
| RingConfig.SlotsDistinct | stub/bridge_core.c:566 | Sequence numbers less than a ring apart have different slots |
| SyncHandles.AllocFacts | stub/bridge_core.c:117-142 | Fails if and only if all 255 ids are taken; else takes one free id, with the next generation in the handle |
| SyncHandles.HandleParts | stub/bridge_core.c:136 | Id and generation can be read back from a handle |
| SyncHandles.SyncTable.BridgeSyncAlloc | stub/bridge_core.c:117-142 | The loop computes the specified allocation |
| SyncHandles.SyncTable.BridgeSyncFree | stub/bridge_core.c:144-153 | Frees the handle's id, nothing for id 0 |
| SyncHandles.StepKeepsInv | stub/gles3_2_stub.c:473-560 | Every step of every client thread that frees no other holder's id keeps holders, ids and the order of commands right |
| SyncHandles.DeletedBetween | stub/gles3_2_stub.c:542-560 | Between two fences of one id the earlier handle is deleted |
| SyncHandles.DeleteSeenFirst | stub/gles3_2_stub.c:542-560 | On every interleaving in which no free hits another handle's id, the proxy sees an id's old handle deleted before its new fence |
| SyncHandles.LiveHandles | stub/gles3_2_stub.c:473-497 | Live handles have distinct ids; allocation fails if and only if 255 are live |
| SyncHandles.NotReusedAtOnce | stub/bridge_core.c:122-128 | An id just freed is not the next one given out while another id is free |
| SyncHandles.HandlesReturnLate | stub/bridge_core.c:132-136 | A handle value comes back only after 2^24 - 1 successful allocations |
| SyncDeletes.FreeAgainExactly | stub/bridge_core.c:144-153 | Freeing the id of a handle the client does not own keeps the invariant if and only if no other handle holds that id |
| SyncDeletes.FreeAgainIsSafeExactly | stub/gles3_2_stub.c:542-560 | In every such state live handles stay distinct on all harmless continuations if and only if no other handle holds the id |
| SyncDeletes.DoubleDeleteFreesAnother | stub/gles3_2_stub.c:542-560 | A run from the start in which deleting a handle twice lets two live handles share an id |
| SyncHandles.OnceIsHarmless | stub/gles3_2_stub.c:542-560 | Runs in which every handle is deleted at most once are harmless |
| SyncOrder.ProxySeesDeleteFirst | proxy/proxy.c:893-1013 | With the handle threads and the bridge running together, between two handler calls that create fences of one id there is one that deletes the earlier |
| FboDriver.SetPoints | proxy/protocol/gles2.c:142-152 | GL_DEPTH_STENCIL_ATTACHMENT sets both points, any other attachment its own |
| FboCache.Cache.AttachTo | proxy/protocol/gles2.c:173-220 | Hit test, alias clearing and placement act as specified, on the current context only |
| FboCache.Cache.Place | proxy/protocol/gles2.c:201-218 | The matching entry, or the first free one, or the first after emptying a full table |
| FboCache.Cache.ClearAliases | proxy/protocol/gles2.c:195-199 | Clears the framebuffer's depth and stencil entries under other names |
| FboCache.Cache.InvalidateAttachment | proxy/protocol/gles2.c:163-170 | Clears the bound framebuffer's entries of the attachment and its aliases |
| FboCache.Cache.ForgetTextureNames | proxy/protocol/gles2.c:222-238 | Clears the entries of the names in every context |
| FboCache.Cache.ForgetFbNames | proxy/protocol/gles2.c:240-256 | Clears the entries and bindings of the names in the current context |
| FboCache.Cache.Bind | proxy/protocol/gles2.c:258-265 | Sets draw, read or both |
| FboCache.Cache.ResetCtx | proxy/protocol/gles2.c:154-161 | Empties one context's part |
| FboRefines.StoredOk | proxy/protocol/gles2.c:182-218 | The table keeps one entry per attachment, all true |
| FboRefines.HitIsIdle | proxy/protocol/gles2.c:923-949 | On a hit the driver call would change nothing |
| FboRefines.MissIsRecorded | proxy/protocol/gles2.c:173-220 | On a miss the new table is true of the driver after the call |
| FboRefines.DeleteTexturesRow | proxy/protocol/gles2.c:329-337 | Deleting names leaves every context's table true, though images stay attached elsewhere |
| FboRefines.Step | proxy/protocol/gles2.c:923-949 | Each command leaves the driver as without the cache, and the cache true |
| FboRefines.SkippingIsInvisible | proxy/protocol/gles2.c:923-949 | For all command sequences over any contexts and share groups whose recorded attachments the driver accepts or has in place, the driver ends in the same state with and without skipped calls |
| FboExact.CleanExactly | proxy/protocol/gles2.c:923-949 | In every state that clean commands lead to, and for every command: skipping is invisible now and on all clean continuations if and only if the command is no recorded attachment, or the driver accepts it, or it is in place already |
| FboExact.RecordIsTruthful | proxy/protocol/gles2.c:940-949 | A recorded miss is true of the driver if and only if it accepts the attachment or has it in place |
| FboExact.RejectedAttachIsSkippedLater | proxy/protocol/gles2.c:940-949 | In every such state: attach a missing texture, create it, attach it again, and the second call is missing |
| FboKnown.HitExactly | proxy/protocol/gles2.c:173-193 | A call is skipped if and only if the table remembers exactly its attachment for the bound framebuffer |
| FboKnown.KnownAfter | proxy/protocol/gles2.c:154-265 | After any command a context's table remembers exactly the attachment that the command made and those that it spares: every one that is not of a related attachment point, a deleted texture or a deleted framebuffer, unless the new one is not in a full table |
| FboKnown.KnownExactly | proxy/protocol/gles2.c:154-265 | After any sequence of commands over any contexts, exactly those that were remembered at first or made on the way and spared by every command since |
| FboKnown.SkippedExactly | proxy/protocol/gles2.c:923-949 | From the start on, a call is skipped if and only if its attachment was made before in that context and every later command spared it |
| FboKnown.RememberedWhileRoom | proxy/protocol/gles2.c:201-218 | A remembered attachment outlives every sequence of commands that do not concern it, as long as the entries taken and the attachments made are no more than 64 |
| FboRefines.Handlers.Run | proxy/protocol/gles2.c:923-949 | The handlers with cache and driver act as specified |
| LocCache.StrnEqualIs | stub/gles2_stub.c:90-91 | strncmp over 64 bytes decides equality for stored names |
| LocCache.Cache.LocHash | stub/gles2_stub.c:72-78 | The loop computes the 32-bit hash |
| LocCache.Cache.LocCacheLookup | stub/gles2_stub.c:80-97 | Stops at the first empty slot or match |
| LocCache.Cache.LocCacheInsert | stub/gles2_stub.c:99-119 | Overwrites the first empty slot or match, nothing in a full table |
| LocCache.Cache.LocCacheInvalidateProgram | stub/gles2_stub.c:122-127 | Punches a hole for every entry of the program |
| LocSoundness.HitIsFirst | stub/gles2_stub.c:80-97 | A hit is the first match in probe order, holes ignored |
| LocSoundness.OtherInsert | stub/gles2_stub.c:99-119 | Storing one key leaves every other key's first match alone, unless its name is cut to it |
| LocSoundness.RunKeepsNewestFirst | stub/gles2_stub.c:80-127 | On every run of insertions and invalidations the first match is the newest |
| LocSoundness.HitsAreNewest | stub/gles2_stub.c:80-127 | A hit returns the location stored last for that program, name and kind since the program's last invalidation; the only exception is a 63-byte name to which a longer one was cut |
| LocSoundness.WrongHitExactly | stub/gles2_stub.c:80-127 | For every key: some sequence of operations leads to a hit on anything but the location stored last if and only if the name has 63 bytes and the program is not 0 |
| LocSoundness.LongerName | stub/gles2_stub.c:72-78 | Every name can be made longer by two bytes without leaving its hash slot |
| LocSoundness.RoomIs | stub/gles2_stub.c:103-117 | An insertion finds room if and only if some slot is empty or holds the key |
| LocSoundness.StoredIsFound | stub/gles2_stub.c:80-119 | A location just stored is found if and only if there was room |
| LocSoundness.CutNameIsFound | stub/gles2_stub.c:112-113 | A name never stored is found after its 64-byte extension was |
| ShadowTex.Shadows.StateForCurrent | include/gles_util_stub.h:585-605 | Pending resets first, then lazy initialisation |
| ShadowTex.Shadows.GlActiveTexture | stub/gles2_stub.c:135-150 | Sent unless the shadow has it; the shadow follows |
| ShadowTex.Shadows.GlBindTexture | stub/gles2_stub.c:152-177 | Sent unless the tracked slot has it; the slot follows |
| ShadowTex.Shadows.ShadowInvalidateTexture | include/gles_util_stub.h:716-736 | Marks the name in every unit, target and context |
| ShadowTex.Shadows.GlDeleteTextures | stub/gles2_stub.c:201-206 | Does so for each name |
| ShadowRefines.DroppedBind | stub/gles2_stub.c:156-162 | A dropped bind would have changed nothing |
| ShadowRefines.SentBind | stub/gles2_stub.c:156-177 | A sent bind is what the shadow claims afterwards; one that the driver rejects claims nothing |
| ShadowRefines.DeleteOneKeeps | include/gles_util_stub.h:716-736 | Deleting a name leaves every context's claims true |
| ShadowRefines.FilterIsInvisible | stub/gles2_stub.c:135-206 | From fresh contexts, through deletion and name reuse, the driver ends in the same state with and without dropped calls, for commands that meet the conditions of `Clean`: on wiped shadows, overwritten resets, rejected units and the marker's name |
| ShadowRefines.UnnecessaryReset | include/gles_util_stub.h:585-605 | What `Clean` asks of an overwritten reset: a shadow never set up, or one that names unit 0 and only entries that are 0 or claim nothing |
| ShadowExact.CleanExactly | stub/gles2_stub.c:135-206 | Those conditions are exact: in every state that clean commands lead to, and for every command, the filter is invisible now and on all clean continuations if and only if the command meets its condition |
| ShadowExact.OverwrittenResetLosesBind | stub/egl_stub.c:866-867 | A context index created anew, another context created before any call: a bind in the first is lost |
| ShadowExact.RejectedUnitLosesBind | stub/gles2_stub.c:135-142 | After a unit that does not exist was made active, a bind is lost |
| ShadowKnown.ActiveDroppedExactly | stub/gles2_stub.c:135-150 | glActiveTexture is dropped if and only if it names the unit that the shadow knows to be active |
| ShadowKnown.BindDroppedExactly | stub/gles2_stub.c:152-177 | glBindTexture is dropped if and only if the active unit and the target are tracked, 32 units and four targets, and the name is known to be bound there |
| ShadowKnown.KnownAfter | stub/gles2_stub.c:135-206 | After any command a context's shadow has at a tracked place exactly what the command bound there and what it spares: everything but deleted names, the place bound to, and shadows that start afresh |
| ShadowKnown.ActiveAfter | stub/gles2_stub.c:135-150 | The unit known to be active in a context is the one its last glActiveTexture named, until its shadow starts afresh |
| ShadowKnown.KnownExactly | stub/gles2_stub.c:135-206 | The same over any sequence of commands in any contexts |
| ShadowKnown.RepeatIsDropped | stub/gles2_stub.c:152-177 | A repeated bind is dropped after any sequence of commands that spares the first one |
| ShadowRefines.ResetIsRightExactly | include/gles_util_stub.h:585-605 | The reset after eglCreateContext leaves the current context's shadow right if and only if that context has no tracked state |
| ShadowRefines.MarkerDrop | stub/gles2_stub.c:158-161 | Dropping a bind of name 0xFFFFFFFF is right if and only if that texture is bound there already or the driver would reject it |
| ShadowRefines.MarkerIsLost | stub/gles2_stub.c:158-161 | A bind of that name after a deletion is lost |
| ShadowRefines.CreateContextLosesBind | stub/egl_stub.c:866-867 | A bind of 0 after eglCreateContext is lost |
| Unpack.PixelSizes | include/gles_util_stub.h:66-156 | The pixel size agrees with table 8.2 of OpenGL ES 3.2 if and only if the format is not STENCIL_INDEX |
| Unpack.StrideIsSpec | include/gles_util_stub.h:158-181 | Rounding up to the alignment is the row length of section 8.4.4 |
| Unpack.Size2DExact | include/gles_util_stub.h:172-187 | The size is one more than the greatest byte offset read, if and only if the format is not STENCIL_INDEX |
| Unpack.Size3DExact | include/gles_util_stub.h:189-211 | The same with images skipped and stacked |
| DrawMessage.ArgWriter.Put | include/gles_bridge_protocol.h:1418-1423 | The bytes of an integer at a given place, nothing else changed |
| DrawMessage.WritePatches | stub/gles2_stub.c:2494-2537 | Placeholder, pairs, and the count written back give a counted list of the client-memory attributes |
| DrawMessage.PatchesComplete | stub/gles2_stub.c:2505-2535 | Attribute i has a pair, with the offset of its vertices, if and only if it is enabled, has no buffer and has a pointer; the pairs are in the order of the attributes |
| DrawMessage.GlDrawArrays | stub/gles2_stub.c:2475-2555 | The buffer holds the message, at most 156 of 256 bytes, with the pairs of exactly the enabled attributes without a buffer and with a pointer |
| DrawMessage.GlDrawElements | stub/gles2_stub.c:2577-2716 | The buffer holds the message, at most 180 bytes; pairs go along only with indices in client memory that are not null |
| DrawMessage.HGlDrawArrays | proxy/protocol/gles2.c:1943-1969 | The handler reads the encoded values |
| DrawMessage.HGlDrawElements | proxy/protocol/gles2.c:2100-2130 | The handler reads the encoded values, the index offset modulo its pointer width |
| DrawMessage.DrawArraysArrives | proxy/protocol/gles2.c:1943-1969 | Mode, first, count and range arrive as sent, and a pair for attribute i if and only if it is enabled, has no buffer and has a pointer, with its offset and in order |
| DrawMessage.DrawElementsArrives | proxy/protocol/gles2.c:2100-2130 | So does an indexed draw: with an element buffer without pairs, and its index offset if and only if that is below 2^32; without one marked as client memory, with the pairs unless the index pointer was null |
| DrawMessage.ArraysBytesDecide | stub/gles2_stub.c:2475-2555 | Equal argument bytes are equal draws |
| Piggyback.MappedIndexBounds | include/gles_util_stub.h:295-366 | Exact maximum and minimum (clamped at 0) of index + basevertex over the indices that are no restart; false exactly when none is at or above 0 |
| Piggyback.RestartIsAllOnes | include/gles_util_stub.h:303-305 | An index is the restart index of its type if and only if all its bytes are 0xFF |
| Piggyback.RawIs | include/gles_util_stub.h:311-335 | An index is its one, two or four bytes, the low one first |
| Piggyback.WidthIs | include/gles_util_stub.h:243-256 | The index types are those of OpenGL ES, with the widths of its table 2.2 |
| Piggyback.UnionOf | include/gles_util_stub.h:402-421 | The least range around all attributes of the buffer |
| Piggyback.VboPiggybackRange | include/gles_util_stub.h:371-444 | A buffer is carried if and only if an enabled attribute's buffer has a writable, not explicitly flushed mapping that contains the union of what its attributes need, by the component sizes of `TypeSizeIs`; it is the first such buffer, and what is carried is that union |
| Piggyback.ExtraVertex | stub/gles2_stub.c:2547-2549 | With one vertex more than drawn named as the last, a buffer is sent if and only if its mapping has room for that vertex too |
| Piggyback.TypeSizeIs | include/gles_util_stub.h:258-279 | For every type the component size is that of table 2.2 of OpenGL ES 3.2; packed and unknown types count as words |
| Piggyback.CarriedCovers | include/gles_util_stub.h:371-444 | It contains every byte an enabled attribute with a stride reads for the vertices drawn, by the component sizes of OpenGL ES 3.2 |
| Piggyback.TightCarried | include/gles_util_stub.h:391-438 | What is carried contains every byte that an attribute with stride 0 reads if and only if some attribute of the buffer ends, as counted, no earlier than that one really does |
| Piggyback.TightAttribute | include/gles_util_stub.h:395-400 | For an attribute alone in its buffer: if and only if its vertices up to the last fit the bytes counted for it |
| Piggyback.TightCases | include/gles_util_stub.h:258-279 | The latter is: elements of one byte or vertex 0 alone, and for packed types no vertex after the fifth |
| Piggyback.RealMap.Apply | proxy/protocol/gles2.c:1971-1995 | Copies all of the data, or nothing if it does not fit the mapping |
| Piggyback.DrawRefreshes | proxy/protocol/gles2.c:1971-1995 | Afterwards the real mapping agrees with the stub's copy on every such byte |
| JsonStrings.StringRoundTrip | deps/cJSON.c:824-1073 | Parsing a printed string gives it back, whatever follows |
| JsonStrings.ValidLiteralValue | deps/cJSON.c:824-951 | A literal valid by RFC 8259 section 7 is read as the UTF-8 of its text, cut at the first U+0000: the whole text if and only if there is none |
| JsonEscapes.EscapeMeaning | deps/cJSON.c:703-821 | A `\u` is accepted if and only if an escape of RFC 8259 stands there or four bytes follow that are not all hexadecimal digits; the former is read as its code point, the latter as U+0000 |
| JsonEscapes.LiteralReading | deps/cJSON.c:824-951 | Any text is accepted as a literal if and only if what stands between its quotes is made of raw bytes, escapes of RFC 8259, such bad escapes and a stray last backslash; it is read as their values |
| JsonEscapes.PiecesUnique | deps/cJSON.c:871-925 | In one way only |
| JsonEscapes.BeyondGrammarExactly | deps/cJSON.c:871-925 | An accepted literal is outside the grammar if and only if one of its escapes is bad |
| JsonEscapes.BadDigitsAreZero | deps/cJSON.c:666-699 | The value of an accepted literal ends before every bad escape |
| JsonEscapes.ShortEscapeExample | deps/cJSON.c:713-717 | An escape that ends before its fourth digit is refused |
| JsonTables.ShortEscapes | deps/cJSON.c:885-908 | The short escapes and their meanings are those of RFC 8259 section 7, no other letter has one |
| JsonTables.HexDigits | deps/cJSON.c:674-690 | The hexadecimal digits and their values, in both cases, and no others |
| JsonTables.Utf8Is | deps/cJSON.c:766-815 | Lengths, first bytes and free bits are those of RFC 3629 section 3 |
| JsonUtf8.PairIs | deps/cJSON.c:758 | The shifts and masks combine a surrogate pair |
| JsonUtf8.Continuation | deps/cJSON.c:799-804 | The masks give a continuation byte of RFC 3629 section 3 |
| JsonStringCode.ParseHex4 | deps/cJSON.c:666-699 | Value of four digits, else 0 |
| JsonStringCode.EncodeUtf8 | deps/cJSON.c:766-815 | The bytes of RFC 3629 section 3 |
| JsonStringCode.Utf16LiteralToUtf8 | deps/cJSON.c:703-821 | Length and bytes of an escape, 0 for a bad one |
| JsonStringCode.FindEnd | deps/cJSON.c:837-861 | The closing quote, and how many escapes precede it |
| JsonStringCode.Fill | deps/cJSON.c:871-925 | The unescaped bytes, which fit the buffer sized by the scan |
| JsonStringCode.ParseStringAt | deps/cJSON.c:824-951 | Value and end of the literal as specified |
| JsonStringCode.PrintStringPtr | deps/cJSON.c:954-1073 | The escaped string, filling exactly the buffer sized beforehand |
| JsonTree.ReadsBack | deps/cJSON.c:1368-1896 | The text of any value is read back as that value at its depth, whatever follows |
| JsonGrammar.EndIs | deps/cJSON.c:837-855 | The literal ends at the first quote that is not escaped, each backslash escaping the byte behind it |
| JsonGrammar.ValueRead | deps/cJSON.c:1368-1775 | Every text of the grammar, with blanks around every bracket, brace, comma and colon, is read within the nesting limit as the tree it means, whatever follows |
| JsonGrammar.ValueStands | deps/cJSON.c:1368-1775 | What is accepted as a value is such a text: nothing else gets through |
| JsonGrammar.ParseExactly | deps/cJSON.c:1116-1224 | For every text: it is accepted if and only if it is a text of the grammar within the nesting limit, with a byte order mark and blanks allowed in front and, if the end is required, only blanks behind; it is read as what it means |
| JsonLayout.PrintedExactly | deps/cJSON.c:1423-1896 | The text printed for a tree is the one text of the grammar that means it and has its blanks where the layout puts them and each byte written the shortest way |
| JsonLayout.StrippedText | deps/cJSON.c:1595-1896 | Formatted and unformatted text differ in the blanks between tokens and in nothing else |
| JsonTree.RoundTrip | deps/cJSON.c:1131-1144 | Parsing the formatted or unformatted text of a tree within the nesting limit gives the tree back |
| JsonTree.TextDecides | deps/cJSON.c:1423-1494 | Different trees have different texts |
| JsonTree.TextIsCString | deps/cJSON.c:1307-1315 | The text has no zero byte |
| JsonTreeCode.PrintBuffer.PrintValue | deps/cJSON.c:1423-1494 | Succeeds if and only if the nesting limit is kept, and appends the value's text |
| JsonTreeCode.PrintBuffer.PrintArray | deps/cJSON.c:1595-1659 | Elements, separators and brackets |
| JsonTreeCode.PrintBuffer.PrintObject | deps/cJSON.c:1780-1896 | Keys, values, separators, tabs and braces |
| JsonTreeCode.ParseBuffer.SkipWhitespace | deps/cJSON.c:1090-1113 | Skips blanks, but not past the last byte |
| JsonTreeCode.ParseBuffer.ParseValueHere | deps/cJSON.c:1368-1420 | Value and rest as specified, or failure |
| JsonTreeCode.ParseBuffer.ParseItemsHere | deps/cJSON.c:1530-1569 | The loop over elements |
| JsonTreeCode.ParseBuffer.ParseMembersHere | deps/cJSON.c:1693-1755 | The loop over members; blanks are skipped before and behind keys, colons and values, as `JsonGrammar` asks |
| JsonTreeCode.PrintThenParse | deps/cJSON.c:1307-1315 | Every tree within the limit survives printing and parsing; deeper ones are not printed |
| ChildList.ChildrenUnique | deps/cJSON.c:1999-2003 | Links determine the sequence of children |
| ChildList.GetArrayItem | deps/cJSON.c:1922-1939 | The item at an index, or null |
| ChildList.AddItemToArray | deps/cJSON.c:2027-2058 | The item becomes the last child if it was no child and linked to nothing or the list was empty; in every other case the parent has no list any more |
| ChildList.DetachItemViaPointer | deps/cJSON.c:2258-2292 | The item is removed from its list and points nowhere; an item of another list leaves that one in order if and only if it was neither first nor last there, and the parent's own list if and only if it was not the last |
| ChildList.DetachItemFromArray | deps/cJSON.c:2294-2302 | The same by index |
| ChildList.InsertItemInArray | deps/cJSON.c:2334-2366 | Inserted before the index, or appended; an item that is a child already, or the parent itself, leaves no list |
| ChildList.ReplaceItemViaPointer | deps/cJSON.c:2368-2415 | The replacement takes the item's place; another child or the parent itself as the replacement leaves no list, except that the first child in place of the last of three or more becomes the only one; for an item of another list, as when detaching; for an item of no list the parent loses its own |
| ChildList.ReplaceItemInArray | deps/cJSON.c:2417-2425 | The same by index |
| ChildList.EditsUndone | deps/cJSON.c:2258-2415 | Detaching undoes inserting, replacing undoes replacing |
| ChildList.AddApart | deps/cJSON.c:2027-2058 | Appending leaves lists without common nodes unchanged |
| ChildList.InsertApart | deps/cJSON.c:2334-2366 | So does inserting |
| ChildList.DetachApart | deps/cJSON.c:2294-2302 | So does detaching |
| ChildList.ReplaceApart | deps/cJSON.c:2417-2425 | So does replacing |

## Left out

- Weak memory: atomics are sequentially consistent interleaved steps, and sequence and byte counters are unbounded.
- Driver calls of GL and EGL are state updates; binds of contexts succeed, and no context or surface is destroyed while it is in use.
- Every begin is followed by one send; the few error paths of the stubs that return in between are not modelled.
- Results that a stub reads from the arena after a call has given the lock back.
- StubCore.Stub.WaitCompleted: time is not modelled; spinning and sleeping take the given numbers of rounds.
- StubCore.Stub.RingReserveSlot: whether a slot becomes free at all depends on the proxy, which `NoDeadlock` covers; the method stops after the given rounds.
- ProxyLoop.Proxy.Dispatch: a handler is its outcome (result, length, result buffer); its writes into its own payload range are steps of the model but not of this method.
- FboRefines.SkippingIsInvisible: attachments made by layered and multisampled calls are not commands here; the handlers for them only invalidate.
- ShadowRefines.FilterIsInvisible: covers active unit and bound textures; shadows of vertex arrays, framebuffers, samplers and capabilities and the hashed buffer-range cache are not modelled, nor is context index 8, which lies outside the shadow array.
- ShadowExact.CleanExactly: for drivers with at least 32 texture units; OpenGL ES 3.2 guarantees 96.
- Unpack.Size2DExact: sizes are unbounded integers; size_t overflow is not modelled.
- Piggyback.VboPiggybackRange: ranges are stated for mappings that end below 2^32, as the 32-bit proxy's buffers do.
- DrawMessage.GlDrawElements: where index bytes and vertices are copied from is not part of the message; offsets of copies are parameters.
- JsonTree.ParseValue: numbers fail here, as number parsing and printing are left out; so are raw items, hooks and allocation failure.
- JsonTreeCode.PrintBuffer.PrintValue: the output is a growing sequence; the doubling of its memory is not modelled.
- ChildList.ReplaceItemViaPointer: releasing the replaced item's memory; nothing is said of an item outside the parent's list that is replaced by a node of the lists concerned.
- ChildList.DetachItemViaPointer: the last item of another list, detached through a parent without children, makes the code use a null pointer and is excluded.
- The Wayland stub and proxy, shared-memory set-up, process start, logging, configuration files, frame statistics and debug paths.
- The scalar forwarding functions, opcode and handle tables, buffer mapping and the proxy half of fences.
