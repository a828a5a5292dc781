# Verified models of the Epiphany SDK's protocols

These modules model the parts of the Epiphany libraries whose correctness depends on more than one
function at a time: protocols between cores, data structures that keep state over many requests, and fast
paths that must agree with a simple one. `dafny verify dfyconfig.toml` checks everything.

| file | what it models |
|---|---|
| `Barrier.dfy`, `BarrierInit.dfy`, `BarrierProgress.dfy` | the device library's flip-flop barrier: any number of cores and calls, posted stores that arrive late and out of order; the pointer wiring; progress |
| `Mutex.dfy` | the `testset` spin lock, with the unlocking store in flight |
| `CoreId.dfy` | global addresses of cores, and the neighbour ring in wrapping unsigned arithmetic |
| `Memman.dfy`, `HeapLayout.dfy`, `HeapRuns.dfy` | the shared-memory heap: the bytes and the loops over them, what the headers mean, whole runs |
| `ShmTable.dfy`, `ShmRuns.dfy` | the table of named, reference-counted regions, host and device side; table and heap bytes together |
| `RspFraming.dfy`, `RspConnection.dfy` | packet framing of the debug server: escaping, checksums, the resynchronising reader and the writer |
| `Qxfer.dfy` | chunked transfer of object text and its reassembly by a client |
| `Breakpoints.dfy`, `BreakpointServer.dfy` | software breakpoints that the debugger does not see in memory |
| `StopResume.dfy`, `StopWait.dfy`, `StopEffects.dfy`, `StopRuns.dfy`, `StopServer.dfy` | halting, continuing and reporting threads in all-stop and non-stop mode |
| `Bursts.dfy`, `AlignedCopy.dfy`, `Pieces.dfy` | block transfers to the target and copies into device memory, both piece by piece |
| `Arith.dfy` | quotient and remainder facts |

Code that changes objects in place is a class or an array method here, proved equal to a function of the old
state; the theorems are about those functions and about runs of them. The barrier and the mutex run on many
cores at once, so they are step machines: one step is one memory access of one core, or the arrival of one
store. Packet framing and the stop notifications follow "Debugging with GDB", appendix "GDB Remote Serial
Protocol", sections "Overview", "Notification Packets" and "Remote Protocol Support for Non-Stop Mode".

## What the proofs showed about the code

- Heap: a larger free block is handed out without being split and without leaving a header behind it, so the
  next walk can read payload as a header. `HeapRuns.LargerReuseOverlaps` is a run of five calls that ends with
  two clients holding the same bytes. With a single block size the stale headers inside a coalesced block
  make the reuse safe (`HeapRuns.UniformRunsAreSafe`).
- Heap: the tail is taken without looking at `mem_end`; `HeapRuns.BlockInHeap` says exactly when the block then
  lies in the heap, `HeapRuns.BlockSticksOut` shows one that does not. Freeing the last block of a completely
  used heap walks past the end: `HeapLayout.FreeFollows` says exactly when, `HeapRuns.FullHeapCannotFree` shows it.
- Heap: a size is added to its header in `size_t` without a check; where that has 32 bits, a request for 2 to the
  32 less 8 bytes is granted a block without size, at which every later walk stays for ever
  (`HeapRuns.HugeRequestStopsHeap`).
- Breakpoints: the comments of `MpHash::add` promise to keep an existing entry, and those of the insert handler
  that duplicate packets are coped with. The code replaces the entry, so a second insert at an address records the
  BKPT itself and the instruction is lost.
- Breakpoints: a core's local memory can also be reached through its global address, and shared memory through
  another current thread. The table does not know that these are the same place: an insert there records the BKPT
  as an instruction (`Breakpoints.AliasedInsertShowsNothing`), and a write there overwrites the BKPT
  (`Breakpoints.AliasedWriteHitsBreakpoint`). `Breakpoints.InsertTransparent` gives the exact condition for both
  ways an insert can go wrong.
- Breakpoints: writing over a breakpoint at a local address copies the writing core's merged instruction into the
  records of all other cores of the process, even when no byte is written. `Breakpoints.WriteTransparent` gives
  the exact condition for a write, `Breakpoints.WriteInside` spells it out; the part about other cores is no
  restriction in a process of one core, the part about aliases is.
- Breakpoints: an access that starts in local memory and runs past its end goes on in the next core's memory, while
  the scan goes on with global addresses. `Breakpoints.CrossingReadShowsRecord` reads a record from elsewhere,
  `Breakpoints.CrossingWriteStrays` puts a BKPT where none was set.
- Stops: in all-stop mode the wait can end without a packet to the client, in two ways: a system call that the
  server serves on its own terminal, and Ctrl-C when no thread is continued. `StopWait.TurnAnswers` and
  `StopWait.PendingAnswers` say exactly when the client is answered; `StopRuns.OwnCallEndsWait` and
  `StopRuns.CtrlCEndsWait` are sessions in which it is not.
- Stops: in non-stop mode a file-I/O reply can mark running cores as stopped; `StopWait.FileIOReplyInNonStop`
  gives the exact condition. Sessions exclude it, as the server sends file-I/O requests in all-stop mode only.
- Stops: while a file-I/O request is served other stops are not noted, so the reply restarts cores that had
  stopped for a reason of their own. `StopWait.FileIOReplyKeepsStops` says exactly when no stop is lost,
  `StopRuns.FileIOReplyLosesStop` is a session that loses one.
- Stops: the result of a file-I/O request is put into the current thread's registers, and serving the request does
  not make the thread that asked the current one. `StopRuns.ResultGoesToChosen` says whose registers change,
  `StopRuns.ResultGoesToOther` is a session in which they are another thread's.
- qXfer: a request for more bytes than a packet holds is answered by a shortened packet that is still marked as
  the last one. `Qxfer.LastIsCutOff` gives the exact condition for one request, `Qxfer.WholeIfNeverCutOff` for the
  whole exchange.
- Global addresses: those of core 0 look private, so converting one again for another core changes it
  (`CoreId.GlobalAddressIdempotent` gives the exact condition).
- Region table: the reference count is an unsigned 32-bit number and wraps (`ShmTable.AttachKeeps`,
  `ShmTable.AttachWraps`). Attaching adds the table's size to the physical addresses of the descriptor, allocating
  does not, and only the latter are the addresses a core is given (`ShmTable.BuffersAgree`).

## Model

| member | source | states |
|---|---|---|
| Barrier.BarrierSafety | e-lib/src/e_mutex_barrier.c:71-110 | in every state of every run no core has returned from its r-th call before every core has entered its r-th call, and the counts of calls and of returns of any two cores differ by at most one |
| Barrier.ConsumedInItsRound | e-lib/src/e_mutex_barrier.c:87-103 | a poll only lets a byte through that was stored in the very call the polling core is in |
| Barrier.NoSignalLost | e-lib/src/e_mutex_barrier.c:94-100 | whenever a posted store is under way its target byte is clear and no second copy of the store exists, so no signal overwrites another |
| Barrier.StepInv | e-lib/src/e_mutex_barrier.c:81-107 | every step of every core and every arrival keeps the six-phase invariant that ties slots, stores in flight and call counts together |
| BarrierProgress.NotStuck | e-lib/src/e_mutex_barrier.c:81-107 | until all cores have returned from call T some step that is not an idle poll is possible |
| BarrierProgress.StepUsesWork | e-lib/src/e_mutex_barrier.c:81-107 | each such step lowers the work measure over program counters, loop indices and stores in flight by exactly one |
| BarrierProgress.BarrierCompletes | e-lib/src/e_mutex_barrier.c:71-110 | a run of such steps is bounded by the measure, ends exactly when all cores have returned T times, and then leaves the slots zeroed with nothing in flight |
| BarrierInit.BarrierInit | e-lib/src/e_mutex_barrier_init.c:30-54 | core 0's table points at slot 0 of every core in index order, every other core's first entry at its own slot in core 0, and no other entry changes |
| BarrierInit.InitWires | e-lib/src/e_mutex_barrier_init.c:30-54 | tables built by the initialisation are exactly the wiring the barrier proofs start from |
| Mutex.MutualExclusion | e-lib/src/e_mutex_lock.c:32-51 | in every state of every run at most one core owns the mutex, the word is the owner's id, and it is zero exactly when there is no owner |
| Mutex.TryLockResult | e-lib/src/e_mutex_trylock.c:30-42 | the result is zero exactly when the lock was acquired, otherwise it is the owner's id and ownership is unchanged |
| Mutex.LockSucceedsWhenFree | e-lib/src/e_mutex_unlock.c:32-46 | a test acquires the mutex exactly when no core owns it, that is once the unlocking store has arrived |
| Mutex.LockReturnsHolding | e-lib/src/e_mutex_lock.c:40-49 | in every run a core that called lock is still locking until one of its own tests has made it the holder, so lock returns with the mutex only |
| Mutex.TryReturnsAtOnce | e-lib/src/e_mutex_trylock.c:30-42 | trylock tests once: before that test the core is trying, after it the call is over, with the mutex exactly if nobody owned it |
| Mutex.HeldUntilUnlock | e-lib/src/e_mutex_unlock.c:32-46 | the holder keeps the mutex until it calls unlock |
| Mutex.UnlockIsPosted | e-lib/src/e_mutex_unlock.c:32-46 | unlock returns while the word still is the core's id; when its store arrives the word is zero |
| Mutex.HandOver | e-lib/src/e_mutex_unlock.c:32-46 | a concrete run in which tests fail until the unlocking store has arrived |
| CoreId.GlobalAddressIsHome | e-lib/src/e_coreid_get_global_address.c:30-52 | a private pointer is turned into the address of that byte of that core of the group, and the address determines both |
| CoreId.SelfAddressIsHome | e-lib/src/e_coreid_get_global_address.c:41-42 | with E_SELF for either coordinate the address is that byte of the calling core |
| CoreId.GlobalAddressIdempotent | e-lib/src/e_coreid_get_global_address.c:36-50 | converting an address again changes nothing unless it was a private one converted for core 0 and is now converted for another core |
| CoreId.GroupWrapIsRing | e-lib/src/e_coreid_neighbor_id.c:28-69 | with group wrap the neighbour's core number is one more or less modulo rows times columns, under 32-bit wrapping |
| CoreId.NextPrevInverse | e-lib/src/e_coreid_neighbor_id.c:28-69 | next and previous undo each other in all three wrap modes |
| CoreId.RingVisitsAll | e-lib/src/e_coreid_neighbor_id.c:28-69 | iterating group-wrap next meets every core exactly once and then returns to the start |
| CoreId.AndLowMask | e-lib/src/e_coreid_neighbor_id.c:51-66 | masking with a power of two less one is the remainder |
| Memman.MemManager.Init | e-hal/src/epiphany-memman.c:54-68 | a null or empty range is refused and changes nothing, any other is zeroed and taken over |
| Memman.MemManager.Alloc | e-hal/src/epiphany-memman.c:70-112 | the walk over the bytes, for the size with its header added in `size_t`, ends at the first fitting free header or at none, and only the header of that block is written |
| Memman.TakenHeader | e-hal/src/epiphany-memman.c:93-95 | the header written is the flag 1 and the size, each in four bytes, lowest first |
| Memman.MemManager.FreeSpace | e-hal/src/epiphany-memman.c:121-130 | the coalescing walk computes the length of the free run |
| Memman.MemManager.Free | e-hal/src/epiphany-memman.c:135-150 | the block's flag is cleared and its size becomes that of the free run, all other bytes stay |
| HeapLayout.FindIsFirstFit | e-hal/src/epiphany-memman.c:86-104 | the block found is free and large enough, no earlier free one is, headers left inside coalesced blocks included |
| HeapLayout.RunIsMaximal | e-hal/src/epiphany-memman.c:126-130 | coalescing covers free slots only and stops at a live block or at the untouched tail |
| HeapLayout.WalkFollows | e-hal/src/epiphany-memman.c:86-104 | on bytes that carry a layout the alloc walk terminates at the block the layout says |
| HeapLayout.RunFollows | e-hal/src/epiphany-memman.c:126-130 | the coalescing walk terminates inside the heap exactly when its run ends before the end of the heap |
| HeapLayout.AllocFollows | e-hal/src/epiphany-memman.c:70-112 | an allocation goes from the bytes of one valid layout to those of the next exactly if its block ends at a boundary, current or left behind, or the tail has room for it |
| HeapLayout.FreeFollows | e-hal/src/epiphany-memman.c:119-150 | freeing a live block works exactly if its free run does not reach the end of the heap, and then gives the bytes of the coalesced layout |
| HeapRuns.RoomyRunsAreSafe | e-hal/src/epiphany-memman.c:70-150 | blocks of any sizes: while reused blocks fit exactly and the tail keeps room for a header, the headers tile the heap, every alloc walk and every free of a held block ends, live blocks never overlap or leave the heap, new blocks are new, and no held byte is touched |
| HeapRuns.ExactFitRunsAreSafe | e-hal/src/epiphany-memman.c:70-150 | the same when the heap may be filled to its last byte, as long as frees end |
| HeapRuns.UniformRunsAreSafe | e-hal/src/epiphany-memman.c:70-150 | one block size, at most N-1 of N slots live: every alloc walk and every free ends, alloc returns the lowest free slot, live payloads stay disjoint and untouched although free blocks coalesce and are reused in part |
| HeapRuns.BlockInHeap | e-hal/src/epiphany-memman.c:76-99 | the block handed out ends inside the heap exactly if it is a reused one of a size that does not wrap, or the tail has room for it |
| HeapRuns.BlockSticksOut | e-hal/src/epiphany-memman.c:89-99 | a request for 16 bytes on a heap of 16 is granted and ends 8 bytes behind it |
| HeapRuns.HugeRequestStopsHeap | e-hal/src/epiphany-memman.c:76-104 | a request for 2 to the 32 less 8 bytes is granted a block without size, after which no alloc walk ends |
| HeapRuns.FullHeapCannotFree | e-hal/src/epiphany-memman.c:126-130 | on a heap of 16 bytes the one block of 8 cannot be freed: the walk leaves the heap |
| HeapRuns.LargerReuseOverlaps | e-hal/src/epiphany-memman.c:89-104 | a concrete run of calls that all end in which reuse of a larger block makes live blocks overlap |
| ShmTable.EStrCmp | e-lib/src/e_shm.c:53-69 | the device's comparison loop stays inside both buffers, is zero exactly for equal strings, and otherwise has the sign of the first difference |
| ShmTable.StrNCpyKeepsName | e-hal/src/epiphany-shm-manager.c:378 | a name shorter than the field is stored terminated and unchanged |
| ShmTable.Table.LookupRegion | e-hal/src/epiphany-shm-manager.c:344-359 | the host's scan returns the first valid region of the name, or none |
| ShmTable.Table.DeviceLookup | e-lib/src/e_shm.c:82-98 | the device's scan returns the same region as the host's, on every table the host calls can leave |
| ShmTable.Table.AllocRegion | e-hal/src/epiphany-shm-manager.c:367-417 | the first free slot is filled in with name, block, offset, device address and size; without memory only the name and address of a slot that stays invalid change |
| ShmTable.Table.Alloc | e-hal/src/epiphany-shm-manager.c:202-262 | every error case with its code and unchanged counts; on success the name has one reference, the block is its own, the descriptor is filled in from the region, and no other name is affected |
| ShmTable.Table.Attach | e-hal/src/epiphany-shm-manager.c:264-308 | adds one reference, modulo 2 to the 32, to the region found and fills in the descriptor, or fails and changes nothing |
| ShmTable.Table.Release | e-hal/src/epiphany-shm-manager.c:310-336 | takes one reference from the region found and gives back to the heap only a block that it holds |
| ShmTable.AllocKeeps | e-hal/src/epiphany-shm-manager.c:202-262 | distinct names, distinct blocks and positive counts are kept, and the lookup finds the new region with its block and size |
| ShmTable.AttachKeeps | e-hal/src/epiphany-shm-manager.c:286-288 | the table stays sound exactly unless the count of 2 to the 32 less one wraps to zero |
| ShmTable.AttachWraps | e-hal/src/epiphany-shm-manager.c:286-288 | a concrete sound table that one more attachment makes unsound |
| ShmTable.BuffersAgree | e-hal/src/epiphany-shm-manager.c:238-297 | allocating and attaching hosts and an attaching core are given the same memory and size; the physical addresses of host and core agree for an allocating host, and for an attaching one exactly if the table took no room |
| ShmTable.ReleaseKeeps | e-hal/src/epiphany-shm-manager.c:320-328 | the count drops by one, and the block is freed exactly when it reaches zero, being live until then |
| ShmTable.CountsAddUp | e-hal/src/epiphany-shm-manager.c:202-336 | over every run each name's count is the sum of the successful calls for it, and the table stays sound |
| ShmRuns.RegionsNeverShare | e-hal/src/epiphany-shm-manager.c:202-417 | over every run of table calls and writes on the heap's bytes, while fits leave room: regions lie in the heap and share no byte, every alloc and free ends, and no call and no write to another region changes a region's bytes |
| RspFraming.FlipIsXor | e-server/src/RspConnection.cpp:470-480 | the escape's bit flip written with remainders is the exclusive or with 0x20 |
| RspFraming.DigitsAre | e-server/src/Utils.cpp:78-111 | digits are written in lower case and read in either; anything else is told from a digit |
| RspFraming.HexRoundTrip | e-server/src/Utils.cpp:78-111 | a checksum survives being written as two hex digits and read back |
| RspFraming.UnescapeEscape | e-server/src/Utils.cpp:226-251 | unescaping what the writer escaped gives back any byte string |
| RspFraming.EscapedIsPlain | e-server/src/RspConnection.cpp:464-487 | no escaped body contains `#`, `$` or `*`, and it is longer than the data by the number of these and of `}` in it |
| RspFraming.FrameIs | e-server/src/RspConnection.cpp:456-501 | a packet on the wire is 0x24, the escaped data, 0x23 and the sum of the body's bytes modulo 256 in two digits |
| RspFraming.ReaderSound | e-server/src/RspConnection.cpp:295-423 | on any stream a delivered packet lies between `$` and `#`, free of both, matches its checksum and leaves two bytes of the buffer free; each refusal is for a complete frame with a wrong checksum |
| RspFraming.DeliveredIfReached | e-server/src/RspConnection.cpp:295-423 | on any stream a frame with the right checksum is what the call delivers exactly if the reader comes to its `$` and it fits the buffer |
| RspFraming.GoodFrameArrives | e-server/src/RspConnection.cpp:328-368 | whatever the noise, a good frame that fits and whose `$` does not stand in the place of a checksum digit is delivered, or a frame before it is |
| RspFraming.RoundTrip | e-server/src/RspConnection.cpp:442-518 | behind any noise the reader accepts a written frame at the first try exactly if the escaped body leaves two bytes of the buffer free, and the body unescapes to the original bytes |
| RspFraming.HasBreakMeans | e-server/src/RspConnection.cpp:310-326 | a break is recorded exactly if 0x03 occurs before the `$` |
| RspConnection.Connection.GetPkt | e-server/src/RspConnection.cpp:295-423 | the reader's loops deliver what the stream semantics says, send one `-` per refused frame and one `+` for the packet, and remember a break |
| RspConnection.Connection.PutPkt | e-server/src/RspConnection.cpp:442-518 | the frame is sent again for each character that is not `+`, until a `+` or the end of the stream |
| RspConnection.Connection.SendFrame | e-server/src/RspConnection.cpp:456-501 | the bytes sent are the escaped body in its frame with its checksum |
| RspConnection.RspUnescape | e-server/src/Utils.cpp:226-251 | the in-place loop computes the unescaped bytes and their number, and leaves the rest of the buffer alone |
| Qxfer.Server.PackNStr | e-server/src/RspPacket.cpp:133-153 | the packet is the prefix and as much of the text as the buffer has room for |
| Qxfer.Server.TransferObject | e-server/src/GdbServer.cpp:1909-1952 | the text is rebuilt at offset 0 only, and the packet sent is the chunk asked for with the right marker |
| Qxfer.ReplyCarries | e-server/src/GdbServer.cpp:1909-1952 | a reply carries the text from the offset on, as much as was asked for unless packet or text end before, and says it is the last exactly if the request reaches the end |
| Qxfer.Exchange | e-server/src/GdbServer.cpp:1920-1951 | a client that advances by what it receives works on the text built at its first request, whatever the object becomes later |
| Qxfer.LastIsCutOff | e-server/src/GdbServer.cpp:1934-1951 | a packet marked as the last is incomplete exactly if the request asked for all the rest and that was more than a packet holds |
| Qxfer.WholeIfNeverCutOff | e-server/src/GdbServer.cpp:1934-1951 | a finished client has the whole text exactly if none of its requests was such a one |
| Qxfer.ReassemblesObject | e-server/src/GdbServer.cpp:1909-1952 | requests of any lengths from 1 to what a packet holds yield exactly the text, in at most one request more than it has bytes |
| Qxfer.LongRequestLosesEnd | e-server/src/RspPacket.cpp:141-146 | a concrete request that loses the end of the text |
| Breakpoints.InsertTransparent | e-server/src/GdbServer.cpp:3187-3263 | a request keeps BKPT at every recorded address and the memory the debugger sees exactly if for each target core the address is even, carries no record under another address or core, and none of its own but BKPT |
| Breakpoints.AliasedInsertShowsNothing | e-server/src/GdbServer.cpp:3229-3249 | a concrete insert at the global address of a local breakpoint after which no memory without breakpoints fits the table |
| Breakpoints.InsertAllRecords | e-server/src/GdbServer.cpp:3229-3249 | what is recorded for each core is the instruction that core had |
| Breakpoints.SecondInsertLosesInstruction | e-server/src/MpHash.cpp:92-101 | a concrete second insert that loses the instruction |
| Breakpoints.RemoveTransparent | e-server/src/GdbServer.cpp:3102-3173 | a removal never changes the memory the debugger sees and removes exactly the records of the address |
| Breakpoints.ReadTransparent | e-server/src/GdbServer.cpp:1393-1408 | for any start and length a read returns the memory without breakpoints exactly if at each byte the record the scan finds for its address and the one at its location, if any, show the same |
| Breakpoints.ExposedInside | e-server/src/GdbServer.cpp:3317-3334 | for a range inside or outside local memory: exactly if no byte lies on a breakpoint recorded under another key that shows there, half-covered instructions included |
| Breakpoints.CrossingReadShowsRecord | e-server/src/GdbServer.cpp:3324-3332 | a concrete read from local memory into what follows it that shows a record no byte read lies on |
| Breakpoints.WriteTransparent | e-server/src/GdbServer.cpp:3067-3075 | for any start and length a write acts as a plain write on the memory without breakpoints exactly if each recorded byte it reaches becomes the data, each other one stays as recorded, and BKPT is sent to breakpoints only |
| Breakpoints.WriteKeeps | e-server/src/GdbServer.cpp:3345-3385 | after a write every recorded address still holds BKPT, also where it was covered by half, exactly if wherever the data reaches one the scan finds a record for the address or the data is BKPT |
| Breakpoints.WriteInside | e-server/src/GdbServer.cpp:3345-3385 | for a range inside or outside local memory these conditions say: the other cores' records that the scan overwrites are already what they become, and under another address or core of a breakpoint the write puts what is recorded there, or BKPT |
| Breakpoints.CrossingWriteStrays | e-server/src/GdbServer.cpp:3350-3382 | a concrete write from local memory into what follows it that puts BKPT where none was set and changes a record elsewhere |
| Breakpoints.AliasedWriteHitsBreakpoint | e-server/src/GdbServer.cpp:3345-3385 | a concrete write of a lone core through its global address that overwrites its BKPT and is not seen |
| Breakpoints.WriterSeesData | e-server/src/GdbServer.cpp:3067-3075 | the writing core reads back exactly the data exactly if each recorded byte it reaches becomes the data and no BKPT goes elsewhere |
| Breakpoints.RestIsSeen | e-server/src/GdbServer.cpp:3067-3075 | off the range a byte is seen as before exactly if the record there, if any, stays as it was |
| Breakpoints.PeerTakesWritersRecord | e-server/src/GdbServer.cpp:3366-3379 | what another core of the process sees at such an address afterwards |
| Breakpoints.EmptyWriteChangesPeer | e-server/src/GdbServer.cpp:3345-3385 | a concrete write of no bytes that changes what another core sees |
| Breakpoints.OneCoreAgrees | e-server/src/GdbServer.cpp:3366-3379 | in a process of one core the condition on other cores' records always holds |
| Breakpoints.PlainIsUnique | e-server/src/GdbServer.cpp:3345-3385 | memory and table determine the memory without breakpoints |
| Breakpoints.RunsAreTransparent | e-server/src/GdbServer.cpp:3103-3385 | over every run of insert, remove, read and write requests all reads are those of a memory that never had breakpoints, and when none is left the target memory is that memory |
| BreakpointServer.MpHash.Add | e-server/src/MpHash.cpp:92-101 | the entry is set, replacing one that was there |
| BreakpointServer.MpHash.Lookup | e-server/src/MpHash.cpp:116-130 | finds exactly the recorded instruction |
| BreakpointServer.MpHash.Remove | e-server/src/MpHash.cpp:151-168 | returns and erases exactly the entry |
| BreakpointServer.CopyInsn | e-server/src/GdbServer.cpp:3285-3306 | exactly the instruction's bytes inside the buffer are replaced, and the returned record holds what they replaced |
| BreakpointServer.Server.InsertMatchpoint | e-server/src/GdbServer.cpp:3187-3263 | the loop over the cores performs the insertions in order; other matchpoint types change nothing and are answered as unknown |
| BreakpointServer.Server.RemoveMatchpoint | e-server/src/GdbServer.cpp:3102-3173 | the loop over the cores performs the removals; other types change nothing |
| BreakpointServer.Server.HideBreakpoints | e-server/src/GdbServer.cpp:3317-3334 | every byte of the buffer that a record of the core covers, and no other, becomes that of the recorded instruction |
| BreakpointServer.Server.UnhideBreakpoints | e-server/src/GdbServer.cpp:3345-3385 | every covered byte becomes that of BKPT, and each record met takes the new data in all cores it is copied to |
| BreakpointServer.Server.ReadMem | e-server/src/GdbServer.cpp:1376-1420 | the reply is the shown memory, all of it if its hex form fits the packet and otherwise as much as does, or E01 if the target cannot be read |
| BreakpointServer.Server.WriteMemBin | e-server/src/GdbServer.cpp:3031-3081 | the smaller of the announced and the supplied length is written, with table and memory changed accordingly; if the target takes less, E01, the rewritten records and the part taken |
| StopResume.StepIsGood | e-server/src/GdbServer.cpp:2494-2842 | every step keeps stopped threads and threads with a pending stop halted, drops no pending stop undelivered and keeps none that went out; an all-stop stop reply leaves every thread halted and stopped and selects the reported one; no core runs while a file-I/O request is out |
| StopResume.StatusIsGood | e-server/src/GdbServer.cpp:484-519 | `?` at the start of a session halts every thread and establishes the invariant |
| StopResume.DoContinueGood | e-server/src/GdbServer.cpp:2815-2842 | the stop of the thread goes out, as a stop reply or a file-I/O request, and the wait ends |
| StopRuns.SessionsAreSafe | e-server/src/GdbServer.cpp:539-660 | the invariant holds throughout every session of requests, polls and halting cores |
| StopRuns.RunsOnlyIfContinued | e-server/src/GdbServer.cpp:2494-2602 | in a session no core runs unless the client continued its thread and no stop is pending for it |
| StopRuns.NoPendingStopIsOverrun | e-server/src/GdbServer.cpp:2571-2584 | a thread with a pending stop stays halted with that stop until it is delivered |
| StopWait.PendingGoesFirst | e-server/src/GdbServer.cpp:2628-2650 | the first continued pending stop is delivered before any new stop is looked for |
| StopWait.TurnReportsFirstStopped | e-server/src/GdbServer.cpp:2671-2690 | a turn of the wait loop delivers the reason of the first continued thread found halted, or changes nothing and goes on |
| StopWait.TurnAnswers | e-server/src/GdbServer.cpp:2652-2694 | a turn that ends the wait sends the client exactly one packet if and only if, on Ctrl-C, some thread is continued, and otherwise the first stop found is not a call served on the server's terminal |
| StopWait.PendingAnswers | e-server/src/GdbServer.cpp:2628-2650 | the same for a request that meets a stop pending already |
| StopRuns.CtrlCEndsWait | e-server/src/GdbServer.cpp:840-844 | a concrete session in which Ctrl-C ends the wait unanswered |
| StopWait.OwnCallRestartsOne | e-server/src/GdbServer.cpp:1031-1062 | a system call served on the server's terminal restarts its thread alone and ends the wait |
| StopRuns.OwnCallEndsWait | e-server/src/GdbServer.cpp:1031-1062 | a concrete session in which vCont is never answered |
| StopRuns.StopsMadeMeanwhileAreKept | e-server/src/GdbServer.cpp:2747-2788 | in a session a stop that a continued thread has made when another is reported is pending, and the thread halted, until that very stop is delivered |
| StopWait.FileIOReplyKeepsStops | e-server/src/GdbServer.cpp:3528-3544 | a file-I/O reply restarts exactly the continued threads without a pending stop, so it loses no stop made meanwhile exactly if all of these were pending already |
| StopRuns.FileIOReplyLosesStop | e-server/src/GdbServer.cpp:2827-2834 | a concrete session with a breakpoint hit that is never reported |
| StopRuns.ResultGoesToChosen | e-server/src/GdbServer.cpp:866-893 | in an all-stop session the result of a system call is put into the registers of the thread the client selected or was told of last, and of no other, whichever thread made the call |
| StopRuns.ResultGoesToOther | e-server/src/GdbServer.cpp:866-893 | a concrete session in which thread 1 makes the call and thread 0 gets the result |
| StopWait.VContStartsAndHalts | e-server/src/GdbServer.cpp:2547-2589 | the scan starts or halts a thread exactly as its first matching action says, never over a pending stop, and leaves it alone if none matches |
| StopEffects.VContInNonStop | e-server/src/GdbServer.cpp:2547-2596 | in non-stop mode vCont does just that to each thread and is answered OK |
| StopEffects.VContInAllStop | e-server/src/GdbServer.cpp:2547-2602 | in all-stop mode the wait goes on after vCont exactly if no thread that is continued has a stop pending |
| StopEffects.VContThenWaits | e-server/src/GdbServer.cpp:2547-2602 | then nothing is sent, and the cores run on from threads treated as their actions say |
| StopEffects.FileIOReplyRestarts | e-server/src/GdbServer.cpp:568-578 | a file-I/O reply puts result and error into R0 and R3 of the current thread and restarts exactly the continued threads without a pending stop |
| StopEffects.StopGoesOut | e-server/src/GdbServer.cpp:2815-2842 | what a stop makes of every thread and what is sent for it: a system call halts the others and becomes a request or is served, anything else is reported, stops all threads, and leaves the others' stops pending |
| StopEffects.TurnStops | e-server/src/GdbServer.cpp:2671-2690 | a turn without Ctrl-C has this effect, for the first thread found stopped |
| StopEffects.PendingStops | e-server/src/GdbServer.cpp:2628-2650 | so has a request that meets a pending stop |
| StopEffects.CtrlCStops | e-server/src/GdbServer.cpp:810-851 | so has Ctrl-C, with signal 2 for the thread it is attributed to |
| StopEffects.ReportsAlone | e-server/src/GdbServer.cpp:681-802 | a notification and a vStopped reply concern the first stopped thread alone, which counts as stopped then, and change no other |
| StopEffects.StatusReports | e-server/src/GdbServer.cpp:484-519 | `?` halts all; in non-stop mode it reports the first thread and leaves the others to be reported, in all-stop mode it reports and selects the first and stops all |
| StopEffects.VCtrlCHalts | e-server/src/GdbServer.cpp:2608-2621 | vCtrlC halts every core, changes nothing else and is answered OK |
| StopEffects.SelectAnswers | e-server/src/GdbServer.cpp:1310-1339 | selecting a thread changes no thread and is answered OK |
| StopWait.FileIOReplyInNonStop | e-server/src/GdbServer.cpp:568-578 | after a file-I/O reply in non-stop mode stopped threads stay halted exactly if Ctrl-C ends the turn, no stop is found, the one found is a system call, or every core has halted anyway |
| StopWait.NonStopTurn | e-server/src/GdbServer.cpp:2671-2690 | the same for any later turn of that wait |
| StopWait.NonStopReplyStopsRunningThread | e-server/src/GdbServer.cpp:568-578 | a concrete reply after which a running core counts as stopped |
| StopWait.SignalThreadIs | e-server/src/GdbServer.cpp:820-840 | Ctrl-C is attributed to the first continued thread of the last process that has one |
| StopWait.CtrlCReply | e-server/src/GdbServer.cpp:810-851 | Ctrl-C in the wait loop reports INT for that thread and stops all; without a continued thread nothing is sent |
| StopWait.ReportsFirstStopped | e-server/src/GdbServer.cpp:744-802 | notifications and vStopped replies report the first continued and halted thread with its reason, and the sequence ends when there is none |
| StopRuns.OneNotificationAtATime | e-server/src/GdbServer.cpp:681-705 | between any two Stop notifications a vStopped sequence ended with OK |
| StopRuns.NothingLeftUnreported | e-server/src/GdbServer.cpp:681-705 | in a session, right after the server has looked for notifications or answered a vStopped of a sequence, no continued thread is halted and unreported unless a sequence is outstanding |
| StopRuns.EachStopReportedOnce | e-server/src/GdbServer.cpp:744-802 | in non-stop mode the reports of a thread number its continues, plus the one for `?`, less one while it is still to be reported |
| StopRuns.CtrlCReportsAll | e-server/src/GdbServer.cpp:2608-2621 | after vCtrlC each thread that was continued is reported exactly once by the time one vStopped more than there were continued threads has been answered |
| StopRuns.DrainEnds | e-server/src/GdbServer.cpp:778-802 | without new continues one vStopped more than there are continued threads gets the final OK |
| StopRuns.NonStopSession | e-server/src/GdbServer.cpp:681-802 | a concrete session in non-stop mode, from `?` over a breakpoint hit to the end of its sequence, with every packet sent |
| StopServer.CoreThread.Halt | e-server/src/Thread.cpp:220-258 | the core is halted and nothing else changes |
| StopServer.CoreThread.Resume | e-server/src/Thread.cpp:269-288 | the core runs and nothing else changes |
| StopServer.GdbServer.HaltAllThreads | e-server/src/GdbServer.cpp:3482-3519 | every thread of every attached process is halted |
| StopServer.GdbServer.ResumeAllThreads | e-server/src/GdbServer.cpp:3527-3569 | exactly the continued threads without a pending stop are resumed |
| StopServer.GdbServer.MarkPendingStops | e-server/src/GdbServer.cpp:2747-2788 | every other continued thread without a pending stop gets its reason as pending, the reported one none; the handler's assertions hold |
| StopServer.GdbServer.ReportException | e-server/src/GdbServer.cpp:713-735 | performs the report step, halting and marking in all-stop mode only |
| StopServer.GdbServer.ContinueStopped | e-server/src/GdbServer.cpp:2815-2842 | performs the step for a thread found stopped |
| StopServer.GdbServer.RedirectStdioOnTrap | e-server/src/GdbServer.cpp:936-1062 | a system call becomes a file-I/O request, or is served on the server's terminal and the core resumed |
| StopServer.GdbServer.FindSignalThread | e-server/src/GdbServer.cpp:820-840 | the scan computes the choice function for Ctrl-C |
| StopServer.GdbServer.RspSuspend | e-server/src/GdbServer.cpp:810-851 | performs the Ctrl-C step |
| StopServer.GdbServer.WaitAllThreads | e-server/src/GdbServer.cpp:2627-2695 | delivers a pending stop or performs the turns of the wait loop in order; no assertion of the handlers it calls can fail |
| StopServer.GdbServer.RspVCont | e-server/src/GdbServer.cpp:2493-2602 | performs the vCont step and the wait that follows it |
| StopServer.GdbServer.FindStoppedThread | e-server/src/GdbServer.cpp:744-772 | finds the first continued and halted thread and notes its reason; its assertions hold in non-stop mode |
| StopServer.GdbServer.RspVStopped | e-server/src/GdbServer.cpp:778-802 | performs the vStopped step |
| StopServer.GdbServer.RspClientNotifications | e-server/src/GdbServer.cpp:681-705 | performs the notification step |
| StopServer.GdbServer.RspVCtrlC | e-server/src/GdbServer.cpp:2608-2621 | halts every thread and answers OK |
| StopServer.GdbServer.RspSetThread | e-server/src/GdbServer.cpp:1310-1339 | performs the selection of a thread |
| StopServer.GdbServer.TakeAnswer | e-server/src/GdbServer.cpp:866-898 | R0 of the current thread becomes the result and R3 the error, as far as the reply has them |
| StopServer.GdbServer.RspFileIOReply | e-server/src/GdbServer.cpp:568-578 | performs the file-I/O reply step, result included, and the wait that follows it |
| StopServer.GdbServer.RspStatus | e-server/src/GdbServer.cpp:484-519 | performs the first step of a session |
| Bursts.ConvertAgain | e-server/src/TargetControlHardware.cpp:863-893 | converting a converted address, or a later byte of the range, again changes nothing |
| Bursts.ConvertIsHome | e-server/src/TargetControlHardware.cpp:863-893 | a local address names that byte of the core's own 1 MB, any other itself |
| Bursts.LocalRangesApart | e-server/src/TargetControlHardware.cpp:863-893 | local ranges of different cores never meet |
| Bursts.Target.WriteBurst | e-server/src/TargetControlHardware.cpp:320-491 | success writes the whole range, failure exactly the part before the failing transfer, a local range nothing but its core's memory; the transfers go up through the range once: an aligned word as such, otherwise whole aligned double words in bursts of 2048 bytes and one shorter one, and only the rest in bytes |
| Bursts.Target.ReadBurst | e-server/src/TargetControlHardware.cpp:244-310 | success fills the buffer with exactly the range, failure a prefix of it; from a word boundary in bursts of 256 bytes and a shorter last one, otherwise in bytes |
| AlignedCopy.Memory.AlignedMemcpy | e-hal/src/epiphany-hal.c:512-584 | for all alignments and sizes the destination becomes the source and no other byte changes; each byte is copied once, front to back, by the widest aligned access: all whole words in one bulk copy, a half word only where no word fits, a byte only where no half word does |

## Left out

- Sockets, `mmap`, files, environment, command line and diagnostics: plumbing around the logic modelled here.
- Text of requests: numbers and lists arrive parsed, so the E01 replies to unparsable packets are not modelled.
- BreakpointServer.Server.ReadMem: the reply holds the bytes; their hex digits are those of `RspFraming`.
- BreakpointServer.Server.HideBreakpoints: addresses do not wrap; the scan would not end for a range that ends at the last address.
- Breakpoints.RunsAreTransparent: one process with a fixed set of cores, and requests that meet the exact conditions of insert, read and write; the alignment, alias and peer cases outside them are shown to fail, not carried on.
- Memman.MemManager.Alloc: `size_t` has 32 bits, as on the board's ARM host; where it has 64, only the stored size wraps.
- HeapRuns.RoomyRunsAreSafe: heaps smaller than one header are left out, which `memman_init` does not refuse; the condition is sufficient and not necessary, because reuse in part can be harmless by the luck of what the stale bytes hold.
- StopRuns.SessionsAreSafe: the mode is chosen before `?`; a second `?`, attach, detach and resets are not part of a session, nor are vStopped in all-stop mode and file-I/O replies in non-stop mode, which no client following the protocol sends; register writes to a core succeed.
- ShmRuns.RegionsNeverShare: the same condition on fits; and as in `ShmTable.AttachKeeps` no counter is at its limit when a host attaches.
- StopRuns.NoPendingStopIsOverrun: a stop that was never marked as pending is not covered, as the file-I/O case shows.
- StopServer.GdbServer.FindStopReason: the reason is an input; reading it off the program counter and the instruction before it is not modelled, nor is the step back over a BKPT.
- StopServer.GdbServer.RedirectStdioOnTrap: the text of the request and the registers it is built from are not modelled.
- Qxfer.Server.TransferObject: the objects' text is an input without NUL characters.
- ShmTable.EStrCmp: characters compare as unsigned bytes; where the device's `char` is signed the sign differs for bytes above 127.
- ShmTable.Table.Alloc: the heap is represented by its contract, which `ShmRuns` puts the bytes in place of; each call is one step under the table lock, and names shorter than 256 characters are assumed.
- Bursts.Target.WriteTo: a transfer that fails writes nothing.
- AlignedCopy.Memory.AlignedMemcpy: the exclusive-or tests on addresses are written as equal remainders.
- Mutex.MutualExclusion: core ids are distinct and not zero, and only the owner unlocks.
- Soft reset, DMA, timers and interrupts: their correctness rests on hardware behaviour.
- Register address tables, opcode fields, ELF and HDF loading, osdata and monitor text: shallow.
- Trace ring buffers: producer and consumer compute the end of the buffer in different units, so there is no first-in first-out property to prove.
