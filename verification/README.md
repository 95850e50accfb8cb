# Verified model of the XDMA driver and the camera client

This project models the parts of the repository that move data and keep order, and proves what they promise:

- the scatter-gather DMA path, from a user buffer to the device and back (`xdma/cdev_sgdma.c`, `xdma/libxdma.c`);
- the engine's transfer queue under submitters, the service work, timeouts, offline and online (`xdma/libxdma.c`);
- the cyclic receive ring with credits, and the copy of a received packet to its reader (`xdma/libxdma.c`);
- the JTAG shift loop (`xdma/cdev_xvc.c`);
- the camera frame memory and the interrupt copies (`src/xdma_camera_drv.hpp`).

`dafny verify dfyconfig.toml` checks everything.

## How it is organised

| file | what it holds |
|---|---|
| `Words.dfy` | 32- and 64-bit wrap-around, the address split, bitwise and |
| `Descriptor.dfy` | the 32-byte descriptor; each edit of its control word is the driver's mask-and-merge on the 32 bits |
| `Segments.dfy` | scatter lists as the bus addresses of their bytes; `xdma_init_request` |
| `Compiler.dfy` | `transfer_desc_init`, `transfer_build`, `transfer_init` on the descriptor array |
| `Hardware.dfy` | what the engine does with the array: the linked walk, block prefetch, execution in both address modes |
| `Memcpy.dfy` | a compiled batch means a copy, to device memory or through one device address |
| `UserBuffer.dfy` | page tiling of a user buffer, pinning errors, the alignment check |
| `Submit.dfy` | `xdma_xfer_submit` for one request: batches, outcomes, unmapping, the lock |
| `ReadWrite.dfy` | `char_sgdma_read_write`: the whole path of one call |
| `CyclicChain.dfy` | the 256-descriptor ring and `engine_cyclic_stop` |
| `Service.dfy` | the engine's queue: start, queue, abort, service |
| `Accounting.dfy` | what one service call means for the queue |
| `Protocol.dfy` | all runs of one engine, and the ownership invariant |
| `Soundness.dfy` | when success is real, in all runs and in calm ones |
| `Registers.dfy` | what every run keeps of the RUN bit, the first fetch, and an engine taken offline |
| `StaleRuns.dfy` | runs in which success is not real, and what ends the condition behind them |
| `Transfers.dfy` | the runs with their data: the descriptor array and the memory the engine writes |
| `Delivery.dfy` | what requests have moved in those runs: when success is memcpy, with all interleavings |
| `RxRing.dfy` | `engine_ring_process` and the locked region of `complete_cyclic` |
| `RxFlow.dfy` | all runs of the ring in credit mode: flow control, order, intact pages |
| `CopyOut.dfy` | `copy_cyclic_to_user`, and what the bytes it copies mean |
| `Xvc.dfy` | `xvc_shift_bits` and `xvc_ioctl` over an arbitrary TAP |
| `Camera.dfy` | `init_device` and the mipi interrupt handlers |

`struct xdma_engine` appears as three classes, one for each group of fields that is used together:
`Compiler.Engine` (descriptor array and `desc_lock`), `Service.Engine` (what `engine->lock` protects for ordinary
transfers) and `RxRing.Engine` (the receive ring). Each method that updates state is proved equal to a function of the old
state, or to a direct statement of the new one; the lemmas are about those functions and the runs made of them.

## What is assumed

- `pci_map_sg` keeps page offsets and merges nothing, and the pages of one user buffer have distinct bus pages
  (`Memory.Valid`, `Memory.Injective`); the second is needed only for reads from the device (`ReadsPossible` gives a memory
  that meets it for any buffer). The mapping is the one described at README.md:218-230 of the repository.
- `desc_blen_max` is at least 1 (module start-up clamps it only from above, xdma/xdma_mod.c:320-321), and at least 4096 for the
  cyclic setup; `OnePiecePerPage` shows that this second bound is exact.
- A request's length fits 32 bits, and its device range stays on the 64-bit bus. The descriptor array is page aligned.
- In non-incremental mode each device address is a port: bytes pass it in order, and position k of it is the k-th byte that
  does (`Hardware.Port`, `Hardware.ExecIo`).
- The hardware executes a chain in the order it fetches it, and retires descriptors one by one. Each engine start resets
  its completed count and drops what it still had of an earlier run (`Protocol.Boot`). Once a waiter has given up on the
  batch the hardware is on, and the array may be rewritten under it, it may execute anything (`Transfers.Enabled`).
- In `Submit.dfy` and `ReadWrite.dfy` one request runs alone: no other submitter's batch comes between its batches. A batch
  ends for its waiter in one of four ways (`Outcome`), COMPLETED with any number of descriptors missing; what is said
  of memory there supposes that none is missing (`Env.Honest`). `Delivery.dfy` is without either restriction: all
  interleavings, and the outcome is what the queue and the hardware make of it. Memory, mapping and pinning failures are parameters.
- In credit mode the hardware fills one page per credit, then reports a result with a non-zero status. One reader at a time
  uses a receive engine: the character device opens it exclusively (xdma/cdev_sgdma.c:502-507).

## Where the code differs from what it says or seems to promise

- Success of `xdma_xfer_submit` is not sound over all runs. The timeout arm stops the hardware but leaves `running` set, so
  the next batch can be queued without being started, and a later service judges it by the count of the earlier run
  (`ServiceJudges`). In every run the hardware executed all of a request that returns success if and only if none of its
  batches was queued on an engine already marked running (`SuccessIsSoundIff`), and then the request's bytes have been moved
  (`SuccessIsMoved`, `SuccessIsMemcpy`). `CalmRunInv` proves that runs without timeout and offline, serviced only when BUSY is
  clear, have no such batches; `TimeoutFalseSuccess` is a run where a request succeeds with nothing executed;
  `StaleFalseSuccess` gives one from every engine left in that condition; `ServiceRecovers` and `OnlineStartsAfresh` say
  what ends it.
- `desc_count -= desc_dequeued` is a 32-bit subtraction. If a service finds the engine BUSY with a smaller count than it has
  already dequeued, it wraps, and everything queued is marked COMPLETED exactly when the gap and the queued descriptors
  together fit 32 bits (`WrappedCountCompletesAll`). A service while BUSY leaves the engine so (`BusyServiceLeavesStale`),
  and `WrapFalseSuccess` is a run where a request succeeds that way.
- The slots `xdma_init_request` counts for one segment hold its pieces exactly when the 32-bit sum `len + desc_blen_max - 1`
  does not wrap (`SlotsEnoughIff`). For a table of non-empty segments of less than 4 GB together, the BUG_ON on the number
  of pieces stays silent exactly when no segment's sum wraps (`TableEnoughIff`). Page-sized entries never reach that point.
- `copy_cyclic_to_user` moves to the next page after every copy. The bytes are the received data for all page contents
  exactly when every result but the last fills its page (`CopyRightIff`). It returns the packet length even when the user buffer was too small.
- A haul of results that ends in a faulty one, and a failed copy to the user, lose their credits for good (`StepLoses`).
- `transfer_abort` marks a transfer ABORTED wherever it is in the queue but takes it off only from the head
  (`AbortedLeavesFromHead`); `QueueOfHolder` says why this does no harm in any run.
- A mipi interrupt copies of all four cameras the buffer that the first one finished. Another camera's frame is being written
  meanwhile exactly when it is one buffer behind the first (`CopyTearsIff`).
- In `xvc_ioctl`, `total_bytes` wraps for bit counts above 2^32 - 8, and the loop counter for bit counts above 2^32 - 32
  (`CopiesFitIff`, `CounterReachesIff`).
- The comment at xdma/cdev_sgdma.c:113-117 says that `char_sgdma_map_user_buf_to_sgl` returns the number of entries used; it returns 0.

## Model

| member | source | states |
|---|---|---|
| Words.SplitJoin | xdma/libxdma.h:168-170 | the two halves written to a descriptor are read back as the same 64-bit bus address |
| Words.AndMask | xdma/cdev_sgdma.c:100-101 | masking with a power of two minus one, as the alignment check does, is the remainder |
| Descriptor.EncodeFields | xdma/libxdma.h:120-125 | adjacent count, flag byte and STOPPED bit are found where the hardware looks for them in the control word |
| Descriptor.EncodeLinked | xdma/libxdma.c:2191-2220 | linking a descriptor is the driver's mask-and-merge of the control word: flags and reserved bits stay, the magic is set, the adjacent count is zero |
| Descriptor.EncodeFlagged | xdma/libxdma.c:2251-2275 | setting and clearing control flags touch the low byte only |
| Descriptor.EncodeAdjusted | xdma/libxdma.c:2223-2248 | the adjacency pass keeps flags and reserved bits and merges the clamped count into bits 8 to 11 |
| Segments.CutAllKeepsBytes | xdma/libxdma.c:2934-2951 | splitting at the length limit keeps the bus address of every byte, in order; every piece is non-empty and within the limit |
| Segments.CutKeepsBytes | xdma/libxdma.c:2939-2950 | the pieces of one segment are contiguous and cover it exactly |
| Segments.CutSized | xdma/libxdma.c:2939-2950 | each piece of one segment has length 1 to the limit |
| Segments.CutCount | xdma/libxdma.c:2939-2950 | a segment is cut into ceiling(len / limit) pieces |
| Segments.SlotsEnoughIff | xdma/libxdma.c:2917-2952 | the slots reserved for a segment hold its pieces if and only if the 32-bit sizing sum does not wrap; one more than the pieces for a segment over the limit, a single one where the sum wraps |
| Segments.TableEnoughIff | xdma/libxdma.c:2917-2957 | for a table of non-empty segments of less than 4 GB together, the pieces fit the slots counted, so that the BUG_ON on their number stays silent, if and only if no sizing sum wraps |
| Segments.CutFits | xdma/libxdma.c:2934-2952 | if the slots hold the pieces of all segments, room is left for each segment after those before it |
| Segments.CutInto | xdma/libxdma.c:2939-2950 | the inner loop terminates and appends exactly the segment's pieces to the table |
| Segments.CountSlots | xdma/libxdma.c:2917-2926 | the sizing loop computes the slots reserved for all segments |
| Segments.InitRequest | xdma/libxdma.c:2908-2959 | where the BUG_ON stays silent: the request holds the pieces of all segments in order and the 32-bit total length; it fails only without memory |
| Compiler.TransferDescInit | xdma/libxdma.c:2136-2181 | the first descriptors of the array are linked in bus order, the last one ends the list, with the initial adjacent counts |
| Compiler.TransferBuild | xdma/libxdma.c:2778-2802 | each descriptor gets its piece and the running end-point address, in the engine's direction; index, address and length move on by the batch; in non-incremental mode every descriptor has the same device address and the request keeps it |
| Compiler.CompiledStays | xdma/libxdma.c:2796-2799 | in non-incremental mode every descriptor of the batch has the request's device address as its device side, and the request leaves with that address |
| Compiler.CompiledControl | xdma/libxdma.c:2816-2845 | the control word of each compiled descriptor: magic 0xAD4B, the adjacent count in bits 8 to 11, and STOPPED, COMPLETED and EOP (0x13) on the last one only |
| Compiler.SetAdjacents | xdma/libxdma.c:2843-2845 | every descriptor of the batch gets the clamped adjacent count |
| Compiler.TransferInit | xdma/libxdma.c:2804-2848 | the array holds the compiled chain of the request's next batch of at most 2048 pieces, and the request stands behind it; in non-incremental mode with its device address unmoved |
| Hardware.PrefetchRefinesWalk | xdma/libxdma.c:625-634 | fetching in blocks of 1 + adjacent count, the first of any size the chain has up to 16, visits what the linked walk visits, descriptors 0 to n-1 once each in order; it never reads past n-1 and no block crosses a 4 KB page |
| Hardware.NextBlockFits | xdma/libxdma.c:2223-2248 | the clamped adjacent count keeps the next block inside the chain and inside its page, and is the largest up to 15 that does |
| Hardware.WalkFrom | xdma/libxdma.c:2143-2180 | following the links from descriptor i of a chain visits i to n-1 and stops |
| Hardware.FetchFrom | xdma/libxdma.c:2840-2845 | block fetches from any descriptor of a chain cover the rest of it in order, inside pages |
| Hardware.CompiledIsChain | xdma/libxdma.c:2804-2848 | what transfer_init leaves in the array is one chain ended by a stop |
| Memcpy.ChainMoves | xdma/libxdma.c:2778-2845 | executing the first n descriptors of a compiled chain moves exactly the bytes of the first n pieces, to or from consecutive device addresses or, in non-incremental mode, in order through the one port at the request's address, and changes nothing else |
| Memcpy.ExecDone | xdma/libxdma.c:2300-2320 | one filled descriptor does so with its piece, in either mode and direction |
| Memcpy.DoneAppend | xdma/libxdma.c:3036-3142 | such moves compose: the second goes on where the first left device address or port |
| Memcpy.ExecMoves | xdma/libxdma.c:2300-2320 | one filled descriptor moves the bytes of its piece in the engine's direction |
| Memcpy.MovedAppend | xdma/libxdma.c:3036-3142 | moves at consecutive positions compose, for reads if the host bytes are distinct |
| Memcpy.EpExact | xdma/libxdma.c:2796-2799 | the running end-point address is the start plus the bytes before |
| UserBuffer.PagesNrWraps | xdma/cdev_sgdma.c:162-164 | the page count is exact even where its 64-bit sum wraps |
| UserBuffer.MapUserBuf | xdma/cdev_sgdma.c:156-232 | the return value on every path; on success entry i is the part of the buffer in its page i and nothing is left over, so the BUG_ON is unreachable |
| UserBuffer.FillEntries | xdma/cdev_sgdma.c:211-224 | the filling loop makes entry i the part of the buffer in its page i and leaves nothing over |
| UserBuffer.PagesTouched | xdma/cdev_sgdma.c:162-218 | the page count is the number of pages touched; every entry is non-empty and inside one page |
| UserBuffer.UserBytes | xdma/cdev_sgdma.c:211-222 | the mapped entries address exactly the bytes of the user buffer, in order |
| UserBuffer.AlignAccepts | xdma/cdev_sgdma.c:98-107 | for a power-of-two alignment up to a page, the check accepts exactly when buffer and position agree modulo the alignment |
| UserBuffer.AlignAcceptsFifo | xdma/cdev_sgdma.c:72-97 | in non-incremental mode, for powers of two, it accepts exactly when the buffer and, for synchronous I/O, the position are aligned and the length is a multiple of the granularity |
| Submit.TransferDestroy | xdma/libxdma.c:2762-2776 | clears the descriptors; unmaps the table if and only if this is the last batch, an unmap is due and it is still mapped |
| Submit.Machine.Run | xdma/libxdma.c:625-634 | the hardware executes exactly the first `limit` descriptors of a chain, in order, whatever first block size inside the chain it was started with |
| Submit.BuildTransfer | xdma/libxdma.c:3044-3059 | a batch is compiled into a chain, in the engine's address mode, and marked last exactly when nothing is left of the request |
| Submit.RunTransfer | xdma/libxdma.c:3069-3135 | the return value by outcome; in either address mode the bytes moved are those of exactly the descriptors the outcome says were executed, whatever it is |
| Submit.SubmitBatch | xdma/libxdma.c:3036-3142 | one iteration: return value by outcome, the bytes moved are those of the descriptors executed, the array is cleared after a batch that was queued, the mapping is dropped at most once, the array is touched only under the lock and the lock is free again |
| Submit.BatchExtends | xdma/libxdma.c:3036-3142 | a batch extends the bytes moved by the batches before it |
| Submit.SubmitNext | xdma/libxdma.c:3036-3142 | the same, seen from the whole request: only its own device memory or port is touched, and if a COMPLETED batch misses no descriptor, a prefix of all its bytes has moved |
| Submit.VerdictsMean | xdma/libxdma.c:3069-3138 | the first batch of 2048 pieces that does not complete decides: -16 if it was refused, -5 if it failed, -512 if the wait for it ended; with none the request succeeds |
| Submit.SubmitAll | xdma/libxdma.c:3034-3142 | the loop over all batches: the first verdict that is not success, or success with the full length; nothing is unmapped twice; in non-incremental mode the device address is the same for every batch; if no COMPLETED batch misses a descriptor, a prefix of the bytes has moved, all of them on success |
| Submit.XferSubmit | xdma/libxdma.c:2994-3156 | the exact return value of every path; a mapping made here is dropped exactly once and a caller's never, desc_lock is free; if no COMPLETED batch misses a descriptor, a prefix of the bytes has moved, all of them on success |
| ReadWrite.MapSgl | xdma/libxdma.c:3015-3020 | the segments mapped for the page entries address exactly the user bytes |
| ReadWrite.UserDistinct | xdma/cdev_sgdma.c:211-222 | if the buffer's pages have distinct bus pages, its bytes have distinct bus addresses |
| ReadWrite.ReadsPossible | xdma/cdev_sgdma.c:209-222 | for any buffer there is a memory and a list of pinned pages that meet what a read asks for |
| ReadWrite.SubmitMapped | xdma/cdev_sgdma.c:262-275 | the mapped pages through xdma_xfer_submit: its error codes, and the copy as below |
| ReadWrite.CharSgdmaReadWrite | xdma/cdev_sgdma.c:234-283 | one call end to end: the exact error code of every failing check, pinning, mapping and allocation, in their order; else the length unless a batch is in trouble; if no COMPLETED batch misses a descriptor, success is memcpy between the user buffer and the device range, or in non-incremental mode the next bytes of the port there, with nothing else changed, and on failure some first part was copied |
| ReadWrite.AlignmentExact | xdma/cdev_sgdma.c:98-107 | the entry check accepts exactly when source and destination of every generated piece agree modulo the alignment |
| ReadWrite.DescriptorEnds | xdma/libxdma.c:2786-2799 | source and destination the hardware reads from descriptor i of the batch at piece b are those of piece b + i |
| ReadWrite.DescriptorsAligned | xdma/cdev_sgdma.c:98-107 | once the check has accepted, source and destination of every descriptor of every batch agree modulo the alignment |
| CyclicChain.OnePiecePerPage | xdma/libxdma.c:4248-4253 | the cyclic request has one descriptor per ring page if and only if the length limit is at least a page |
| CyclicChain.MakeRing | xdma/libxdma.c:4263-4282 | the compiled chain of 256 pages becomes the ring: descriptor i writes page i, reports to result slot i, links to i + 1 around, and never stops |
| CyclicChain.CyclicSetup | xdma/libxdma.c:4214-4282 | setup fails if the engine is taken or memory runs out; otherwise the array is the ring |
| CyclicChain.RingHops | xdma/libxdma.c:3887-3894 | k steps from descriptor i reach descriptor (i + k) mod 256 |
| CyclicChain.RingRunsOn | xdma/libxdma.c:4274-4282 | any number of steps along the running ring finds a descriptor of the ring that does not stop, and no walk along it ends |
| CyclicChain.CyclicStop | xdma/libxdma.c:2515-2550 | a stop on the last descriptor if the queue's head is cyclic, no descriptor changed otherwise |
| CyclicChain.StoppedRingHalts | xdma/libxdma.c:2515-2543 | after the stop, a walk from any position halts at the last descriptor within one lap, and block fetches do too |
| Service.Engine.Start | xdma/libxdma.c:587-648 | engine_start: running, nothing dequeued, shutdown cleared, RUN set, hardware on the queue's head, first_desc_adjacent such that the first fetch has as many descriptors as the head, up to 16; its BUG_ONs are the precondition |
| Service.Engine.Queue | xdma/libxdma.c:2377-2407 | the locked region of transfer_queue: refused under a shutdown request, else SUBMITTED at the tail and the engine started if it was idle |
| Service.Engine.Abort | xdma/libxdma.c:2325-2346 | the timeout arm: taken off the queue only as its head, ABORTED if it was SUBMITTED, RUN cleared, running unchanged |
| Service.Engine.Offline | xdma/libxdma.c:3704-3716 | shutdown requested, RUN cleared, not running, the queue left as it is |
| Service.Engine.Online | xdma/libxdma.c:3757-3766 | the request is withdrawn, nothing else changes |
| Service.Engine.ServiceTransferList | xdma/libxdma.c:686-731 | removes and completes head transfers while the count exceeds them |
| Service.Engine.ServiceFinalTransfer | xdma/libxdma.c:761-825 | FAILED on an error bit or a short count, else COMPLETED; removed and added to the dequeued descriptors either way |
| Service.Engine.ServiceResume | xdma/libxdma.c:1018-1049 | a stopped engine restarts on a non-empty queue, else turns idle if asked to shut down |
| Service.Engine.Observe | xdma/libxdma.c:1078-1123 | the first half of the service routine: it reads the status without a write-back count or with its error flag, shuts the engine down, clearing RUN, if BUSY is clear or a count came, and leaves the 32-bit count not yet accounted for |
| Service.Engine.EngineService | xdma/libxdma.c:1059-1144 | the whole service routine, with status reads, shutdown, 32-bit count arithmetic and restart; after a shutdown RUN is set if and only if the engine runs again |
| Accounting.ReachIsShortest | xdma/libxdma.c:703-704 | the prefix used below is the shortest one whose descriptors reach the count |
| Accounting.CompletionAccounting | xdma/libxdma.c:686-825 | exactly that prefix leaves the queue, the earlier ones COMPLETED, the last one COMPLETED if and only if the count covers it and no error bit takes it away |
| Accounting.ServiceAccounts | xdma/libxdma.c:1059-1144 | the same for engine_service, from the interrupt or with a write-back word, with the 32-bit difference of the count it reads and the dequeued descriptors |
| Accounting.ServiceRegisters | xdma/libxdma.c:658-663 | what a service leaves in the registers: having shut the engine down, RUN is set exactly if it was restarted, on the new head; else RUN is cleared exactly by an error bit that hits a queued transfer |
| Accounting.CyclicNotPassed | xdma/libxdma.c:703-704 | of the transfers that leave the queue in one call only the last can be cyclic |
| Accounting.QueuedLeavesLast | xdma/libxdma.c:2392-2396 | first in, first out: a transfer just queued behind others stays, SUBMITTED, until the count goes beyond those before it |
| Accounting.CyclicHeadJudged | xdma/libxdma.c:761-825 | a cyclic transfer at the head is judged by the whole count and leaves alone |
| Accounting.AbortedLeavesFromHead | xdma/libxdma.c:2325-2346 | a transfer given up on leaves the queue only from its head, though it is marked ABORTED anywhere; all others stay as they were, in order |
| Accounting.NeverTooMany | xdma/libxdma.c:802-808 | the WARN_ON of the final transfer never fires |
| Accounting.NothingStranded | xdma/libxdma.c:1092-1141 | a service that shuts the engine down leaves it stopped with RUN clear and an empty queue, idle if that was asked for, or restarted on the new head with nothing dequeued |
| Accounting.ServiceKeepsIdleEmpty | xdma/libxdma.c:1018-1049 | whatever the status, a service keeps "not running implies nothing queued" |
| Accounting.AllCompletedIff | xdma/libxdma.c:686-825 | a service completes everything queued if and only if the outstanding count covers the descriptors of all of it, with an error bit more than covers |
| Accounting.WrappedCountCompletesAll | xdma/libxdma.c:1123-1123 | serviced with a count behind what was dequeued, every queued transfer is marked COMPLETED if and only if the gap and the queue's descriptors together fit 32 bits |
| Protocol.StepKeepsInv | xdma/libxdma.c:2961-3156 | every step of submitters, service, hardware, offline and online keeps the ownership invariant, and is only taken where the BUG_ONs of engine_start and transfer_abort hold |
| Protocol.RunInv | xdma/libxdma.c:3036-3142 | in every run at most one transfer is queued, it is the lock holder's, and a transfer is SUBMITTED exactly while it is queued |
| Protocol.QueueOfHolder | xdma/libxdma.c:2325-2346 | a submitter that is not waiting finds its transfer off the queue, so clearing or freeing it is safe |
| Protocol.EnqueueOutcome | xdma/libxdma.c:2392-2407 | queueing finds an empty queue; an idle engine is started on this batch, a running one is left alone |
| Protocol.TimeoutOutcome | xdma/libxdma.c:3118-3134 | giving up on the queued transfer takes it off the queue as ABORTED and clears RUN, and leaves running as it was |
| Protocol.ServiceOutcome | xdma/libxdma.c:1059-1144 | a service empties the queue of a running engine and judges its one transfer by the wrapped count |
| Soundness.StepKeepsSound | xdma/libxdma.c:2961-3156 | every step keeps, batch by batch: one started by its own queueing is what the hardware runs and is COMPLETED only if it retired all of it; of one that was not, the hardware retires nothing; and the descriptors retired for a request equal those in its COMPLETED batches, or fall short of them once one of those was not started |
| Soundness.CompletedIsRetired | xdma/libxdma.c:686-825 | in every run, whatever happened to earlier batches of the request, a waiting batch queued on an idle engine is COMPLETED only if the hardware retired all its descriptors, and of one queued on a running engine it retired none |
| Soundness.ServiceJudges | xdma/libxdma.c:1059-1144 | in every run, a service marks the waiting batch COMPLETED if and only if the engine is marked running and the outstanding count covers the batch (an error bit asks for more); for a batch queued on a running engine the hardware is on another one |
| Soundness.SuccessIffNotStale | xdma/libxdma.c:3098-3106 | in every run, a request that returns success had all its descriptors retired if and only if each batch was started by its own queueing |
| Soundness.SuccessIsSoundIff | xdma/libxdma.c:2396-2407 | the same read off the run: if and only if none of its batches was queued while the engine was already marked running |
| Soundness.CalmRunInv | xdma/libxdma.c:2396-2407 | without timeout and offline, and serviced only when BUSY is clear, the engine is marked running, and RUN is set, exactly while something is queued |
| Soundness.CalmSuccessIsSound | xdma/libxdma.c:3098-3106 | success is sound in all those runs |
| Soundness.NoStrandedWork | xdma/libxdma.c:1018-1049 | in every run without offline, an engine that is not running has an empty queue after every step |
| Registers.StepKeepsArmed | xdma/libxdma.c:587-663 | every step keeps: RUN is set only on an engine marked running, none is marked running under a shutdown request, and the hardware's run is that of the transfer and the block size in the registers |
| Registers.FirstBlockFits | xdma/libxdma.c:625-634 | in every run, the block of descriptors that first_desc_adjacent asks for at the start of the array lies inside the batch started and inside one page, as long as the batch allows up to 16 |
| Registers.RunBitOnlyWhileRunning | xdma/libxdma.c:658-663 | in every run RUN is never left set on an engine not marked running |
| Registers.OfflineIsQuiet | xdma/libxdma.c:3688-3790 | in every run, from offline until online the engine is not running, RUN is clear, nothing is started on it and nothing more is queued |
| Registers.OnlineStartsAfresh | xdma/libxdma.c:3743-3790 | offline and online again end whatever state the engine was in: the next batch is accepted and started by its own queueing |
| StaleRuns.ServiceRecovers | xdma/libxdma.c:1092-1098 | one service with nothing queued and BUSY clear takes the running mark away |
| StaleRuns.TimeoutLeavesStale | xdma/libxdma.c:3118-3134 | a timeout can leave an engine marked running with an empty queue and a count outstanding |
| StaleRuns.BusyServiceLeavesStale | xdma/libxdma.c:1078-1123 | so can a service while BUSY, without a timeout, with the hardware's count behind what was dequeued |
| StaleRuns.StaleFalseSuccess | xdma/libxdma.c:2396-2407 | from every engine left like that there is a run in which a request is told success while the hardware retired nothing of it |
| StaleRuns.TimeoutFalseSuccess | xdma/libxdma.c:3118-3134 | a run from the start with such a false success after a timeout |
| StaleRuns.WrapFalseSuccess | xdma/libxdma.c:1123-1123 | a run from the start with such a false success through the count that wraps |
| Transfers.FetchesNext | xdma/libxdma.c:625-634 | while the array holds a batch, what the block fetches from the register's first block on give after c retired descriptors is descriptor c |
| Transfers.PieceExtends | xdma/libxdma.c:2778-2802 | executing the descriptor of the next piece extends the bytes moved by exactly that piece |
| Transfers.LoadedGood | xdma/libxdma.c:2804-2848 | compiling a request's next batch into the array keeps what was moved and makes the array hold that batch |
| Transfers.StepKeepsInv | xdma/libxdma.c:2961-3156 | every step of all submitters, service and hardware, on protocol, array and memory, keeps for every request: the array holds its batch from transfer_init until its waiter looks at the state, and until a batch of it is judged COMPLETED without having been started, exactly its first pieces have moved, apart from bytes other batches wrote |
| Transfers.RunInv | xdma/libxdma.c:3036-3142 | that holds in every run with data |
| Delivery.IsProtocolRun | xdma/libxdma.c:2961-3156 | a run with data is a run of the protocol, so everything proved of those holds of it |
| Delivery.RunLifts | xdma/libxdma.c:2961-3156 | and every run of the protocol is one of a run with data, whatever the requests carry |
| Delivery.HistoryOf | xdma/libxdma.c:3009-3026 | the history kept of a request is right: its pieces, the memory when it arrived, and no byte counts as written by others that was not |
| Delivery.MovedSoFar | xdma/libxdma.c:3036-3142 | in every run, at any time, a request without a falsely COMPLETED batch has moved exactly its first pieces, as many as the hardware executed for it |
| Delivery.SuccessIsMoved | xdma/libxdma.c:3098-3106 | in every run, of a request that returns success: if none of its batches was queued on an engine already marked running, all its bytes have been moved and nothing else was but by other batches; otherwise the hardware executed fewer descriptors than it has |
| Delivery.SuccessIsMemcpy | xdma/cdev_sgdma.c:234-283 | for a user buffer, under that condition, success is memcpy up to bytes that other batches wrote meanwhile |
| Delivery.UndisturbedIsMemcpy | xdma/cdev_sgdma.c:234-283 | if the hardware executed nothing for anybody else meanwhile, the memory is exactly the memcpy of the one at arrival |
| Delivery.OwnIsHonest | xdma/libxdma.c:3098-3135 | in every run, the outcome its waiter finds says how many descriptors the hardware executed, and COMPLETED misses none for a batch queued on an idle engine and all of them for one queued on a running engine |
| RxRing.EopIsBit0 | xdma/libxdma.c:4071-4074 | the masked status word is non-zero exactly when its bit 0 is set |
| RxRing.ProcessedPasses | xdma/libxdma.c:873-913 | on any ring: the scan passes the slots that hold a result, up to the first empty one or rx_head, which sets rx_overrun, and counts those with bit 0 set |
| RxRing.TakenEnds | xdma/libxdma.c:4035-4092 | on any ring: a call takes the results from rx_head on; all but the last have the magic 0x52B4, 1 to 4096 bytes and bit 0 clear; it is a fault exactly if the last lacks one of the first two; it stops before rx_tail only for a fault or bit 0; credits and length are those of what it took |
| RxRing.Engine.EngineRingProcess | xdma/libxdma.c:873-913 | the loop equals the recursive scan of new results and passes the slots as just stated |
| RxRing.Engine.TakeResults | xdma/libxdma.c:4035-4092 | the locked region of complete_cyclic equals the recursive removal of results; it ends even after an overrun |
| RxFlow.ProcessedShows | xdma/libxdma.c:873-913 | the service notices every reported result, counts the EOPs among the new ones and never meets rx_head |
| RxFlow.TakenIsHaul | xdma/libxdma.c:4041-4090 | one call takes the next reported results in order and stops exactly at the first EOP or faulty one, or at rx_tail |
| RxFlow.TakenLeaves | xdma/libxdma.c:4080-4084 | what is left in the ring is exactly the later results |
| RxFlow.StepKeepsInv | xdma/libxdma.c:4019-4104 | every step of hardware, service and reader keeps the ring invariant |
| RxFlow.RunInv | xdma/libxdma.c:4288-4291 | the ring invariant holds in every run from setup with 128 credits |
| RxFlow.CreditsBoundTheRing | xdma/libxdma.c:4288-4291 | in every run credits, unread results and results being copied stay within 128, and rx_overrun is never set |
| RxFlow.NeverOverwrites | xdma/libxdma.c:4099-4101 | in every run the hardware writes only to empty result slots and to pages that are neither unread nor being copied |
| RxFlow.ReadersGetAllInOrder | xdma/libxdma.c:4041-4090 | in every run the results taken are the reported ones in order, none skipped or repeated |
| RxFlow.CallStopsAtFirstEop | xdma/libxdma.c:4041-4090 | every call in a run takes results up to the first EOP or faulty one it reaches, or all that is noticed |
| RxFlow.ServiceNoticesAll | xdma/libxdma.c:890-910 | after a service every reported result has been noticed |
| RxFlow.StepLoses | xdma/libxdma.c:4094-4101 | credits in use change by exactly those lost to a faulty haul or a failed copy |
| RxFlow.CreditsConserved | xdma/libxdma.c:4094-4101 | without faults and failed copies no credit is ever lost |
| RxFlow.WindowPagesIntact | xdma/libxdma.c:4097-4101 | the pages a reader copies stay as the hardware filled them until it returns the credits |
| CopyOut.Reader.CopyCyclicToUser | xdma/libxdma.c:3960-4017 | appends the ring's bytes from head, page after page and around, each page as its copy finds it, truncated to the space left; returns the length exactly if none of the copies it needs fails, else -EIO with the pages before the failing one copied; nothing outside is written |
| CopyOut.CompleteCyclic | xdma/libxdma.c:4019-4104 | the whole call: the results it takes end as stated for any ring; a fault or a failed copy gives -EIO and no credits, success, exactly if no copy fails, copies the packet and returns one credit per result; overrun is cleared except on a fault |
| CopyOut.RingIsPayload | xdma/libxdma.c:3980-4014 | when every result but the last fills its page, the bytes copied are the data of the results |
| CopyOut.CopyRightIff | xdma/libxdma.c:3980-4014 | they are for all page contents if and only if every result but the last fills its page |
| CopyOut.ShortResultMisread | xdma/libxdma.c:4008-4013 | pages for which a short result in the middle is misread |
| CopyOut.ReaderGetsPayload | xdma/libxdma.c:4097-4097 | in every run whose hardware ends a page early only at EOP, the ring from a copying reader's head on holds the payload of the results it took |
| CopyOut.ViewsArePayload | xdma/libxdma.c:4097-4097 | whenever its copies happen in such a run, while other pages are being filled, what they find is that payload |
| CopyOut.CopyPacket | xdma/libxdma.c:3960-4017 | in such a run, what a copy appends to the reader's buffer is the payload, as far as there is room, exactly if none of its copies fails |
| Xvc.Bridge.ShiftBits | xdma/cdev_xvc.c:46-79 | times out exactly when CTRL is busy for all 100 polls; otherwise TDO holds the outputs of the shifted steps |
| Xvc.ChunkIsSerial | xdma/cdev_xvc.c:157-180 | shifting a chunk from where the chunks before it left the TAP is that stretch of the bit-serial shift |
| Xvc.CopiesFitIff | xdma/cdev_xvc.c:124-179 | every copy stays inside total_bytes if and only if rounding the bit count up to bytes does not wrap |
| Xvc.CounterReachesIff | xdma/cdev_xvc.c:157-158 | the 32-bit loop counter reaches the bit count if and only if that is at most 2^32 - 32 |
| Xvc.ShiftOne | xdma/cdev_xvc.c:159-179 | one pass shifts min(32, bits left) bits with the length register set to that |
| Xvc.ShiftAll | xdma/cdev_xvc.c:154-180 | the loop is bit-serial shifting of all bits, with the length register right at every shift |
| Xvc.XvcIoctl | xdma/cdev_xvc.c:107-205 | the return value of every path; for opcode 1 TDO bit i is the output of step i on TMS bit i and TDI bit i, for opcode 2 the caller gets TDI back |
| Camera.Cams.PlaceBuffers | src/xdma_camera_drv.hpp:652-659 | the four buffers of a camera are one big buffer apart |
| Camera.Cams.PlaceCamera | src/xdma_camera_drv.hpp:629-660 | each camera follows the one before it, on the host and in the FPGA's registers |
| Camera.Cams.InitDevice | src/xdma_camera_drv.hpp:577-669 | failure without device, mapping or memory; otherwise all 48 images and 12 registers are laid out and all cameras enabled |
| Camera.ImagesTile | src/xdma_camera_drv.hpp:629-660 | every address of the host buffer lies in exactly one image, and no image leaves the buffer |
| Camera.LayoutsAgree | src/xdma_camera_drv.hpp:633-659 | each image is as far from the host base as its FPGA frame is from FPGA_BASE |
| Camera.Cams.ChkCam | src/xdma_camera_drv.hpp:763-770 | the index becomes the buffer before the one the FPGA writes: one of the four, its successor being written |
| Camera.Cams.KeepCurrent | src/xdma_camera_drv.hpp:792-804 | exactly the enabled cameras whose index differs from the group's first are told to keep their buffer |
| Camera.Cams.MipiIsr | src/xdma_camera_drv.hpp:774-811 | nothing happens with the group disabled; otherwise every index of the group is one behind the buffer being written, and so another one; registers and the group copy as stated, everything else unchanged |
| Camera.CopyTearsIff | src/xdma_camera_drv.hpp:863-873 | the copied frame of the group's first camera is not the one being written; that of another camera is exactly when it is one buffer behind the first |
| Camera.ShapeSizes | src/xdma_camera_drv.hpp:596-628 | an image is 32 bytes of frame information and width by height by bytes per pixel, 1920 by 1080 by 2 unless set |
| Camera.GroupIsExact | src/xdma_camera_drv.hpp:863-873 | a complete group copy makes exactly four images equal to the FPGA's and leaves the other 44 unchanged |
| Camera.IsrIsExact | src/xdma_camera_drv.hpp:926-936 | the same in terms of the layout tables, for every camera, buffer and byte |

## Left out

- Segments.InitRequest: the slot count is an `int` and the table's size in bytes an `unsigned int` in the source; the model's table has exactly the slots counted, which is what the source allocates as long as 16 bytes per slot plus the header stay below 2^32 (always so for a length limit of at least a page).
- Submit.XferSubmit: the channel lookup and handle checks at its start; a batch that times out is judged with what the hardware has moved by then, while the real hardware may still finish the descriptor in flight.
- Submit.SubmitAll: non-incremental mode in poll mode, where engine_start does not set the hardware's bit for it (xdma/libxdma.c:545-556).
- Submit.RunTransfer: a half-executed descriptor counts as not executed.
- Delivery.SuccessIsMoved: runs in non-incremental mode; pieces are mapped before the request arrives and unmapped after it is done.
- ReadWrite.CharSgdmaReadWrite: unpinning and dirtying of pages on the way out, and the cap the kernel puts on `count`.
- UserBuffer.MapUserBuf: the clean-up on its error paths.
- Service.Engine.EngineService: the performance counters, and transfers with a completion callback; in poll mode the write-back word is a parameter.
- Protocol.RunInv: poll mode (its write-back word is in `ServiceAccounts` and `ServiceRegisters`), cyclic and performance transfers; the performance submit path queues without desc_lock.
- RxFlow.RunInv: the ring without credit control, where rx_overrun can be set; the wait and retry loop of xdma_engine_read_cyclic; several threads reading one open file at once.
- CopyOut.Reader.CopyCyclicToUser: a copy_to_user that fails half-way may have written part of its page; of it only is said that it touches nothing outside the space left.
- Xvc.XvcIoctl: the spin lock, which the clean-up path releases even where it was never taken.
- Camera.Cams.MipiIsr: camera callbacks, threads, and which frame a callback looks at; the three handlers differ only in their base camera and are one method here.
- Which image the `ptr_of_cam` macro names while the interrupt copies into `index`.
- Real time, cache flushing, byte order of registers, page pinning details.
- PCI probing, BAR mapping, interrupt set-up, character-device creation, sysfs, module start-up beyond the length clamp, udev rules and command-line tools: plumbing, finite tables or easy loops.
- `xdma/zynq_gps.c` and `xdma/zynq_main.c`: register reads, logging and simple field packing.
