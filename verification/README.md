# A verified model of the VirtIO 9P file-system handler

The handler is a 9P2000.L client that talks to a host over a VirtIO split virtqueue. This
project models its five layers in Dafny and proves what each layer promises to the next. All
main results quantify over every input, every interleaving or every run.

1. **Split virtqueue** (`Ring`, `Bag`, `VirtQueue`, `QueueRuns`). `VirtQueue.VirtQueue` is the
   queue in memory: descriptor array, rings, 16-bit counters, two byte orders, and the loops of
   AddBuf and GetBuf. `Ring` is the same queue on values with unbounded counters. `Bag` is what
   callers want: a bag of requests, each returned once. Memory refines `Ring` and `Ring` refines
   `Bag`, for whole runs with a device that moves at any time.
2. **Transactions** (`Transact`). Send, poll, match tag and size, time out, Tflush, drain, reset
   and new handshake, on top of that same `VirtQueue` class, with the device moving between any
   two polls.
3. **Fids** (`FidPool`, `Session`). The allocator, and the FUSE callbacks related to the set of
   fids the server has bound, whatever is lost on the way.
4. **File and directory loops** (`Files`, `Readdir`, `Stack`). Chunked loops against any replies,
   proved equal to one-shot operations on a byte sequence or a list of entries when a conforming
   server sends them; `Stack` runs them over the transactions of layer 2, with a device that moves
   while a reply is parsed.
5. **Wire format, requests and replies, paths, memory helpers** (`Wire`, `Protocol`, `Server`,
   `Paths`, `Memory`, `Machine`). Put and get as inverses, a parser at the server's end that
   understands every request, decoders that read only the reply, the in-place tokeniser against a
   pure split, word-wise copies against byte copies.

`Counting` and `Modulo` hold the pigeonhole principle and facts about remainders. Clock, server,
device and memory shortage appear as parameters or as unrestricted choices, so every theorem
holds for all of them.

## What the proofs found

Where a natural property does not hold of the code, the model keeps the code and states the exact
condition.

- `idx % num` survives the 16-bit wrap if and only if the queue size divides 65536
  (`Ring.SlotsSurviveWrap`). The size offered by the device is not checked.
- AddBuf with no scatter-gather entries publishes the head of the free list. While descriptors
  are free the memory then stands for no queue. With none free it stands for one if and only if
  that head starts a chain the device holds, which is then posted a second time and loses its
  cookie (`VirtQueue.RepublishExact`, `VirtQueue.VirtQueue.AddBuf`). No caller does this.
- A used-ring id that is not a descriptor number is never consumed, so GetBuf returns NULL from
  then on (`Bag.CorruptFrontBlocks`). Only a reset helps.
- The Rstatfs guard asks for 59 bytes and the decoder reads 67: replies of 59 to 66 bytes take
  their last fields from old buffer contents (`Protocol.StatfsExact`).
- The cap `msize - overhead` on Tread and Twrite holds if and only if `overhead <= msize`
  (`Protocol.CapHolds`), and the buffers hold every message if and only if also
  `msize <= P9_MSIZE` (`Protocol.BufferHolds`). P9_Version stores the server's msize unchecked.
- The count of an Rwrite is not clamped, unlike that of an Rread (`Protocol.CountIsNotClamped`).
  v9p_write has at every moment written exactly what it has counted if and only if every Rwrite
  counts at most what its Twrite carried (`Files.WriteExact`); then it ends (`Files.WriteEnds`).
  Otherwise it can report more than the size (`Files.ReportsTooMuch`) or never end
  (`Files.NeverEnds`).
- v9p_readdir stands still exactly when a reply has data but no whole entry
  (`Readdir.StallExact`), and for ever if the server goes on so (`Readdir.StalledForever`).
- A string of 65536 bytes or more does not survive p9_put_str (`Wire.StrRoundTrip`), so its
  request is understood as another (`Server.UnderstoodExactly`).
- An Rlerror with code 0 reads as success, one above 2^31 as a positive number
  (`Protocol.ErrorArrives`). Answering a walk to the root, it makes a handle the server never bound
  (`Session.Session.Open`).
- truncate reports success as the new size if and only if that is a signed 32-bit number
  (`Session.Session.Truncate`).
- split_path loses part of the path unless the last name is 1 to 255 bytes long and the parent
  buffer cuts off nothing but slashes (`Paths.SplitPath`).
- A fid that was clunked and freed is still bound at the server if and only if the Tclunk was lost
  (`Session.Session.ClunkAndFree`). After a failed walk, walk_to frees a fid that is bound if and
  only if a short walk bound it and either had no qids, for which P9_Walk sends no Tclunk, or lost
  its Tclunk (`Session.FreedButBound`, `Session.EmptyWalkLingers`). These are the only ways walk_to
  can be refused for a fid in use.
  The refused fid goes back on top of the free stack, so every later callback that walks takes it
  and fails too, until another fid is freed above it (`Session.Session.Serve`).

Where documentation and code disagree, the model follows the code. The handler's README.md:52-53 and
include/fid_pool.h:37-39 say that the fid of a stalled Tlcreate becomes an orphan, but
src/fuse_ops.c:361-366 clunks and frees it. The comment in P9_Walk says that a partial walk binds
the new fid, walk(5) of the Plan 9 manual says that it does not; the model allows both, also for
an Rwalk with no qids.

## Assumptions

- The queue size is a power of two up to 32768 (section 2.7 of VirtIO 1.2).
- The device returns only chains it took, each once, and overwrites no used entry the driver has
  not read (sections 2.7.8 and 2.7.14 of VirtIO 1.2). Ids that are no descriptor number are
  allowed.
- Memory is sequentially consistent. The clock passes its deadline after finitely many looks.
- `Transact` is entered with a queue. After a failed reset there may be none.
- Fids are proved per session; a reset starts a new session with a new pool. A session takes
  at most 2^32 - 2 fresh fids, however many callbacks it serves.
- A reply is no longer than the msize, and the msize is no longer than the buffers (524288 bytes);
  it is at least 11 for the reads and 23 for `Files.Write`.
- A server that answers a Twrite with a count has written that much of it, or all of it if it
  counts more. Nothing else is assumed of it.
- `Files.ReadExact` needs a server that answers a Tread with an error or a prefix of what that
  Tread asks for, empty only at the end of the file, and an offset plus size within 64 bits.
  `Files.Read` itself takes any replies. `Stack.Read` asks the same of the exchanges in the log.
- `Session` takes for granted that the server refuses to walk to a fid in use, that a Tclunk it
  processes unbinds the fid even if it answers with an error, and that a Twalk it refuses binds
  nothing. An Rwalk with fewer qids than names may bind the fid or not, with no qids too.
- `Readdir.DirectoryDelivered` needs a server that answers a Treaddir with an error or the next
  whole entries, none only at the end of the directory, whose cookies are distinct and not 0 and
  each of whose entries fits one reply. `Readdir.ReadDirectory` itself takes any replies.

## Model

| member | source | states |
|---|---|---|
| `Machine.Vr16` | include/virtio/virtqueue.h:84-87 | The stored 16-bit word decodes back to the value in either byte order; its bytes in memory are those of Wire.FieldLayout |
| `Machine.Vr32` | include/virtio/virtqueue.h:88-91 | The stored 32-bit word decodes back to the value in either byte order; its bytes in memory are those of Wire.FieldLayout |
| `Machine.Vr64` | include/virtio/virtqueue.h:92-95 | The stored 64-bit word decodes back to the value in either byte order; its bytes in memory are those of Wire.FieldLayout |
| `Machine.Swap16Involutive` | include/virtio/virtqueue.h:84-87 | Swapping the two bytes twice is the identity, for every word |
| `Machine.Swap32Involutive` | include/virtio/virtqueue.h:88-91 | Swapping the four bytes twice is the identity, for every word |
| `Machine.Swap64Involutive` | include/virtio/virtqueue.h:92-95 | Swapping the eight bytes twice is the identity, for every word |
| `Machine.AsInt` | src/fuse_ops.c:321-321 | The one signed 32-bit number with the low 32 bits of the count |
| `Wire.SwapLayout16` | include/virtio/virtqueue.h:84-87 | A swapped word, in the memory of the big-endian CPU, is the little-endian encoding of its value |
| `Wire.SwapLayout32` | include/virtio/virtqueue.h:88-91 | The same for four bytes |
| `Wire.SwapLayout64` | include/virtio/virtqueue.h:92-95 | The same for eight bytes |
| `Wire.FieldLayout` | include/virtio/virtqueue.h:84-95 | In memory a ring field is the little-endian encoding of its value on a modern queue and the native one on a legacy queue, for all three widths |
| `Ring.FreshInv` | src/virtio/virtqueue.c:93-105 | A newly allocated queue satisfies the invariant: free list, chains and rings agree |
| `Ring.SubmitKeepsInv` | src/virtio/virtqueue.c:133-185 | Queuing a request keeps the invariant: free list and chains still partition the descriptors and the rings name exactly the right heads; the new head was in no chain |
| `Ring.PollKeepsInv` | src/virtio/virtqueue.c:200-267 | Recycling a completed chain keeps the invariant: each of its descriptors becomes free, once |
| `Ring.TakeKeepsInv` | src/virtio/virtqueue.c:172-182 | The device taking an available entry keeps the invariant |
| `Ring.FinishKeepsInv` | src/virtio/virtqueue.c:204-213 | The device completing a chain it holds keeps the invariant |
| `Ring.CorruptKeepsInv` | src/virtio/virtqueue.c:211-213 | A used entry with an id that is no descriptor number keeps the invariant |
| `Ring.StepKeepsInv` | src/virtio/virtqueue.c:133-267 | Every driver call and device move, in any order, keeps the partition of descriptors and the meaning of both rings |
| `Ring.HeadsAreNotFree` | src/virtio/virtqueue.c:145-184 | No outstanding chain starts at a free descriptor |
| `Ring.ChainsAreNotFree` | src/virtio/virtqueue.c:145-184 | No descriptor of an outstanding chain is free |
| `Ring.PartitionAllot` | src/virtio/virtqueue.c:146-166 | Moving the first n free descriptors into a chain keeps the partition |
| `Ring.PartitionReclaim` | src/virtio/virtqueue.c:239-256 | Giving all descriptors of a chain back in any order keeps the partition |
| `Ring.SlotsSurviveWrap` | src/virtio/virtqueue.c:172-182 | Slots computed from wrapped 16-bit counters equal those of unbounded counters if and only if the size divides 65536 |
| `Ring.AvailFits` | src/virtio/virtqueue.c:137-182 | Free descriptors and entries the device has yet to take never exceed the queue size together |
| `Ring.AvailSlotIsFree` | src/virtio/virtqueue.c:172-182 | The slot AddBuf writes is not one the device has yet to read |
| `Ring.UsedRingHasRoom` | src/virtio/virtqueue.c:204-213 | A device that holds a chain always finds room in the used ring, if it wrote no corrupt entry |
| `Bag.ApplyKeepsInv` | src/virtio/virtqueue.c:133-267 | In the bag of requests every ticket is outstanding or completed, never both and never twice, after every act |
| `Bag.SubmitRefines` | src/virtio/virtqueue.c:133-185 | Queuing a request is posting it to the bag, with the same capacity rule |
| `Bag.PollRefines` | src/virtio/virtqueue.c:200-267 | GetBuf is fetching the oldest unfetched completion of the bag, with its cookie and length |
| `Bag.FinishRefines` | src/virtio/virtqueue.c:204-213 | A device completion is the bag completing exactly that request |
| `Bag.NothingReady` | src/virtio/virtqueue.c:204-213 | When GetBuf returns NULL the bag has nothing to fetch either |
| `Bag.StepRefines` | src/virtio/virtqueue.c:133-267 | Every enabled event of the queue is an allowed act of the bag with the same output, and the two stay related |
| `Bag.QueueRefinesBag` | src/virtio/virtqueue.c:133-267 | Every run of the queue, however interleaved, is a run of the bag with the same outputs |
| `Bag.RunDelivers` | src/virtio/virtqueue.c:204-258 | What a run returns is exactly what the device completed, in used-ring order |
| `Bag.RunPosts` | src/virtio/virtqueue.c:146-173 | The tickets of a run are exactly its accepted posts, in order |
| `Bag.PostedIsAccepted` | src/virtio/virtqueue.c:133-185 | The posts the bag accepts are the requests AddBuf accepted |
| `Bag.NothingOutstanding` | src/virtio/virtqueue.c:239-258 | With no chain outstanding every descriptor is free and every request has been fetched |
| `Bag.EveryRequestReturnsOnce` | src/virtio/virtqueue.c:133-267 | After any interleaving on a fresh queue: returned cookies are those of completed requests in used-ring order, none twice, and all of them once nothing is outstanding |
| `Bag.CorruptFrontBlocks` | src/virtio/virtqueue.c:211-213 | After a corrupt entry at the front, nothing is ever returned again |
| `VirtQueue.SubmitRepresents` | src/virtio/virtqueue.c:146-184 | Memory after linking the chain and publishing its head stands for the ring after Submit |
| `VirtQueue.PollRepresents` | src/virtio/virtqueue.c:204-258 | Memory after unlinking and freeing the chain stands for the ring after Poll |
| `VirtQueue.FreePublished` | src/virtio/virtqueue.c:167-184 | A published head that is still free stands for no queue state |
| `VirtQueue.RepublishExact` | src/virtio/virtqueue.c:133-185 | With nothing free, the memory after AddBuf with no entries stands for a queue if and only if the leftover list head starts a chain the device holds |
| `VirtQueue.HeldAgain` | src/virtio/virtqueue.c:133-185 | That queue is the old one with this chain posted a second time under the new cookie |
| `VirtQueue.UsedFront` | src/virtio/virtqueue.c:204-213 | The 16-bit test and the slot read by GetBuf see exactly the front of the used ring, in either byte order |
| `VirtQueue.AvailFront` | src/virtio/virtqueue.c:172-182 | The device's 16-bit test and slot see exactly the next untaken entry |
| `VirtQueue.TakeRepresents` | src/virtio/virtqueue.c:172-182 | Advancing the device's counter stands for Take |
| `VirtQueue.UseRepresents` | src/virtio/virtqueue.c:204-213 | Writing a used entry and its counter stands for the completion, and overwrites nothing unread |
| `VirtQueue.LinkedDecodes` | src/virtio/virtqueue.c:146-165 | A linked descriptor decodes, in either byte order, to its buffer, its flags and its successor |
| `VirtQueue.VirtQueue.constructor` | src/virtio/virtqueue.c:27-110 | The allocated queue is valid and stands for the fresh ring |
| `VirtQueue.VirtQueue.LinkChain` | src/virtio/virtqueue.c:146-165 | The descriptor loop writes exactly the request's chain over the first free descriptors and leaves all others alone; the returned head continues the free list |
| `VirtQueue.VirtQueue.Publish` | src/virtio/virtqueue.c:167-184 | Head and cookie are stored and the counter advances; nothing else changes |
| `VirtQueue.VirtQueue.AddBuf` | src/virtio/virtqueue.c:133-185 | -1 and no change exactly when too few descriptors are free; otherwise the queue becomes the ring after Submit; with no entries, exactly when the memory still stands for a queue |
| `VirtQueue.VirtQueue.UnlinkChain` | src/virtio/virtqueue.c:239-253 | The recycling loop frees exactly the chain's descriptors and links them in front of the old free list |
| `VirtQueue.VirtQueue.Recycle` | src/virtio/virtqueue.c:215-258 | The completed chain is recycled whole and its cookie returned |
| `VirtQueue.VirtQueue.GetBuf` | src/virtio/virtqueue.c:200-267 | Cookie and length of the front completion and the ring after Poll; NULL and no change when there is none or its id is out of range |
| `VirtQueue.VirtQueue.DeviceRead` | src/virtio/virtqueue.c:146-165 | A device following the links finds exactly the request's buffers in order, and which it may write |
| `VirtQueue.VirtQueue.DeviceTake` | src/virtio/virtqueue.c:172-182 | The device sees the next posted request exactly when there is one |
| `VirtQueue.VirtQueue.DeviceHasRoom` | src/virtio/virtqueue.c:204-213 | The device's wrapped counter difference tells exactly whether an unread entry would be overwritten |
| `VirtQueue.VirtQueue.DeviceUse` | src/virtio/virtqueue.c:204-213 | A used entry appended in memory is the completion on the ring |
| `QueueRuns.Execute` | src/virtio/virtqueue.c:133-267 | Any one event on memory is that event on the ring |
| `QueueRuns.Run` | src/virtio/virtqueue.c:133-267 | Any legal run on memory ends in the ring's final state and returns the ring's cookies |
| `QueueRuns.RunBoth` | include/virtio/virtqueue.h:84-95 | The same run on a legacy and a modern queue returns the same cookies and ends in corresponding memory |
| `QueueRuns.LayoutsCorrespond` | src/virtio/virtqueue.c:155-164 | Legacy and modern memory of one queue differ by byte order alone: descriptors, links inside chains and unread ring entries are swapped; free links and cookies are the same |
| `FidPool.AllocExact` | src/fid_pool.c:42-49 | Alloc hands out a proper fid exactly while one is available, and never a held or orphaned one |
| `FidPool.NextKeeps` | src/fid_pool.c:42-107 | Every alloc, free and orphan keeps free, held and orphaned fids apart, also when a list cannot grow |
| `FidPool.FidsStayUnique` | src/fid_pool.c:42-107 | In every run of alloc, free and orphan, with failed growth anywhere, no fid is 0, handed out twice, or was ever orphaned, recorded or not |
| `FidPool.FidPool.constructor` | src/fid_pool.c:6-26 | A new pool starts at fid 1 with nothing free and no orphans |
| `FidPool.FidPool.Alloc` | src/fid_pool.c:42-49 | The last freed fid, or a fresh one; the pool changes by that alone |
| `FidPool.FidPool.Free` | src/fid_pool.c:53-74 | The fid is pushed, across growth to twice the capacity; it is leaked exactly if the list is full and there is no memory for a bigger one |
| `FidPool.FidPool.MarkOrphan` | src/fid_pool.c:82-107 | The fid is recorded, across growth to twice the capacity; it goes unrecorded exactly if there is no memory to make the list or to grow a full one |
| `FidPool.Create` | src/fid_pool.c:6-26 | The empty pool exactly if there is memory for it and its list, otherwise NULL |
| `Session.ClunkKeeps` | src/p9_client.c:503-517 | A Tclunk answered, processed or lost keeps the books, and settles its fid: bound only if it lacks a Tclunk |
| `Session.WalkKeeps` | src/p9_client.c:470-501 | However a walk ends, the books hold; after an error other than -5 its fid is settled: bound only if it lacks a Tclunk |
| `Session.FreeKeeps` | src/fid_pool.c:53-74 | Freeing a settled fid keeps every fid accounted for, also when it is leaked |
| `Session.OrphanKeeps` | src/fid_pool.c:82-107 | Orphaning a fid in doubt keeps the books, also when it goes unrecorded |
| `Session.TakeKeeps` | src/fid_pool.c:42-49 | A taken fid is proper, not held, and bound at the server only if it lacks a Tclunk |
| `Session.TriedBound` | src/fuse_ops.c:73-91 | walk_to changes no binding but its own fid's, and binds that exactly if the server walked |
| `Session.Refusal` | src/fuse_ops.c:73-91 | A fid in use is refused and nothing changes |
| `Session.TriedCalm` | src/fuse_ops.c:73-91 | A walk that is undone where needed leaves no fid without a Tclunk; with all answered as well it loses nothing |
| `Session.FreedButBound` | src/p9_client.c:487-498 | After an error other than -5 the fid walk_to frees is bound if and only if a short walk bound it and had no qids or lost its Tclunk |
| `Session.EmptyWalkLingers` | src/p9_client.c:495-496 | One such reply: an Rwalk with no qids to three names, everything answered |
| `Session.PutBack` | src/fid_pool.c:42-74 | Freeing the fid just taken from the free list restores the pool |
| `Session.Session.constructor` | src/p9_client.c:391-414 | After Tattach exactly the root is bound and nothing is lost |
| `Session.Session.Clunk` | src/p9_client.c:503-517 | The fid is unbound exactly if the server processed the request; no reply gives -5; nothing else changes |
| `Session.Session.Walk` | src/p9_client.c:470-501 | The result for every outcome: -5 without a reply, the error's own code, 0 for as many qids as names and -2 for fewer; all bindings, an error reply with code 0 and an Rwalk with no qids that binds among them; a short walk with qids is undone |
| `Session.Session.Free` | src/fid_pool.c:53-74 | The fid leaves the held ones; it is dropped only from a full list |
| `Session.Session.TakeFid` | src/fid_pool.c:42-49 | The pool's next fid, proper and not held, joins the held ones |
| `Session.Session.Orphan` | src/fid_pool.c:82-107 | A fid in doubt becomes an orphan; nothing else changes |
| `Session.Session.WalkTo` | src/fuse_ops.c:73-91 | The walk's result and the books after it: the fid becomes an orphan exactly if there was no usable reply or the server's own code was -5; any Rwalk with fewer or more qids than names gives -2 and frees the fid; a freed fid is still bound exactly in the cases named, and goes back on top of the free list it came from |
| `Session.Session.WalkWith` | src/fuse_ops.c:80-90 | The same once the fid is taken: orphaned or freed by the result, and on the free list unless memory for it is short |
| `Session.Session.ClunkAndFree` | src/fuse_ops.c:158-160 | The freed fid is still bound if and only if it was and its Tclunk was lost; then it is the next to be taken unless the list was full |
| `Session.Session.ClunkBoth` | src/fuse_ops.c:448-451 | Both fids are clunked and freed in this order, the bindings change by these two alone |
| `Session.Session.PathOp` | src/fuse_ops.c:117-173 | The walk's error or the request's; the bindings after every outcome; as before, but for a stale fid, after a walk whose clunk reached the server |
| `Session.Session.Truncate` | src/fuse_ops.c:461-480 | As the other callbacks, but success is the low 32 bits of the signed size: the size itself if and only if it is a signed 32-bit number |
| `Session.Session.Chmod` | src/fuse_ops.c:646-679 | The first error of walk, first and second request; the fid is released on every path |
| `Session.Session.Open` | src/fuse_ops.c:264-287 | On success exactly one new handle, bound unless the walk was answered with an error of code 0; on failure none, and the fid is released |
| `Session.Session.Release` | src/fuse_ops.c:289-298 | The handle is gone, and unbound unless the Tclunk was lost; then it jams the pool unless the list was full |
| `Session.Session.TwoWalks` | src/fuse_ops.c:426-454 | The first error of both walks and the request; both fids are released on every path, in the order of rename or of link |
| `Session.Session.SecondWalk` | src/fuse_ops.c:614-644 | From the first walk on: a failed second walk releases the first fid, otherwise both are released |
| `Session.Session.Call` | src/fuse_ops.c:117-704 | Any callback keeps the invariant; missing Tclunks and lost replies grow only by its own; on a jammed pool it fails and changes nothing |
| `Session.Session.Serve` | src/fuse_ops.c:117-704 | Over any run: if every fid to be released gets a Tclunk that arrives, only root, handles and orphans are bound; if also every Twalk and Tclunk is answered, exactly root and handles; a jammed pool fails every callback that walks |
| `Session.Session.BoundFids` | src/fuse_ops.c:73-91 | A reusable fid is bound only if it lacks a Tclunk; with none lacking only root, handles and orphans are bound, with no loss exactly root and handles; every fid handed out is a handle, free, an orphan or dropped |
| `Transact.PollShrinks` | src/virtio/virtqueue.c:204-258 | Each completion consumed is one posted chain less, and none is added |
| `Transact.OwnAnswer` | src/p9_client.c:190-233 | From a quiescent queue the completion consumed is that of the request just posted, and leaves none outstanding |
| `Transact.TagClosedForm` | src/p9_client.c:347-354 | The n-th tag is (first + n) mod 65535 |
| `Transact.TagsDiffer` | src/p9_client.c:347-354 | No tag is NOTAG; any 65535 consecutive tags differ pairwise |
| `Transact.OwnDropped` | src/p9_client.c:190-233 | A completion dropped from a quiescent queue was the only chain |
| `Transact.MatchesExactly` | src/p9_client.c:197-208 | A whole reply within the msize is taken for the request with its tag at its own length, and for no other tag or length |
| `Transact.MatchesWhole` | src/p9_client.c:197-208 | What is taken for a reply is, byte for byte, a whole message of that length with that tag, and nothing else is |
| `Transact.Handler.constructor` | src/main.c:170-180 | A new handler is valid, quiescent and outside a reset |
| `Transact.Handler.Device` | src/p9_client.c:190-196 | However often the device moves, the driver's view stays; with no chain posted the receive buffer stays too |
| `Transact.Handler.NextTag` | src/p9_client.c:347-354 | The tag and its successor, skipping NOTAG |
| `Transact.Handler.Get` | src/virtio/virtqueue.c:200-267 | GetBuf on the handler's queue keeps the handler valid |
| `Transact.Handler.PollOnce` | src/p9_client.c:191-191 | One GetBuf between device moves returns the front completion of that moment, consumes exactly it, and notes it with the receive buffer |
| `Transact.Handler.Accepts` | src/p9_client.c:197-208 | True exactly if length, tag and size match, which is so exactly for whole replies with the tag (Transact.MatchesWhole) |
| `Transact.Handler.AwaitReply` | src/p9_client.c:190-233 | Returns the first completion noted that matches; gives up only if none noted did and after at least 4096 polls |
| `Transact.Handler.Post` | src/p9_client.c:146-178 | The request and receive buffers are queued exactly if two descriptors are free |
| `Transact.Handler.DrainOne` | src/p9_client.c:276-289 | One completion consumed and noted, or none after at least 4096 polls |
| `Transact.Handler.Drain` | src/p9_client.c:271-292 | The count is the number of chains that came back, at most two; fewer only after 4096 idle polls |
| `Transact.Handler.Cancel` | src/p9_client.c:243-293 | With two descriptors free exactly one chain is published: the flush buffer to read, nine bytes that the server understands as a Tflush of the stalled tag, and the receive buffer to write; every drained chain is off the queue |
| `Transact.Handler.Recover` | src/p9_client.c:240-319 | A reset is begun exactly if fewer than two completions were noted after the Tflush and none was under way, so always with no chain outstanding; afterwards none is outstanding unless a reset failed |
| `Transact.Handler.Send` | src/p9_client.c:142-233 | With two descriptors free exactly one chain is published, from which the device reads the request in the transmit buffer and writes the receive buffer; otherwise none. The first completion noted that matches, or none; from a quiescent queue at most the own chain is left, none after any completion |
| `Transact.Handler.Transact` | src/p9_client.c:132-322 | With two descriptors free the chain published is the request in the transmit buffer and the receive buffer. A result is the first completion noted that matches tag, size and msize, and from a quiescent queue answers the request just sent; 0 only if none noted matched; then Tflush, drain, and a reset exactly if needed, always after an own completion that did not match; quiescent again unless a reset failed; at most one reset, none inside a reset |
| `Transact.Handler.Reset` | src/virtio/virtio_init.c:404-455 | in_reset is as before; refused inside a reset; it succeeds exactly if the device comes up, the log then holds a good reply to a Tversion and after it one to a Tattach of the root with tag 1, and a pool is made; then the queue is quiescent, the next tag 2 and the pool empty |
| `Transact.Handler.NewSession` | src/virtio/virtio_init.c:412-450 | It succeeds exactly if the device comes up, both replies noted in the log are good and a pool is made; then queue, tags and pool are new |
| `Transact.Handler.Refill` | src/virtio/virtio_init.c:440-448 | A new empty pool, or none if memory is short |
| `Transact.Handler.Handshake` | src/virtio/virtio_init.c:424-437 | The server is sent a Tversion without a tag and, exactly after a good reply, a Tattach of the root with tag 1; it succeeds exactly if both replies noted are for their request, long enough and no error; the second is judged by the msize of the first; the queue stays quiescent |
| `Transact.Handler.ChooseQueue` | src/virtio/virtio_init.c:417-420 | A fresh queue with nothing outstanding |
| `Transact.Handler.Exchange` | src/p9_client.c:360-370 | The transmit buffer holds exactly the message, and the result is that of the transaction for its tag; 0 only if no completion noted matched |
| `Transact.Handler.Version` | src/p9_client.c:356-389 | The server understands a Tversion for msize 524288 without a tag; the error for every reply, 0 exactly for a good one; msize becomes the server's exactly on success; at most one reset |
| `Transact.Handler.Attach` | src/p9_client.c:391-414 | The server understands a Tattach of the fid with the next tag; the error for every reply, 0 exactly for a good one; one tag used on success; at most one reset |
| `Transact.Handler.Rest` | src/p9_client.c:132-322 | While nothing is outstanding the device can move without changing the receive buffer |
| `Transact.Handler.OneTransaction` | src/p9_client.c:132-322 | One transaction with any request, then device moves: from a quiescent queue, unless a reset failed, the queue is quiescent again and the receive buffer is as returned |
| `Transact.Handler.Transactions` | src/p9_client.c:132-322 | Over any number of transactions with any requests and a device that moves between them: unless a reset failed, the queue is quiescent between them and the receive buffer stays as returned; in_reset is false |
| `Files.ReadArrives` | src/p9_client.c:612-631 | What P9_Read takes from a conforming Rread is a prefix of the bytes asked for, empty only at the end |
| `Files.P9Read` | src/p9_client.c:587-631 | The server understands the transmit buffer as the Tread for this fid, offset and capped count; whatever it answers to what it read there, the caller's buffer changes by exactly the clamped data, and by nothing if it is an error |
| `Files.SliceJoins` | src/fuse_ops.c:309-321 | Two adjacent reads are one read |
| `Files.Read` | src/fuse_ops.c:300-322 | The whole loop, whatever the answers to the offsets and counts it asks for: it ends within as many rounds as bytes asked for, and the buffer holds their clamped data joined, never past the size |
| `Files.AnswerConforms` | src/fuse_ops.c:312-313 | What a round asks for is the bytes right after those read |
| `Files.IntakesSlice` | src/fuse_ops.c:309-321 | From a server that answers what it is asked, every state of the loop holds the file's bytes from the offset on |
| `Files.ReadExact` | src/fuse_ops.c:300-322 | From a server that answers what it is asked, exactly file[off .. min(off+size, length)] is read and its length reported, for every msize with room for data and every split; or one answer's error, with everything before it read |
| `Files.OverlayJoins` | src/fuse_ops.c:333-345 | Two adjacent writes are one write |
| `Files.P9Write` | src/p9_client.c:633-673 | The server understands the transmit buffer as the Twrite of the capped chunk at this fid and offset; the file changes by what it wrote of it; its count or error is passed on |
| `Files.Write` | src/fuse_ops.c:324-346 | The loop against any answers whatever, after any number of rounds, with its 32-bit sum |
| `Files.RunRight` | src/fuse_ops.c:333-345 | With counts in range every state of the loop has exactly the counted bytes in the file, and the loop moves on |
| `Files.WriteExact` | src/fuse_ops.c:324-346 | For every file and at every moment the file holds exactly the counted prefix, if and only if every Rwrite counts at most what its Twrite carried |
| `Files.WriteEnds` | src/fuse_ops.c:324-346 | With counts in range the loop ends within as many rounds as bytes: all written, or stopped by a count of zero or by an error, whose Twrite's own bytes are the last ones written |
| `Files.ReportsTooMuch` | src/fuse_ops.c:324-346 | One count above the buffer's length is returned as the bytes written |
| `Files.NeverEnds` | src/fuse_ops.c:324-346 | Counts that carry the 32-bit sum round to 0 keep a two-byte write going for ever |
| `Readdir.FindsPlace` | src/fuse_ops.c:217-222 | A server finds its place again from the cookie of the last entry |
| `Readdir.EntryParses` | src/fuse_ops.c:234-242 | A packed entry parses to its cookie and its name, cut at 255 bytes, and its end |
| `Readdir.ParseStep` | src/fuse_ops.c:230-243 | The loop stops exactly when no whole entry is left; otherwise it consumes exactly one |
| `Readdir.ScanPacked` | src/fuse_ops.c:228-246 | In packed entries with a rest under 24 bytes the loop finds exactly the entries, in order |
| `Readdir.Parse` | src/fuse_ops.c:228-246 | The inner loop over any bytes: what it finds goes to the filler once and in order until it stops, and the offset is that of the last entry found |
| `Readdir.FedEntries` | src/fuse_ops.c:228-246 | Feeding the next entries of the directory continues the names passed on so far, and the place |
| `Readdir.Fetch` | src/p9_client.c:791-837 | The server understands the transmit buffer as the Treaddir for this fid and offset; any answer is decoded from the receive buffer as from the message alone |
| `Readdir.Replied` | src/p9_client.c:815-837 | The data of a conforming answer is the next entries, none only at the end |
| `Readdir.ReadDirectory` | src/fuse_ops.c:201-249 | The whole loop against any answers to the offsets it asks for, after any number of rounds |
| `Readdir.RunRight` | src/fuse_ops.c:201-249 | Against a conforming server every state holds the names so far in order and the place in the directory, and every round moves on |
| `Readdir.DirectoryDelivered` | src/fuse_ops.c:201-249 | It ends: every entry once and in order, or the prefix up to where the filler stops, however replies split the directory; or the server's error, with everything before it passed on |
| `Readdir.StallExact` | src/fuse_ops.c:228-232 | A round changes nothing if and only if the reply has data but fewer than 24 bytes of it |
| `Readdir.StalledForever` | src/fuse_ops.c:217-246 | If the server goes on so, v9p_readdir never ends |
| `Stack.Call` | src/p9_client.c:587-609 | A request and its reply over the handler: the log holds bytes the server understands as the request and then, after completions only, the reply with its tag, which still lies in the receive buffer though the device moves on; nothing outstanding afterwards unless a reset failed |
| `Stack.ConversationGrows` | src/p9_client.c:132-322 | Each exchange is in the log after the one before: no reply serves two requests |
| `Stack.CopyOut` | src/p9_client.c:626-626 | Copying out of the receive buffer with the device moving between any two bytes copies the reply's data |
| `Stack.P9Read` | src/p9_client.c:587-631 | The server understands a Tread for this fid, offset and capped count; what is stored and returned is what the reply to it says, whatever the device does meanwhile |
| `Stack.ReadRound` | src/fuse_ops.c:309-319 | One round over the handler asks for the bytes right after those read, and is one round of the loop over the exchanges |
| `Stack.Read` | src/fuse_ops.c:300-322 | v9p_read over the handler is the loop over the exchanges that took place, each reply as the answer to its own request; if each is what a server of the file can answer to that request, exactly what one read gives is read; nothing outstanding afterwards unless a reset failed |
| `Stack.P9Write` | src/p9_client.c:633-673 | The server understands one Twrite for this fid and offset with the first bytes that fit; its reply's count or error is passed on |
| `Stack.AppliedMore` | src/p9_client.c:640-652 | One more request is one more overlay of the server's file, at the offset and with the data that were asked |
| `Stack.WriteRound` | src/fuse_ops.c:333-343 | One round over the handler sends the Twrite owed, and the loop's file is what the server makes of the requests asked |
| `Stack.WriteRight` | src/fuse_ops.c:324-346 | If no reply counts more than its Twrite carried, the file holds exactly the counted bytes and every round moves on |
| `Stack.Write` | src/fuse_ops.c:324-346 | v9p_write over the handler is the loop over the exchanges that took place; every Twrite was the one owed, and the file is what the server makes of them; with counts in range it holds exactly the counted bytes, and as many rounds as bytes are enough |
| `Stack.P9Readdir` | src/p9_client.c:791-837 | The data of the reply to the Treaddir for this fid and offset lies in the receive buffer, or its error is returned |
| `Stack.Parse` | src/fuse_ops.c:228-246 | Parsing in the receive buffer with the device moving between any two entries finds what the reply holds |
| `Stack.ReadDirectory` | src/fuse_ops.c:201-249 | v9p_readdir over the handler is the loop over the exchanges that took place, each reply as the answer to its own request; if each is what a server of the directory can answer, every entry is delivered once and in order, up to where the filler stops or the server fails, within one round more than entries |
| `Wire.ValueOfLe` | src/p9_marshal.c:17-44 | Reading little-endian bytes undoes writing them |
| `Wire.LeOfValue` | src/p9_marshal.c:74-103 | Writing undoes reading, for all bytes |
| `Wire.PutU8` | src/p9_marshal.c:11-15 | Exactly the little-endian bytes are appended and nothing else in the buffer changes |
| `Wire.PutU16` | src/p9_marshal.c:17-22 | Exactly the little-endian bytes are appended and nothing else in the buffer changes |
| `Wire.PutU32` | src/p9_marshal.c:24-31 | Exactly the little-endian bytes are appended and nothing else in the buffer changes |
| `Wire.PutU64` | src/p9_marshal.c:33-44 | Exactly the little-endian bytes are appended and nothing else in the buffer changes |
| `Wire.PutStr` | src/p9_marshal.c:46-52 | Length and bytes are appended, both cut to 16 bits of length, and nothing else changes |
| `Wire.PutHeader` | src/p9_marshal.c:54-59 | Type and tag follow the size field |
| `Wire.Finalize` | src/p9_marshal.c:61-65 | The size field is the total, and nothing else changes |
| `Wire.PutFields` | src/p9_marshal.c:11-52 | A sequence of puts appends the concatenated encoding |
| `Wire.GetStr` | src/p9_marshal.c:105-127 | The string fits its buffer with a NUL, and the offset stays in the message unless it was outside |
| `Wire.ReadU16` | src/p9_marshal.c:74-79 | The value of the two bytes |
| `Wire.ReadU32` | src/p9_marshal.c:81-89 | The value of the four bytes |
| `Wire.ReadStr` | src/p9_marshal.c:105-127 | The byte loop leaves the specified string and its NUL |
| `Wire.StrRoundTrip` | src/p9_marshal.c:46-127 | A string read back is the one written if and only if it is under 65536 bytes and fits the buffer; otherwise it is cut |
| `Wire.FieldRoundTrip` | src/p9_marshal.c:11-134 | The matching get returns the field put and ends where the put ended |
| `Wire.RoundTrip` | src/p9_marshal.c:11-134 | Decoding any sequence of puts with the matching gets returns the same fields |
| `Server.RequestUnderstood` | src/p9_client.c:356-994 | A server that goes by positions and type numbers reads back, from the bytes of every request the client issues, the request with all its fields and the tag; strings arrive modulo 2^16 |
| `Server.UnderstoodExactly` | src/p9_marshal.c:46-52 | A request is understood as meant if and only if its strings are under 65536 bytes |
| `Server.FrontUnderstood` | src/p9_client.c:157-157 | The same read off the front of the transmit buffer, as far as the size field says |
| `Protocol.RequestFits` | src/p9_client.c:356-994 | Every request the client issues fits P9_MSIZE |
| `Protocol.PutRequest` | src/p9_client.c:594-603 | Any request as the client builds it: the transmit buffer holds exactly its size, type, tag, fields and data, which Server.RequestUnderstood reads back; nothing behind it changes |
| `Protocol.RequestTag` | src/p9_client.c:142-142 | The tag read back from the transmit buffer is the one the request was built with |
| `Protocol.WriteLength` | src/p9_client.c:640-652 | A Twrite is exactly 23 bytes longer than its data |
| `Protocol.CapIsSmaller` | src/p9_client.c:594-596 | The cap is the smaller of the count and the room the msize leaves; below the overhead that room wraps around |
| `Protocol.CapHolds` | src/p9_client.c:594-596 | Capped counts keep every message within msize if and only if msize is at least the overhead |
| `Protocol.BufferHolds` | src/p9_client.c:594-596 | The buffers hold every capped message if and only if msize lies between the overhead and P9_MSIZE |
| `Protocol.CheckError` | src/p9_client.c:330-345 | Success exactly for non-error replies and Rlerror with code 0; positive exactly for codes above 2^31 |
| `Protocol.ErrorArrives` | src/p9_client.c:330-345 | An Rlerror message carrying n, as bytes: -n up to 2^31, 2^32 - n above, 0 for 0 |
| `Protocol.GetattrPlaces` | src/p9_client.c:698-723 | Every decoded field of an Rgetattr is the word at its place in the message: valid, mode, owner, group and the fifteen doublewords |
| `Protocol.StatfsPlaces` | src/p9_client.c:768-787 | Every decoded field of an Rstatfs is the word at its place in the message |
| `Protocol.DecodeReadsReply` | src/p9_client.c:376-384 | A decoder whose guard covers its fields depends on no byte past the reply |
| `Protocol.Guards` | src/p9_client.c:699-723 | The guards of Rversion, Rwalk, Rlopen, Rreadlink and Rgetattr cover what their decoders read; Rstatfs reads 67 bytes |
| `Protocol.PutAfterGet` | src/p9_marshal.c:67-103 | Re-encoding decoded integers gives the bytes they were read from |
| `Protocol.DecodeDetermined` | src/p9_client.c:86-89 | A decoder of integers is determined by the reply if and only if it fails or the reply is as long as what it reads |
| `Protocol.DecodeLeaks` | src/p9_client.c:773-786 | For a shorter reply that passes the guard, some other buffer with the same reply decodes differently |
| `Protocol.StatfsExact` | src/p9_client.c:753-789 | Rstatfs is determined by the reply if and only if it is an error, under 59 bytes, or at least 67 |
| `Protocol.DataReply` | src/p9_client.c:612-631 | Never more data than asked for or than the reply holds |
| `Protocol.DataReadsReply` | src/p9_client.c:612-631 | Rread and Rreaddir data depend on no byte past the reply |
| `Protocol.DataOfMessage` | src/p9_client.c:612-631 | Data is decoded from the message at the front of the buffer alone |
| `Protocol.DataArrives` | src/p9_client.c:815-837 | The data of a well-formed reply arrives unchanged |
| `Protocol.CountIsNotClamped` | src/p9_client.c:662-672 | Any 32-bit count in an Rwrite is passed on |
| `Paths.SlashSplits` | src/p9_client.c:433-456 | A slash anywhere separates: the components are those before it and those after it |
| `Paths.ComponentsProper` | src/p9_client.c:438-456 | No component is empty or longer than the path |
| `Paths.ComponentsTotal` | src/p9_client.c:438-456 | The components hold exactly the bytes of the path that are not slashes |
| `Paths.PrefixComponents` | src/fuse_ops.c:57-60 | Cutting a path keeps its components if and only if only slashes are cut off |
| `Paths.LastSlash` | include/string_utils.h:129-138 | The last slash, or -1 exactly if there is none |
| `Paths.SplitPath` | src/fuse_ops.c:39-65 | Parent and name as left in the two buffers; walking them is walking the path if and only if the last name is 1 to 255 bytes and only slashes are cut from the parent |
| `Paths.SplitExact` | src/fuse_ops.c:39-65 | The same condition, both directions, for every path |
| `Paths.Tokenise` | src/p9_client.c:416-456 | The in-place tokeniser yields exactly the non-empty components in order, and -36 exactly for 1024 bytes or more or over 16 components |
| `Paths.PutWalk` | src/p9_client.c:416-468 | The server understands the message as a Twalk that names exactly the components of the path, in order; on error the buffer is untouched |
| `Memory.Memset` | include/string_utils.h:14-41 | Exactly the n bytes become the low byte of c, for every alignment and length |
| `Memory.CopiesJoin` | include/string_utils.h:43-72 | Adjacent copies between disjoint regions are one copy |
| `Memory.CopyWords` | include/string_utils.h:55-66 | The word loops copy whole prefixes of the region |
| `Memory.Memcpy` | include/string_utils.h:43-72 | Exactly the n source bytes are copied between disjoint regions, for every alignment and length |
| `Memory.Memmove` | include/string_utils.h:74-88 | The destination gets the old source bytes for every overlap, and nothing else changes |

## Left out

- Session.Session.PathOp: stands for getattr, mkdir, unlink, rmdir, utimens, symlink, readlink and chown, which differ only in the request in the middle; what the request does at the server is not modelled.
- Session.Session.Open: stands for open, opendir and create; that Tlcreate turns the directory's fid into the new file's is not modelled.
- Session.Session.TwoWalks: stands for rename and link.
- Session.Session.Serve: stops when the pool has no fid left for the next callback; what the counter does after 2^32 - 2 fresh fids is not modelled.
- Files.Write: does not model files opened for appending, where the server chooses the offset, nor an msize outside 23 to 524288, where the Twrite does not fit the transmit buffer.
- Files.Read: does not model an msize outside 11 to 524288, where the reply does not fit the receive buffer; with 11 nothing is asked for, so Files.ReadExact asks for 12.
- Readdir.ReadDirectory: does not model names that contain NUL.
- Transact.Handler.Handshake: device status and feature negotiation only succeed or fail.
- Requests lost by the transport are processed by the server at once or never, not later.
- Fids of an earlier session that callbacks release after a reset into the new pool.
- Barriers, cache flushes and DMA mapping; the time-base register.
- Addresses and layout of the rings in memory, and the ring addresses programmed into the device.
- Notifying the device (VirtQueue_Kick), interrupts and the interrupt handler.
- Indirect descriptors and EVENT_IDX, which the handler never turns on.
- PCI discovery, register access and feature bits; start-up, DOS packets and FileSysBox set-up.
- Field-by-field copies such as p9stat_to_fbxstat, statfs conversion, and debug paths.
- statfs, fsync and ftruncate, which use a fid they neither take nor release.
- Allocations of 4 GiB or more are taken to fail, since sizes are 32 bits wide.
- p9_get_str with a buffer of size 0, which no caller uses.
- strlen, strcmp, strchr and strncpy, whose loops say no more than their definitions.
- Installer, test programs and scripts.
