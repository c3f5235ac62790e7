# MonoTorrent disk manager, modelled in Dafny

This project models the sequential decision logic of MonoTorrent's `DiskManager`
(`src/MonoTorrent/MonoTorrent.Client/Managers/DiskManager.cs`). The disk manager is the
client's disk-I/O subsystem:

- Network code queues block writes (`QueueWrite`) and chunk reads (`QueueRead`) on two
  FIFO queues and signals a wait handle.
- A dedicated I/O loop (`RunIO`) takes at most one write and one read per iteration.
  A queue may hand out its front request only when its rate limit is off (0) or its
  rate-limiter chunk budget is positive. Dispatching charges the budget
  `-Count / ChunkLength` chunks, and the budget may go negative.
- `PerformWrite` marks the written block. If all blocks are written afterwards, it records the
  hash verdict in the torrent's bitfield and clears the piece's "unhashed" flag. It then
  builds the deduplicated list of peers the blocks were requested from and reports the
  verdict once per connected entry. A valid piece is queued for a "have" announcement.
- `PerformRead` stores the byte count the storage returned and wakes the waiting caller.

Files:

- `optional.dfy`: `Option`, standing for the source's nullable references.
- `entities.dfy`: blocks, `Piece`, the torrent state a completed piece updates
  (`TorrentManager`), the queued `WriteRequest` (`PieceData`) and `ReadRequest`
  (`BufferedFileRead`), and the notifications raised.
- `rate_limiting.dfy`: the dispatch rule for one queue (`Take`), C#'s truncating
  division, and lemmas about several loop iterations (`Run`): FIFO order, at most one
  request per iteration, budget accounting, the one-request overshoot, stalling without
  budget, draining when unlimited.
- `contributors.dfy`: the contributor list (`ContributorsOf`) and its characterisation.
  It holds exactly the peers blocks were requested from, without repeats, in
  first-occurrence order, and is unique with these properties. Also the count of
  verdict notifications (`LiveCount`).
- `disk_manager.dfy`: the `DiskManager` class. Its fields are the two queues (`seq`),
  the two budgets, the wait-handle state and a ghost log of notifications. Its methods
  are the queue operations, the dequeue step, one loop iteration, `PerformWrite` and
  `PerformRead`. `WriteWholePiece` performs one write per block of a piece, in any
  order. Client methods follow the scenarios of a two-block piece written out of order,
  an oversized write under a small budget, and a block written twice.

Modelling choices:

- The hash verdict, the byte count returned by the storage backend and the set of peers
  whose `Connection` is non-null are inputs to the methods.
- Peers are identified by a number (`PeerId`). The source compares them with `Equals`
  (`List.Contains`, line 149); equality of `PeerId` stands for that.
- Line 142 indexes the bitfield with `data.PieceIndex`, while lines 144 and 160 use
  `piece.Index`. The model keeps both values, and `PerformWrite` uses each where the
  code does.
- `-write.Buffer.Count / ConnectionManager.ChunkLength` negates first and then divides
  with truncation toward zero (`RateLimiting.DispatchDelta`). A request shorter than
  one chunk therefore costs no budget (`DispatchDeltaIsWholeChunks`).

Points where the code does something other than its surrounding code suggests; the model
follows the code:

- The notification loop locks and tests each contributor in turn (lines 153-154), but
  line 155 always reports the verdict to `id.Peer`, the peer that sent the completing
  block. The writing peer thus gets one report per connected distinct contributor,
  and the other contributors get none.
  `NotifyContributors` and `PerformWrite` log the notifications that way.
- Lines 137-160 test only whether all blocks are written after the write, not whether
  this write was the one that completed the piece. A second write to a block of a
  complete piece hashes the piece again and, for a valid piece, queues it for
  announcement again (`RepeatedWriteRehashes`).
- Line 239 unsignals the handle when both queues are empty after the dequeue, or when
  nothing was dequeued. The first case also applies when work was taken.
- No exception from a write is caught or reported; a failing backend call is not part
  of this model.

## Model

| member | source | states |
|---|---|---|
| `DiskManagers.DiskManager.constructor` | src/MonoTorrent/MonoTorrent.Client/Managers/DiskManager.cs:76-90 | Both queues start empty, the wait handle unsignalled, the log empty. The budgets are the rate limiter's. |
| `DiskManagers.DiskManager.SetHandleState` | src/MonoTorrent/MonoTorrent.Client/Managers/DiskManager.cs:259-265 | The handle is signalled exactly when asked to set it. |
| `DiskManagers.DiskManager.QueueWrite` | src/MonoTorrent/MonoTorrent.Client/Managers/DiskManager.cs:189-196 | The write is appended at the back of the write queue and the handle is signalled. The read queue, both budgets and the log are unchanged. |
| `DiskManagers.DiskManager.QueueRead` | src/MonoTorrent/MonoTorrent.Client/Managers/DiskManager.cs:199-206 | The read is appended at the back of the read queue and the handle is signalled. The write queue, both budgets and the log are unchanged. |
| `RateLimiting.Take` | src/MonoTorrent/MonoTorrent.Client/Managers/DiskManager.cs:225-235 | A request is taken iff the queue is non-empty and the limit is 0 or the budget positive. The taken request is the old front, the rest is the old tail in order, and the budget drops by the request's truncated chunk cost. Otherwise queue and budget are unchanged. |
| `DiskManagers.DiskManager.DequeueStep` | src/MonoTorrent/MonoTorrent.Client/Managers/DiskManager.cs:223-241 | Each queue and budget changes as `Take` says, for writes with `MaxWriteRate`/`DownloadChunks` and for reads with `MaxReadRate`/`UploadChunks`. `QueuedWrites` (lines 46-49) drops by one exactly when a write is taken. The handle is cleared iff both queues are now empty or nothing was taken, and otherwise keeps its state. |
| `RateLimiting.DispatchDeltaIsWholeChunks` | src/MonoTorrent/MonoTorrent.Client/Managers/DiskManager.cs:228-234 | For a non-negative count the charge is minus the whole chunks in it. It is zero below one chunk and negative from one chunk on. |
| `RateLimiting.RunKeepsOrder` | src/MonoTorrent/MonoTorrent.Client/Managers/DiskManager.cs:216-235 | Over any number of iterations, the dispatched requests followed by those left equal the original queue (FIFO). |
| `RateLimiting.RunDispatchesAtMostOnePerIteration` | src/MonoTorrent/MonoTorrent.Client/Managers/DiskManager.cs:216-235 | No more requests are dispatched from one queue than iterations ran. |
| `RateLimiting.RunBudget` | src/MonoTorrent/MonoTorrent.Client/Managers/DiskManager.cs:225-235 | The final budget is the initial one plus the charges of exactly the dispatched requests. |
| `RateLimiting.RunOvershootsByAtMostOne` | src/MonoTorrent/MonoTorrent.Client/Managers/DiskManager.cs:225-235 | With the limit on throughout, all dispatched requests but the last are covered by the initial budget, so only one request can overshoot it. |
| `RateLimiting.RunStallsWithoutBudget` | src/MonoTorrent/MonoTorrent.Client/Managers/DiskManager.cs:225-235 | With the limit on and no positive budget, no iteration dispatches anything and queue and budget stay as they were. |
| `RateLimiting.RunUnlimitedDrains` | src/MonoTorrent/MonoTorrent.Client/Managers/DiskManager.cs:225-235 | With the limit off, k iterations dispatch exactly the first min(k, queue length) requests, in order. |
| `DiskManagers.DiskManager.PerformWrite` | src/MonoTorrent/MonoTorrent.Client/Managers/DiskManager.cs:116-161 | Stated by `WritePerformed`: only the written block's flag changes, to true. If the piece is still incomplete, the bitfield, unhashed flags and announce queue are unchanged. Otherwise `Bitfield[data.PieceIndex]` is the verdict, `UnhashedPieces[piece.Index]` is false, and `piece.Index` is appended to the announce queue iff the verdict is valid. The log gains the block-written event, the piece-hashed event and one notification to the writing peer per connected contributor. |
| `DiskManagers.CollectContributors` | src/MonoTorrent/MonoTorrent.Client/Managers/DiskManager.cs:147-150 | The loop's list is `ContributorsOf` the blocks: no repeats, no longer than the blocks, and holding exactly the peers some block was requested from. |
| `Contributors.ContributorsOf` | src/MonoTorrent/MonoTorrent.Client/Managers/DiskManager.cs:147-150 | The list has no repeats, is no longer than the block array, and contains a peer iff some block was requested from it. |
| `Contributors.ContributorsInFirstOccurrenceOrder` | src/MonoTorrent/MonoTorrent.Client/Managers/DiskManager.cs:147-150 | The list is ordered strictly by each peer's first block. |
| `Contributors.ContributorsCharacterised` | src/MonoTorrent/MonoTorrent.Client/Managers/DiskManager.cs:147-150 | Any list holding exactly the contributing peers in first-occurrence order is the contributor list. |
| `DiskManagers.DiskManager.NotifyContributors` | src/MonoTorrent/MonoTorrent.Client/Managers/DiskManager.cs:152-155 | The log gains `LiveCount` notifications of the verdict, all addressed to the writing peer, and nothing else. |
| `Contributors.LiveCount` | src/MonoTorrent/MonoTorrent.Client/Managers/DiskManager.cs:152-155 | The number of notifications never exceeds the number of listed peers. |
| `Contributors.LiveCountOfDistinct` | src/MonoTorrent/MonoTorrent.Client/Managers/DiskManager.cs:152-155 | On a list without repeats, the count equals the number of distinct connected peers in it. |
| `Contributors.NotificationsPerLiveContributor` | src/MonoTorrent/MonoTorrent.Client/Managers/DiskManager.cs:147-155 | A completed piece produces one notification per distinct connected contributor, however many blocks each supplied. |
| `DiskManagers.WriteWholePiece` | src/MonoTorrent/MonoTorrent.Client/Managers/DiskManager.cs:129-160 | Starting from a piece whose blocks are all unwritten, one write per block in any order (a permutation of the block indices) leaves every block written. The log holds one block-written entry per write in write order, then a single piece-hashed entry and the last writer's notifications. The log gains exactly one piece-hashed entry, the verdict is recorded once and the piece is queued for announcement at most once. A piece has at least one block. |
| `DiskManagers.OneHashPerCompletedPiece` | src/MonoTorrent/MonoTorrent.Client/Managers/DiskManager.cs:137-146 | Block-written entries followed by one piece-hashed entry and notifications contain exactly one piece-hashed entry. |
| `DiskManagers.TwoBlockPieceCompletion` | src/MonoTorrent/MonoTorrent.Client/Managers/DiskManager.cs:129-160 | Two blocks requested from two different peers, written out of order: both end up written, the valid verdict is recorded, the piece is announced once, hashed once, and reported twice, both times to the peer that sent the completing block. |
| `DiskManagers.RepeatedWriteRehashes` | src/MonoTorrent/MonoTorrent.Client/Managers/DiskManager.cs:137-160 | Writing the only block of a one-block piece twice hashes the piece twice and queues it for announcement twice. |
| `DiskManagers.DiskManager.PerformRead` | src/MonoTorrent/MonoTorrent.Client/Managers/DiskManager.cs:168-173 | The request's `BytesRead` is the storage's count and its completion is signalled. |
| `DiskManagers.DiskManager.RunIOIteration` | src/MonoTorrent/MonoTorrent.Client/Managers/DiskManager.cs:216-251 | One loop iteration leaves queues and budgets as `Take` says. The handle is cleared iff both queues are now empty or nothing was taken, and otherwise keeps its state. A taken write has the whole effect of `PerformWrite` (`WritePerformed`: block flag, bitfield, unhashed flag, announce queue and log). A taken read holds the byte count and is signalled. A write or read that is not taken leaves its piece, torrent state or request unchanged, and without a taken write the log is unchanged. |

## Left out

- The dedicated thread, `Thread.Start`/`Join`, the `lock` statements, the atomicity of `Interlocked.Add` and the 100 ms timed wait (lines 82-89, 105-107, 250) are concurrency. One iteration is modelled as a sequential method and the wait handle as a boolean.
- The `while (ioActive)` loop itself and `Dispose` (lines 103-109, 216): only single iterations are modelled. The `Run` lemmas describe sequences of iterations without enqueues in between.
- `PieceWriter` calls (`Write`, `ReadChunk`, `Flush`, `CloseFileStreams`, `Dispose`, and the direct `Read` at lines 176-180) go to a storage backend that is not part of this model. A write changes no model state, and `ReadChunk`'s result is an input.
- Hash computation (`FileManager.GetHash`, `Torrent.Pieces.IsValid`, line 141) is cryptography in other classes; the verdict is an input.
- Event raising (`RaiseBlockWritten`, `TorrentManager.HashedPiece`, `Peer.HashedPiece`) is recorded as entries in a ghost log, without the event-argument objects.
- `ConnectionMonitor` statistics (`ReadRate`, `WriteRate`, `TotalRead`, `TotalWritten`, lines 51-69) are speeds and totals kept by another class.
- The rate limiter's replenishment happens outside this class; budgets change here only by dispatch, and the constructor takes them as given. `ConnectionManager.ChunkLength` is a positive constant of the model.
- The contents of buffers and the `BufferedFileRead` fields that only the backend reads (manager, buffer) are not modelled.
- `DiskManagers.DiskManager.DequeueStep`: the budgets are unbounded integers, so the 32-bit wrap-around of `Interlocked.Add` on an `int` after about 2^31 chunks of debt is not modelled.
- `DiskManagers.DiskManager.QueueWrite`: requires a well-formed request (block, piece and bitfield indices in range, distinct bitfield objects). The source accepts any request and would throw on the I/O thread later, which the model does not capture.
