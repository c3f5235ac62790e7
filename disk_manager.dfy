/**
 * The disk manager: two request queues drained by an I/O loop under a chunk
 * budget, the completion of a written block (and, when it finishes a piece,
 * the piece's verdict and its fan-out), and the completion of a read.
 */
module DiskManagers {
  import opened Optional
  import opened Entities
  import opened RateLimiting
  import opened Contributors

  /** Bytes a write request carries, the amount the write budget is charged for. */
  function WriteSize(w: WriteRequest): int { w.count }

  /** Bytes a read request asks for, the amount the read budget is charged for. */
  function ReadSize(r: ReadRequest): int { r.count }

  /** The verdict notification sent `n` times to the writing peer. */
  function Fanout(target: PeerId, valid: bool, n: nat): (r: seq<Event>)
    ensures |r| == n
    ensures forall k :: 0 <= k < n ==> r[k] == PeerHashedPiece(target, valid)
  {
    seq(n, _ => PeerHashedPiece(target, valid))
  }

  /** The log entries of block writes to piece `p`, one per index in `order`, in that order. */
  function BlockWrites(p: int, order: seq<int>): (r: seq<Event>)
    ensures |r| == |order|
    ensures forall k :: 0 <= k < |order| ==> r[k] == BlockWritten(p, order[k])
  {
    if order == [] then [] else BlockWrites(p, order[..|order| - 1]) + [BlockWritten(p, order[|order| - 1])]
  }

  /** The number of piece-hashed entries in a log, that is, how often a piece was verified. */
  function HashCount(log: seq<Event>): (n: nat)
    ensures n <= |log|
  {
    if log == [] then 0 else HashCount(log[..|log| - 1]) + (if log[|log| - 1].PieceHashed? then 1 else 0)
  }

  /** The count of piece-hashed entries is additive over concatenation. */
  lemma {:induction false} HashCountAppend(a: seq<Event>, b: seq<Event>)
    ensures HashCount(a + b) == HashCount(a) + HashCount(b)
    decreases |b|
  {
    if b == [] {
      assert a + b == a;
    } else {
      var front := b[..|b| - 1];
      assert (a + b)[..|a + b| - 1] == a + front;
      HashCountAppend(a, front);
    }
  }

  /** A log without piece-hashed entries counts zero. */
  lemma {:induction false} NoHashes(log: seq<Event>)
    requires forall k :: 0 <= k < |log| ==> !log[k].PieceHashed?
    ensures HashCount(log) == 0
  {
    if log != [] {
      NoHashes(log[..|log| - 1]);
    }
  }

  /**
   * The log a piece's writes leave: block-written entries, then one
   * piece-hashed entry and its notifications. It verifies the piece exactly once.
   */
  lemma OneHashPerCompletedPiece(p: int, order: seq<int>, verdict: bool, target: PeerId, n: nat)
    ensures HashCount(BlockWrites(p, order) + [PieceHashed(p, verdict)] + Fanout(target, verdict, n)) == 1
  {
    var writes := BlockWrites(p, order);
    var fan := Fanout(target, verdict, n);
    NoHashes(writes);
    NoHashes(fan);
    assert [PieceHashed(p, verdict)][..0] == [];
    HashCountAppend(writes, [PieceHashed(p, verdict)]);
    HashCountAppend(writes + [PieceHashed(p, verdict)], fan);
  }

  /**
   * The list of peers a completed piece's verdict goes out for: one pass over
   * the blocks, appending each peer a block was requested from unless already listed.
   */
  method CollectContributors(blocks: array<Block>) returns (peers: seq<PeerId>)
    ensures peers == ContributorsOf(blocks[..])
    ensures |peers| <= blocks.Length && NoDuplicates(peers)
    ensures forall p: PeerId :: p in peers <==> Contributed(blocks[..], p)
  {
    peers := [];
    for i := 0 to blocks.Length
      invariant peers == ContributorsOf(blocks[..i])
    {
      assert blocks[..i + 1][..i] == blocks[..i];
      var b := blocks[i];
      if b.requestedOff.Some? && b.requestedOff.value !in peers {
        peers := peers + [b.requestedOff.value];
      }
    }
    assert blocks[..blocks.Length] == blocks[..];
  }

  class DiskManager {
    /** Bytes per rate-limiter chunk (a constant of the connection manager). */
    const chunkLength: int
    /** Pending writes, front first. */
    var bufferedWrites: seq<WriteRequest>
    /** Pending reads, front first. */
    var bufferedReads: seq<ReadRequest>
    /** The rate limiter's write budget, in chunks; it may go negative. */
    var downloadChunks: int
    /** The rate limiter's read budget, in chunks; it may go negative. */
    var uploadChunks: int
    /** Whether the wait handle the I/O loop sleeps on is signalled. */
    var signaled: bool
    /** The notifications raised so far, oldest first. */
    ghost var events: seq<Event>

    ghost predicate Valid()
      reads this
    {
      chunkLength > 0 &&
      forall i :: 0 <= i < |bufferedWrites| ==> bufferedWrites[i].WellFormed()
    }

    /** A manager with empty queues, an unsignalled handle and the rate limiter's current budgets. */
    constructor (chunkLength: int, downloadChunks: int, uploadChunks: int)
      requires chunkLength > 0
      ensures Valid()
      ensures this.chunkLength == chunkLength
      ensures bufferedWrites == [] && bufferedReads == [] && !signaled && events == []
      ensures this.downloadChunks == downloadChunks && this.uploadChunks == uploadChunks
    {
      this.chunkLength := chunkLength;
      bufferedWrites := [];
      bufferedReads := [];
      this.downloadChunks := downloadChunks;
      this.uploadChunks := uploadChunks;
      signaled := false;
      events := [];
    }

    /** Number of writes waiting in the queue. */
    function QueuedWrites(): nat
      reads this
    {
      |bufferedWrites|
    }

    method SetHandleState(state: bool)
      modifies this`signaled
      ensures signaled == state
    {
      signaled := state;
    }

    /** Appends a write to the back of the write queue and wakes the I/O loop. */
    method QueueWrite(data: WriteRequest)
      requires Valid() && data.WellFormed()
      modifies this
      ensures Valid()
      ensures bufferedWrites == old(bufferedWrites) + [data] && signaled
      ensures bufferedReads == old(bufferedReads)
      ensures downloadChunks == old(downloadChunks) && uploadChunks == old(uploadChunks)
      ensures events == old(events)
    {
      bufferedWrites := bufferedWrites + [data];
      SetHandleState(true);
    }

    /** Appends a read to the back of the read queue and wakes the I/O loop. */
    method QueueRead(io: ReadRequest)
      requires Valid()
      modifies this
      ensures Valid()
      ensures bufferedReads == old(bufferedReads) + [io] && signaled
      ensures bufferedWrites == old(bufferedWrites)
      ensures downloadChunks == old(downloadChunks) && uploadChunks == old(uploadChunks)
      ensures events == old(events)
    {
      bufferedReads := bufferedReads + [io];
      SetHandleState(true);
    }

    /**
     * The part of one I/O loop iteration done under the queue lock: take at
     * most one write and one read, charge their budgets, and unsignal the
     * handle when there is nothing left or nothing could be taken.
     */
    method DequeueStep(maxWriteRate: int, maxReadRate: int) returns (write: Option<WriteRequest>, read: Option<ReadRequest>)
      requires Valid()
      modifies this
      ensures Valid()
      ensures write.Some? <==> MayDispatch(|old(bufferedWrites)|, maxWriteRate, old(downloadChunks))
      ensures read.Some? <==> MayDispatch(|old(bufferedReads)|, maxReadRate, old(uploadChunks))
      ensures var t := Take(old(bufferedWrites), old(downloadChunks), maxWriteRate, WriteSize, chunkLength);
        write == t.item && bufferedWrites == t.queue && downloadChunks == t.budget
      ensures var t := Take(old(bufferedReads), old(uploadChunks), maxReadRate, ReadSize, chunkLength);
        read == t.item && bufferedReads == t.queue && uploadChunks == t.budget
      ensures QueuedWrites() == old(QueuedWrites()) - (if write.Some? then 1 else 0)
      ensures signaled == if (bufferedWrites == [] && bufferedReads == []) || (write.None? && read.None?) then false else old(signaled)
      ensures events == old(events)
    {
      write, read := None, None;
      if |bufferedWrites| > 0 && (maxWriteRate == 0 || downloadChunks > 0) {
        write := Some(bufferedWrites[0]);
        bufferedWrites := bufferedWrites[1..];
        downloadChunks := downloadChunks + DispatchDelta(write.value.count, chunkLength);
      }
      if |bufferedReads| > 0 && (maxReadRate == 0 || uploadChunks > 0) {
        read := Some(bufferedReads[0]);
        bufferedReads := bufferedReads[1..];
        uploadChunks := uploadChunks + DispatchDelta(read.value.count, chunkLength);
      }
      if (|bufferedWrites| == 0 && |bufferedReads| == 0) || (write.None? && read.None?) {
        SetHandleState(false);
      }
    }

    /**
     * The effect of completing `data`, between the state before and after:
     * only the written block's flag changes, to true. If that finishes the
     * piece, the hash verdict is recorded, the piece's unhashed flag is
     * cleared, the writing peer is notified once per connected distinct
     * contributor and, for a valid piece, the piece is queued for
     * announcement; otherwise the torrent state is untouched.
     */
    twostate predicate WritePerformed(data: WriteRequest, verdict: bool, connected: set<PeerId>)
      requires data.WellFormed()
      reads this, data.piece.blocks, data.manager, data.manager.bitfield, data.manager.unhashedPieces
    {
      && data.piece.blocks[..] ==
           old(data.piece.blocks[..])[data.blockIndex := old(data.piece.blocks[data.blockIndex]).(written := true)]
      && (!data.piece.AllBlocksWritten() ==>
            && data.manager.bitfield[..] == old(data.manager.bitfield[..])
            && data.manager.unhashedPieces[..] == old(data.manager.unhashedPieces[..])
            && data.manager.finishedPieces == old(data.manager.finishedPieces)
            && events == old(events) + [BlockWritten(data.piece.index, data.blockIndex)])
      && (data.piece.AllBlocksWritten() ==>
            && data.manager.bitfield[..] == old(data.manager.bitfield[..])[data.pieceIndex := verdict]
            && data.manager.unhashedPieces[..] == old(data.manager.unhashedPieces[..])[data.piece.index := false]
            && data.manager.finishedPieces == old(data.manager.finishedPieces) + (if verdict then [data.piece.index] else [])
            && events == old(events) + [BlockWritten(data.piece.index, data.blockIndex), PieceHashed(data.piece.index, verdict)]
                 + Fanout(data.sender, verdict, LiveCount(ContributorsOf(data.piece.blocks[..]), connected)))
    }

    /**
     * Completes a write (see `WritePerformed`). `verdict` is the outcome of
     * hashing the piece; `connected` holds the peers whose connection is live.
     */
    method PerformWrite(data: WriteRequest, verdict: bool, connected: set<PeerId>)
      requires data.WellFormed()
      modifies data.piece.blocks, data.manager.bitfield, data.manager.unhashedPieces, data.manager`finishedPieces, this`events
      ensures WritePerformed(data, verdict, connected)
    {
      var piece := data.piece;
      var torrent := data.manager;
      var index := data.blockIndex;

      piece.blocks[index] := piece.blocks[index].(written := true);
      events := events + [BlockWritten(piece.index, index)];

      if !piece.AllBlocksWritten() {
        return;
      }

      torrent.bitfield[data.pieceIndex] := verdict;
      torrent.unhashedPieces[piece.index] := false;
      events := events + [PieceHashed(piece.index, verdict)];

      var peers := CollectContributors(piece.blocks);
      NotifyContributors(peers, data.sender, verdict, connected);

      if verdict {
        torrent.finishedPieces := torrent.finishedPieces + [piece.index];
      }
    }

    /**
     * The fan-out loop: for each listed peer whose connection is live, the
     * verdict is reported to `target`, the peer that sent the completing block.
     */
    method NotifyContributors(peers: seq<PeerId>, target: PeerId, verdict: bool, connected: set<PeerId>)
      modifies this`events
      ensures events == old(events) + Fanout(target, verdict, LiveCount(peers, connected))
    {
      for i := 0 to |peers|
        invariant events == old(events) + Fanout(target, verdict, LiveCount(peers[..i], connected))
      {
        assert peers[..i + 1][..i] == peers[..i];
        if peers[i] in connected {
          ghost var n := LiveCount(peers[..i], connected);
          assert Fanout(target, verdict, n + 1) == Fanout(target, verdict, n) + [PeerHashedPiece(target, verdict)];
          events := events + [PeerHashedPiece(target, verdict)];
        }
      }
      assert peers[..|peers|] == peers;
    }

    /** Completes a read: stores the byte count the storage returned and signals the waiting caller. */
    method PerformRead(io: ReadRequest, bytesRead: int)
      modifies io
      ensures io.bytesRead == bytesRead && io.completed
    {
      io.bytesRead := bytesRead;
      io.completed := true;
    }

    /**
     * One iteration of the I/O loop: the dequeue step, then the write and the
     * read it took, if any. The hash verdict, the byte count the storage
     * returns and the set of connected peers are inputs.
     */
    method RunIOIteration(maxWriteRate: int, maxReadRate: int, verdict: bool, bytesRead: int, connected: set<PeerId>)
      requires Valid()
      modifies this
      modifies if bufferedWrites != [] then bufferedWrites[0].Footprint() else {}
      modifies if bufferedReads != [] then {bufferedReads[0]} else {}
      ensures Valid()
      ensures var t := Take(old(bufferedWrites), old(downloadChunks), maxWriteRate, WriteSize, chunkLength);
        bufferedWrites == t.queue && downloadChunks == t.budget
      ensures var t := Take(old(bufferedReads), old(uploadChunks), maxReadRate, ReadSize, chunkLength);
        bufferedReads == t.queue && uploadChunks == t.budget
      ensures signaled ==
        if (bufferedWrites == [] && bufferedReads == []) ||
           (!MayDispatch(|old(bufferedWrites)|, maxWriteRate, old(downloadChunks)) &&
            !MayDispatch(|old(bufferedReads)|, maxReadRate, old(uploadChunks)))
        then false else old(signaled)
      ensures MayDispatch(|old(bufferedWrites)|, maxWriteRate, old(downloadChunks)) ==>
        WritePerformed(old(bufferedWrites[0]), verdict, connected)
      ensures !MayDispatch(|old(bufferedWrites)|, maxWriteRate, old(downloadChunks)) ==>
        events == old(events) && (old(bufferedWrites) != [] ==> unchanged(old(bufferedWrites[0]).Footprint()))
      ensures MayDispatch(|old(bufferedReads)|, maxReadRate, old(uploadChunks)) ==>
        old(bufferedReads[0]).bytesRead == bytesRead && old(bufferedReads[0]).completed
      ensures !MayDispatch(|old(bufferedReads)|, maxReadRate, old(uploadChunks)) && old(bufferedReads) != [] ==>
        unchanged(old(bufferedReads[0]))
    {
      var write, read := DequeueStep(maxWriteRate, maxReadRate);
      if write.Some? {
        PerformWrite(write.value, verdict, connected);
      }
      if read.Some? {
        PerformRead(read.value, bytesRead);
      }
    }
  }

  /** `order` lists every index below `n` exactly once. */
  predicate IsPermutation(order: seq<int>, n: int) {
    && |order| == n
    && (forall k :: 0 <= k < |order| ==> 0 <= order[k] < n)
    && (forall k, l :: 0 <= k < l < |order| ==> order[k] != order[l])
    && (forall j :: 0 <= j < n ==> j in order)
  }

  /** The blocks after writes to the indices in `written`, in order: each marks its block written. */
  ghost function MarkWritten(blocks: seq<Block>, written: seq<int>): (r: seq<Block>)
    ensures |r| == |blocks|
  {
    if written == [] then blocks
    else
      var before := MarkWritten(blocks, written[..|written| - 1]);
      var j := written[|written| - 1];
      if 0 <= j < |before| then before[j := before[j].(written := true)] else before
  }

  /** After writes to the indices in `written`, a block is written iff it was before or was written to. */
  lemma {:induction false} MarkWrittenAt(blocks: seq<Block>, written: seq<int>, j: int)
    requires 0 <= j < |blocks|
    ensures MarkWritten(blocks, written)[j] == blocks[j].(written := blocks[j].written || j in written)
  {
    if written != [] {
      var front := written[..|written| - 1];
      MarkWrittenAt(blocks, front, j);
      assert written == front + [written[|written| - 1]];
    }
  }

  /** Regrouping the concatenations of a log. */
  lemma Regroup<T>(a: seq<T>, b: seq<T>, x: T, y: T, c: seq<T>)
    ensures a + b + [x, y] + c == a + (b + [x] + [y] + c)
  {
    assert [x, y] == [x] + [y];
  }

  /** The log of all writes but the last, followed by the last one's entries, is the log of all writes. */
  lemma CompletionLog(log: seq<Event>, p: int, order: seq<int>, verdict: bool, fan: seq<Event>)
    requires |order| > 0
    ensures log + BlockWrites(p, order[..|order| - 1]) + [BlockWritten(p, order[|order| - 1]), PieceHashed(p, verdict)] + fan
         == log + (BlockWrites(p, order) + [PieceHashed(p, verdict)] + fan)
  {
    var front := BlockWrites(p, order[..|order| - 1]);
    assert BlockWrites(p, order) == front + [BlockWritten(p, order[|order| - 1])];
    Regroup(log, front, BlockWritten(p, order[|order| - 1]), PieceHashed(p, verdict), fan);
  }

  /**
   * A write while block `pending` is still unwritten: it cannot complete the
   * piece, so it only marks its own block and logs it.
   */
  method WriteIncomplete(disk: DiskManager, data: WriteRequest, verdict: bool, connected: set<PeerId>, pending: int)
    requires data.WellFormed() && 0 <= pending < data.piece.blocks.Length && pending != data.blockIndex
    requires !data.piece.blocks[pending].written
    modifies data.piece.blocks, data.manager.bitfield, data.manager.unhashedPieces, data.manager`finishedPieces, disk`events
    ensures data.piece.blocks[..] ==
      old(data.piece.blocks[..])[data.blockIndex := old(data.piece.blocks[data.blockIndex]).(written := true)]
    ensures data.manager.bitfield[..] == old(data.manager.bitfield[..])
    ensures data.manager.unhashedPieces[..] == old(data.manager.unhashedPieces[..])
    ensures data.manager.finishedPieces == old(data.manager.finishedPieces)
    ensures disk.events == old(disk.events) + [BlockWritten(data.piece.index, data.blockIndex)]
  {
    disk.PerformWrite(data, verdict, connected);
    assert !data.piece.blocks[pending].written;
  }

  /**
   * All writes of `WriteWholePiece` but the last: each leaves some block
   * unwritten, so none completes the piece and each only logs its block.
   */
  method WriteAllButLast(disk: DiskManager, manager: TorrentManager, piece: Piece, pieceIndex: int,
                         order: seq<int>, senders: seq<PeerId>, count: int, verdict: bool, connected: set<PeerId>)
    requires IsPermutation(order, piece.blocks.Length) && |order| > 0 && |senders| == |order|
    requires forall j :: 0 <= j < piece.blocks.Length ==> !piece.blocks[j].written
    requires 0 <= pieceIndex < manager.bitfield.Length && 0 <= piece.index < manager.unhashedPieces.Length
    requires manager.bitfield != manager.unhashedPieces
    modifies disk`events, piece.blocks, manager.bitfield, manager.unhashedPieces, manager`finishedPieces
    ensures piece.blocks[..] == MarkWritten(old(piece.blocks[..]), order[..|order| - 1])
    ensures manager.bitfield[..] == old(manager.bitfield[..])
    ensures manager.unhashedPieces[..] == old(manager.unhashedPieces[..])
    ensures manager.finishedPieces == old(manager.finishedPieces)
    ensures disk.events == old(disk.events) + BlockWrites(piece.index, order[..|order| - 1])
  {
    var n := |order|;
    for i := 0 to n - 1
      invariant piece.blocks[..] == MarkWritten(old(piece.blocks[..]), order[..i])
      invariant manager.bitfield[..] == old(manager.bitfield[..])
      invariant manager.unhashedPieces[..] == old(manager.unhashedPieces[..])
      invariant manager.finishedPieces == old(manager.finishedPieces)
      invariant disk.events == old(disk.events) + BlockWrites(piece.index, order[..i])
    {
      assert order[..i + 1][..i] == order[..i];
      assert order[n - 1] !in order[..i];
      MarkWrittenAt(old(piece.blocks[..]), order[..i], order[n - 1]);
      WriteIncomplete(disk, WriteRequest(senders[i], manager, piece, pieceIndex, order[i], count), verdict, connected, order[n - 1]);
      assert BlockWrites(piece.index, order[..i + 1]) == BlockWrites(piece.index, order[..i]) + [BlockWritten(piece.index, order[i])];
    }
  }

  /**
   * Every block of a piece whose blocks are all unwritten is written once, in
   * the order `order`, the k-th write coming from `senders[k]`. Only the last
   * write completes the piece: the log holds one block-written entry per
   * write, then a single piece-hashed entry with its notifications to the last
   * sender, and the piece is queued for announcement at most once.
   */
  method WriteWholePiece(disk: DiskManager, manager: TorrentManager, piece: Piece, pieceIndex: int,
                         order: seq<int>, senders: seq<PeerId>, count: int, verdict: bool, connected: set<PeerId>)
    requires IsPermutation(order, piece.blocks.Length) && |order| > 0 && |senders| == |order|
    requires forall j :: 0 <= j < piece.blocks.Length ==> !piece.blocks[j].written
    requires 0 <= pieceIndex < manager.bitfield.Length && 0 <= piece.index < manager.unhashedPieces.Length
    requires manager.bitfield != manager.unhashedPieces
    modifies disk`events, piece.blocks, manager.bitfield, manager.unhashedPieces, manager`finishedPieces
    ensures forall j :: 0 <= j < piece.blocks.Length ==> piece.blocks[j] == old(piece.blocks[j]).(written := true)
    ensures manager.bitfield[..] == old(manager.bitfield[..])[pieceIndex := verdict]
    ensures manager.unhashedPieces[..] == old(manager.unhashedPieces[..])[piece.index := false]
    ensures manager.finishedPieces == old(manager.finishedPieces) + (if verdict then [piece.index] else [])
    ensures disk.events == old(disk.events) + (BlockWrites(piece.index, order) + [PieceHashed(piece.index, verdict)]
      + Fanout(senders[|senders| - 1], verdict, LiveCount(ContributorsOf(piece.blocks[..]), connected)))
    ensures HashCount(disk.events) == HashCount(old(disk.events)) + 1
  {
    var n := |order|;
    ghost var initial := piece.blocks[..];
    WriteAllButLast(disk, manager, piece, pieceIndex, order, senders, count, verdict, connected);
    disk.PerformWrite(WriteRequest(senders[n - 1], manager, piece, pieceIndex, order[n - 1], count), verdict, connected);
    assert piece.blocks[..] == MarkWritten(initial, order);
    forall j | 0 <= j < n
      ensures piece.blocks[j] == initial[j].(written := true)
    {
      MarkWrittenAt(initial, order, j);
      assert j in order;
    }
    assert piece.AllBlocksWritten();
    ghost var fan := Fanout(senders[n - 1], verdict, LiveCount(ContributorsOf(piece.blocks[..]), connected));
    CompletionLog(old(disk.events), piece.index, order, verdict, fan);
    OneHashPerCompletedPiece(piece.index, order, verdict, senders[n - 1],
      LiveCount(ContributorsOf(piece.blocks[..]), connected));
    HashCountAppend(old(disk.events), BlockWrites(piece.index, order) + [PieceHashed(piece.index, verdict)] + fan);
  }

  /** The contributor list of two blocks requested from two different peers. */
  lemma TwoContributors(blocks: seq<Block>, first: PeerId, second: PeerId)
    requires first != second && |blocks| == 2
    requires blocks[0].requestedOff == Some(first) && blocks[1].requestedOff == Some(second)
    ensures ContributorsOf(blocks) == [first, second]
  {
    assert blocks[..1][..0] == [];
    assert ContributorsOf(blocks[..1]) == [first];
  }

  /** Two different peers, both connected, receive two notifications. */
  lemma TwoLive(first: PeerId, second: PeerId)
    requires first != second
    ensures LiveCount([first, second], {first, second}) == 2
  {
  }

  /**
   * A piece of two unwritten blocks requested from two different peers,
   * written out of order: block 1 by `second`, then block 0 by `first`. The
   * piece is hashed once, at the second write, a valid verdict is recorded and
   * the piece queued for announcement, and the verdict is reported twice, both
   * times to `first`, the peer that sent the completing block.
   */
  method TwoBlockPieceCompletion(disk: DiskManager, torrent: TorrentManager, piece: Piece,
                                 first: PeerId, second: PeerId, chunkLength: int)
    requires first != second && piece.index == 0 && piece.blocks.Length == 2
    requires piece.blocks[0] == Block(false, Some(first)) && piece.blocks[1] == Block(false, Some(second))
    requires torrent.bitfield.Length == 1 && torrent.unhashedPieces.Length == 1
    requires torrent.bitfield != torrent.unhashedPieces && torrent.finishedPieces == []
    modifies disk`events, piece.blocks, torrent.bitfield, torrent.unhashedPieces, torrent`finishedPieces
    ensures piece.blocks[0] == Block(true, Some(first)) && piece.blocks[1] == Block(true, Some(second))
    ensures torrent.bitfield[0] && !torrent.unhashedPieces[0] && torrent.finishedPieces == [0]
    ensures disk.events == old(disk.events) + (BlockWrites(0, [1, 0]) + [PieceHashed(0, true)] + Fanout(first, true, 2))
    ensures HashCount(disk.events) == HashCount(old(disk.events)) + 1
  {
    assert 0 in [1, 0] && 1 in [1, 0];
    WriteWholePiece(disk, torrent, piece, 0, [1, 0], [second, first], chunkLength, true, {first, second});
    TwoContributors(piece.blocks[..], first, second);
    TwoLive(first, second);
  }

  /**
   * A write budget of one chunk and a request of five: the request is still
   * dispatched, the budget goes to minus four, and the next request waits
   * while the limit is on, with the handle unsignalled.
   */
  method OversizedWriteDispatch(big: WriteRequest, next: WriteRequest, chunkLength: int)
    requires big.WellFormed() && next.WellFormed() && chunkLength > 0
    requires big.count == 5 * chunkLength
  {
    var disk := new DiskManager(chunkLength, 1, 0);
    disk.QueueWrite(big);
    disk.QueueWrite(next);
    DispatchDeltaIsWholeChunks(big.count, chunkLength);
    assert big.count / chunkLength == 5;

    var write, read := disk.DequeueStep(100, 0);
    assert write == Some(big) && read.None?;
    assert disk.downloadChunks == -4;
    assert disk.bufferedWrites == [next] && disk.signaled;

    write, read := disk.DequeueStep(100, 0);
    assert write.None? && read.None?;
    assert disk.bufferedWrites == [next] && disk.downloadChunks == -4 && !disk.signaled;
  }

  /** A write that completes a piece adds exactly one piece-hashed entry to the log. */
  lemma CompletingWriteHashesOnce(log: seq<Event>, p: int, block: int, verdict: bool, fan: seq<Event>)
    requires forall k :: 0 <= k < |fan| ==> !fan[k].PieceHashed?
    ensures HashCount(log + [BlockWritten(p, block), PieceHashed(p, verdict)] + fan) == HashCount(log) + 1
  {
    var entries := [BlockWritten(p, block), PieceHashed(p, verdict)];
    assert entries[..1][..0] == [] && entries[..1] == [BlockWritten(p, block)];
    NoHashes(fan);
    HashCountAppend(log, entries);
    HashCountAppend(log + entries, fan);
  }

  /**
   * Writing the only block of a one-block piece twice: the piece is complete
   * after each write, so it is hashed twice and a valid piece is queued for
   * announcement twice.
   */
  method RepeatedWriteRehashes(disk: DiskManager, torrent: TorrentManager, piece: Piece, sender: PeerId, chunkLength: int)
    requires piece.index == 0 && piece.blocks.Length == 1
    requires torrent.bitfield.Length == 1 && torrent.unhashedPieces.Length == 1
    requires torrent.bitfield != torrent.unhashedPieces
    modifies disk`events, piece.blocks, torrent.bitfield, torrent.unhashedPieces, torrent`finishedPieces
    ensures torrent.finishedPieces == old(torrent.finishedPieces) + [0, 0]
    ensures HashCount(disk.events) == HashCount(old(disk.events)) + 2
  {
    var write := WriteRequest(sender, torrent, piece, 0, 0, chunkLength);

    ghost var log0 := disk.events;
    disk.PerformWrite(write, true, {});
    assert piece.AllBlocksWritten();
    ghost var fan1 := Fanout(sender, true, LiveCount(ContributorsOf(piece.blocks[..]), {}));
    CompletingWriteHashesOnce(log0, 0, 0, true, fan1);

    ghost var log1 := disk.events;
    disk.PerformWrite(write, true, {});
    assert piece.AllBlocksWritten();
    ghost var fan2 := Fanout(sender, true, LiveCount(ContributorsOf(piece.blocks[..]), {}));
    CompletingWriteHashesOnce(log1, 0, 0, true, fan2);
  }
}
