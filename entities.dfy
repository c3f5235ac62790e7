/**
 * The objects the disk manager works on: pieces and their blocks, the torrent
 * state it updates once a piece is hashed, and the two kinds of queued request.
 */
module Entities {
  import opened Optional

  /**
   * Identity of a remote peer. The source compares peers with `Equals`
   * (`List.Contains`); equality of `PeerId` stands for that.
   */
  type PeerId = nat

  /** One block of a piece: whether it is on disk and which peer it was requested from. */
  datatype Block = Block(written: bool, requestedOff: Option<PeerId>)

  /** A piece: its index in the torrent and its blocks, updated in place. */
  class Piece {
    const index: int
    const blocks: array<Block>

    constructor (index: int, blocks: array<Block>)
      ensures this.index == index && this.blocks == blocks
    {
      this.index := index;
      this.blocks := blocks;
    }

    /** Piece.AllBlocksWritten: every block of the piece is on disk. */
    predicate AllBlocksWritten()
      reads blocks
    {
      forall i :: 0 <= i < blocks.Length ==> blocks[i].written
    }
  }

  /** The part of a torrent's state that a completed piece updates. */
  class TorrentManager {
    /** Which pieces the client has and has verified. */
    const bitfield: array<bool>
    /** Pieces whose blocks are being received but which are not yet hashed. */
    const unhashedPieces: array<bool>
    /** Indices of verified pieces still to be announced ("have" messages). */
    var finishedPieces: seq<int>

    constructor (bitfield: array<bool>, unhashedPieces: array<bool>)
      requires bitfield != unhashedPieces
      ensures this.bitfield == bitfield && this.unhashedPieces == unhashedPieces
      ensures finishedPieces == []
    {
      this.bitfield := bitfield;
      this.unhashedPieces := unhashedPieces;
      finishedPieces := [];
    }
  }

  /**
   * A queued write (PieceData): the sending peer, its torrent, the piece the
   * block belongs to, the piece index the message carried, the block index and
   * the number of bytes in the receive buffer.
   */
  datatype WriteRequest = WriteRequest(
    sender: PeerId,
    manager: TorrentManager,
    piece: Piece,
    pieceIndex: int,
    blockIndex: int,
    count: int)
  {
    /** The indices PerformWrite uses are in range, and the two bitfields are distinct objects. */
    predicate WellFormed() {
      0 <= blockIndex < piece.blocks.Length &&
      0 <= pieceIndex < manager.bitfield.Length &&
      0 <= piece.index < manager.unhashedPieces.Length &&
      manager.bitfield != manager.unhashedPieces
    }

    /** The objects PerformWrite may update for this request. */
    function Footprint(): set<object> {
      {piece.blocks, manager.bitfield, manager.unhashedPieces, manager}
    }
  }

  /**
   * A queued read (BufferedFileRead): where to read from and how many bytes,
   * plus the result slot and the completion signal the waiting caller blocks on.
   */
  class ReadRequest {
    const bufferOffset: int
    const pieceStartIndex: int
    const count: int
    var bytesRead: int
    var completed: bool

    constructor (bufferOffset: int, pieceStartIndex: int, count: int)
      ensures this.bufferOffset == bufferOffset && this.pieceStartIndex == pieceStartIndex
      ensures this.count == count && bytesRead == 0 && !completed
    {
      this.bufferOffset := bufferOffset;
      this.pieceStartIndex := pieceStartIndex;
      this.count := count;
      bytesRead := 0;
      completed := false;
    }
  }

  /** Notifications raised while a write completes. */
  datatype Event =
    | BlockWritten(piece: int, block: int)
    | PieceHashed(piece: int, valid: bool)
    | PeerHashedPiece(peer: PeerId, valid: bool)
}
