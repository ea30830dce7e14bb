/**
 * Blocks and pieces. A piece is split into blocks of REQUEST_SIZE bytes, each
 * Missing, Pending (requested) or Retrieved (its payload stored). `Block` is a
 * record the piece overwrites in its `blocks` list; `Piece` is an object whose
 * block list is updated in place, and the manager holds the same piece objects
 * in its lists. The block layout of a whole torrent is given both as the code
 * builds it and corrected for a last piece whose length is a multiple of the
 * piece length.
 */
module Pieces {
  import opened Common
  import Wire

  const REQUEST_SIZE: nat := Wire.REQUEST_SIZE

  datatype Status = Missing | Pending | Retrieved

  datatype Block = Block(piece: nat, offset: nat, length: nat, status: Status, data: Option<seq<byte>>)

  /** Which bytes a block stands for: the part of a Block a request is made from. */
  datatype BlockRef = BlockRef(piece: nat, offset: nat, length: nat)

  function RefOf(b: Block): BlockRef
  {
    BlockRef(b.piece, b.offset, b.length)
  }

  /** A fresh block: Missing, without data. */
  function NewBlock(r: BlockRef): Block
  {
    Block(r.piece, r.offset, r.length, Missing, None)
  }

  // ---------------------------------------------------------------- first match

  /** Position of the first element satisfying p (the [x for x in s if p(x)][0] of the source). */
  function FirstIndex<T>(s: seq<T>, p: T -> bool): (r: Option<nat>)
    ensures r.Some? ==> r.value < |s| && p(s[r.value]) && forall j :: 0 <= j < r.value ==> !p(s[j])
    ensures r.None? ==> forall j :: 0 <= j < |s| ==> !p(s[j])
  {
    if s == [] then None
    else if p(s[0]) then Some(0)
    else match FirstIndex(s[1..], p)
      case None => None
      case Some(i) => Some(i + 1)
  }

  /** A position that satisfies p with none before it is the first match. */
  lemma FirstIndexAt<T>(s: seq<T>, p: T -> bool, i: nat)
    requires i < |s| && p(s[i])
    requires forall j :: 0 <= j < i ==> !p(s[j])
    ensures FirstIndex(s, p) == Some(i)
  {
  }

  predicate IsMissing(b: Block)
  {
    b.status == Missing
  }

  function HasOffset(offset: nat): Block -> bool
  {
    (b: Block) => b.offset == offset
  }

  // ---------------------------------------------------------------- block list queries

  /** The number of blocks not yet Retrieved. */
  function CountNotRetrieved(bs: seq<Block>): (n: nat)
    ensures n == 0 <==> forall k :: 0 <= k < |bs| ==> bs[k].status == Retrieved
    ensures n <= |bs|
  {
    if bs == [] then 0
    else (if bs[0].status != Retrieved then 1 else 0) + CountNotRetrieved(bs[1..])
  }

  /** No block is left that is not Retrieved. */
  predicate AllRetrieved(bs: seq<Block>)
  {
    CountNotRetrieved(bs) == 0
  }

  /** b''.join of the payloads in list order; None where a payload is missing (TypeError). */
  function Join(bs: seq<Block>): (r: Option<seq<byte>>)
    ensures r.Some? <==> forall k :: 0 <= k < |bs| ==> bs[k].data.Some?
  {
    if bs == [] then Some([])
    else match (bs[0].data, Join(bs[1..]))
      case (Some(d), Some(rest)) => Some(d + rest)
      case _ => None
  }

  /**
   * When every payload but the last is REQUEST_SIZE bytes long, payload k sits at
   * byte k * REQUEST_SIZE of the joined data: the data is laid out by offset.
   */
  lemma {:induction false} JoinPlacesBlocks(bs: seq<Block>, k: nat)
    requires forall j :: 0 <= j < |bs| ==> bs[j].data.Some?
    requires forall j :: 0 <= j < |bs| - 1 ==> |bs[j].data.value| == REQUEST_SIZE
    requires k < |bs|
    ensures Join(bs).Some?
    ensures var d := bs[k].data.value;
      k * REQUEST_SIZE + |d| <= |Join(bs).value| &&
      Join(bs).value[k * REQUEST_SIZE .. k * REQUEST_SIZE + |d|] == d
  {
    var whole := Join(bs).value;
    var d0 := bs[0].data.value;
    var rest := Join(bs[1..]).value;
    assert whole == d0 + rest;
    if k > 0 {
      JoinPlacesBlocks(bs[1..], k - 1);
      var d := bs[k].data.value;
      assert bs[1..][k - 1] == bs[k];
      assert |d0| == REQUEST_SIZE;
      assert rest[(k - 1) * REQUEST_SIZE .. (k - 1) * REQUEST_SIZE + |d|] == d;
      assert whole[k * REQUEST_SIZE .. k * REQUEST_SIZE + |d|] == rest[(k - 1) * REQUEST_SIZE .. (k - 1) * REQUEST_SIZE + |d|];
    } else {
      assert whole[..|d0|] == d0;
    }
  }

  /** next_request_block on a block list: the block handed out and the list afterwards. */
  function Requested(bs: seq<Block>): (Option<Block>, seq<Block>)
  {
    match FirstIndex(bs, IsMissing)
    case None => (None, bs)
    case Some(k) =>
      var b := bs[k].(status := Pending);
      (Some(b), bs[k := b])
  }

  /**
   * Handing out a block takes the first Missing one and changes nothing else;
   * nothing is handed out exactly when no block is Missing.
   */
  lemma RequestedTakesFirstMissing(bs: seq<Block>)
    ensures Requested(bs).0.None? <==> forall k :: 0 <= k < |bs| ==> bs[k].status != Missing
    ensures Requested(bs).0.None? ==> Requested(bs).1 == bs
    ensures Requested(bs).0.Some? ==> exists k ::
      && 0 <= k < |bs| && bs[k].status == Missing
      && (forall j :: 0 <= j < k ==> bs[j].status != Missing)
      && Requested(bs).0.value == bs[k].(status := Pending)
      && Requested(bs).1 == bs[k := bs[k].(status := Pending)]
  {
    var f := FirstIndex(bs, IsMissing);
    if f.None? {
      forall k | 0 <= k < |bs| ensures bs[k].status != Missing {
        assert !IsMissing(bs[k]);
      }
    } else {
      var k := f.value;
      assert IsMissing(bs[k]);
      forall j | 0 <= j < k ensures bs[j].status != Missing {
        assert !IsMissing(bs[j]);
      }
    }
  }

  /** deleteall on a block list: every status back to Missing, payloads kept. */
  function Reset(bs: seq<Block>): (r: seq<Block>)
    ensures |r| == |bs|
    ensures forall k :: 0 <= k < |bs| ==> r[k] == bs[k].(status := Missing)
  {
    seq(|bs|, k requires 0 <= k < |bs| => bs[k].(status := Missing))
  }

  /** block_received on a block list: the first block at `offset` is Retrieved with `data`. */
  function Received(bs: seq<Block>, offset: nat, data: seq<byte>): seq<Block>
  {
    match FirstIndex(bs, HasOffset(offset))
    case None => bs
    case Some(k) => bs[k := bs[k].(status := Retrieved, data := Some(data))]
  }

  /**
   * Receiving a block never loses one: blocks already Retrieved stay Retrieved
   * with their payload unless it is the block at `offset`, which now holds
   * `data`; a list without a block at `offset` is left as it is.
   */
  lemma ReceivedKeepsRetrieved(bs: seq<Block>, offset: nat, data: seq<byte>)
    ensures |Received(bs, offset, data)| == |bs|
    ensures forall k :: 0 <= k < |bs| && bs[k].offset != offset ==> Received(bs, offset, data)[k] == bs[k]
    ensures forall k :: 0 <= k < |bs| && bs[k].status == Retrieved ==> Received(bs, offset, data)[k].status == Retrieved
    ensures (exists k :: 0 <= k < |bs| && bs[k].offset == offset) ==>
      exists k :: 0 <= k < |bs| && Received(bs, offset, data)[k] == bs[k].(status := Retrieved, data := Some(data))
    ensures (forall k :: 0 <= k < |bs| ==> bs[k].offset != offset) ==> Received(bs, offset, data) == bs
  {
    var f := FirstIndex(bs, HasOffset(offset));
    if f.None? {
      assert forall k :: 0 <= k < |bs| ==> bs[k].offset != offset by {
        forall k | 0 <= k < |bs| ensures bs[k].offset != offset {
          assert !HasOffset(offset)(bs[k]);
        }
      }
    } else {
      assert HasOffset(offset)(bs[f.value]);
    }
  }

  /** Strictly increasing offsets: sorting such a list by offset leaves it as it is. */
  predicate SortedByOffset(bs: seq<Block>)
  {
    forall i, j :: 0 <= i < j < |bs| ==> bs[i].offset < bs[j].offset
  }

  // ---------------------------------------------------------------- the piece

  class Piece {
    const index: nat
    const hash: seq<byte>
    var blocks: seq<Block>

    /** Block k belongs to this piece, starts at k * REQUEST_SIZE and, once Retrieved, holds data. */
    ghost predicate Valid()
      reads this
    {
      forall k :: 0 <= k < |blocks| ==>
        blocks[k].piece == index && blocks[k].offset == k * REQUEST_SIZE &&
        (blocks[k].status == Retrieved ==> blocks[k].data.Some?)
    }

    /** The block layout, which no method changes. */
    function Refs(): (r: seq<BlockRef>)
      reads this
      ensures |r| == |blocks|
      ensures forall k :: 0 <= k < |blocks| ==> r[k] == RefOf(blocks[k])
    {
      seq(|blocks|, k requires 0 <= k < |blocks| reads this => RefOf(blocks[k]))
    }

    constructor (index: nat, blocks: seq<Block>, hash: seq<byte>)
      ensures this.index == index && this.blocks == blocks && this.hash == hash
    {
      this.index := index;
      this.blocks := blocks;
      this.hash := hash;
    }

    /** Every block goes back to Missing (the piece is downloaded again); nothing else changes. */
    method DeleteAll()
      modifies this
      ensures blocks == Reset(old(blocks))
      ensures old(Valid()) ==> Valid()
      ensures Refs() == old(Refs())
    {
      var k := 0;
      while k < |blocks|
        invariant 0 <= k <= |blocks| == |old(blocks)|
        invariant forall j :: 0 <= j < k ==> blocks[j] == old(blocks[j]).(status := Missing)
        invariant forall j :: k <= j < |blocks| ==> blocks[j] == old(blocks[j])
      {
        blocks := blocks[k := blocks[k].(status := Missing)];
        k := k + 1;
      }
    }

    /**
     * The first Missing block in list order becomes Pending and is returned;
     * with no Missing block nothing changes and nothing is returned.
     */
    method NextRequestBlock() returns (b: Option<Block>)
      modifies this
      ensures (b, blocks) == Requested(old(blocks))
      ensures old(Valid()) ==> Valid()
      ensures Refs() == old(Refs())
    {
      var k := 0;
      while k < |blocks| && blocks[k].status != Missing
        invariant 0 <= k <= |blocks|
        invariant forall j :: 0 <= j < k ==> !IsMissing(blocks[j])
      {
        k := k + 1;
      }
      if k == |blocks| {
        return None;
      }
      FirstIndexAt(blocks, IsMissing, k);
      blocks := blocks[k := blocks[k].(status := Pending)];
      b := Some(blocks[k]);
    }

    /**
     * The first block with the given offset becomes Retrieved and holds the data;
     * with no such block nothing changes (the source only logs a warning).
     */
    method BlockReceived(offset: nat, data: seq<byte>)
      modifies this
      ensures blocks == Received(old(blocks), offset, data)
      ensures old(Valid()) ==> Valid()
      ensures Refs() == old(Refs())
    {
      var k := 0;
      while k < |blocks| && blocks[k].offset != offset
        invariant 0 <= k <= |blocks|
        invariant forall j :: 0 <= j < k ==> !HasOffset(offset)(blocks[j])
      {
        k := k + 1;
      }
      if k < |blocks| {
        FirstIndexAt(blocks, HasOffset(offset), k);
        blocks := blocks[k := blocks[k].(status := Retrieved, data := Some(data))];
      }
    }

    /** True exactly when every block is Retrieved. */
    function IsCompleteRetrieved(): (r: bool)
      reads this
      ensures r <==> forall k :: 0 <= k < |blocks| ==> blocks[k].status == Retrieved
    {
      AllRetrieved(blocks)
    }

    /** The piece's bytes: the payloads joined in offset order (None: a payload is absent). */
    function Data(): (r: Option<seq<byte>>)
      reads this
      ensures r.Some? <==> forall k :: 0 <= k < |blocks| ==> blocks[k].data.Some?
    {
      Join(blocks)
    }
  }

  /** A valid piece lists its blocks in offset order, so joining in list order is joining by offset. */
  lemma ValidPieceIsSorted(p: Piece)
    requires p.Valid()
    ensures SortedByOffset(p.blocks)
  {
  }

  /** A complete piece of a valid layout has all its data. */
  lemma CompletePieceHasData(p: Piece)
    requires p.Valid() && p.IsCompleteRetrieved()
    ensures p.Data().Some?
  {
  }

  // ---------------------------------------------------------------- layout

  /** math.ceil(a / b) for naturals. */
  function CeilDiv(a: nat, b: nat): nat
    requires b > 0
  {
    (a + b - 1) / b
  }

  /** The blocks of a piece other than the last: ceil(piece_length / REQUEST_SIZE) full blocks. */
  function StandardBlocks(index: nat, pieceLength: nat): seq<BlockRef>
  {
    var n := CeilDiv(pieceLength, REQUEST_SIZE);
    seq(n, (k: int) requires 0 <= k < n => BlockRef(index, k * REQUEST_SIZE, REQUEST_SIZE))
  }

  /** The blocks of the last piece, of `lastLength` bytes: full blocks and a shorter final one. */
  function LastBlocks(index: nat, lastLength: nat): seq<BlockRef>
  {
    var n := CeilDiv(lastLength, REQUEST_SIZE);
    seq(n, (k: int) requires 0 <= k < n => BlockRef(index, k * REQUEST_SIZE,
                         if k == n - 1 && lastLength % REQUEST_SIZE > 0 then lastLength % REQUEST_SIZE else REQUEST_SIZE))
  }

  /** The length of the last piece as the code computes it: total_size % piece_length. */
  function LastLengthAsWritten(totalSize: nat, pieceLength: nat): nat
    requires pieceLength > 0
  {
    totalSize % pieceLength
  }

  /** The length of the last piece: the remainder, or a whole piece when there is none. */
  function LastLength(totalSize: nat, pieceLength: nat): nat
    requires pieceLength > 0
  {
    if totalSize % pieceLength == 0 then pieceLength else totalSize % pieceLength
  }

  function LayoutAsWritten(index: nat, count: nat, pieceLength: nat, totalSize: nat): seq<BlockRef>
    requires pieceLength > 0
  {
    if index < count - 1 then StandardBlocks(index, pieceLength)
    else LastBlocks(index, LastLengthAsWritten(totalSize, pieceLength))
  }

  /** The block layout of piece `index` of `count`, used by the piece manager. */
  function Layout(index: nat, count: nat, pieceLength: nat, totalSize: nat): seq<BlockRef>
    requires pieceLength > 0
  {
    if index < count - 1 then StandardBlocks(index, pieceLength)
    else LastBlocks(index, LastLength(totalSize, pieceLength))
  }

  function SumLengths(refs: seq<BlockRef>): nat
  {
    if refs == [] then 0 else SumLengths(refs[..|refs| - 1]) + refs[|refs| - 1].length
  }

  lemma {:induction false} SumOfFullBlocks(refs: seq<BlockRef>, m: nat)
    requires m <= |refs|
    requires forall k :: 0 <= k < m ==> refs[k].length == REQUEST_SIZE
    ensures SumLengths(refs[..m]) == m * REQUEST_SIZE
  {
    if m > 0 {
      assert refs[..m][..m - 1] == refs[..m - 1];
      SumOfFullBlocks(refs, m - 1);
    }
  }

  /** Block k of every piece starts at k * REQUEST_SIZE and belongs to that piece. */
  lemma LayoutOffsets(index: nat, count: nat, pieceLength: nat, totalSize: nat, k: nat)
    requires pieceLength > 0
    requires k < |Layout(index, count, pieceLength, totalSize)|
    ensures var r := Layout(index, count, pieceLength, totalSize)[k];
      r.piece == index && r.offset == k * REQUEST_SIZE && 0 < r.length <= REQUEST_SIZE
  {
  }

  /** Every piece has at least one block, the first at offset 0. */
  lemma LayoutNonEmpty(index: nat, count: nat, pieceLength: nat, totalSize: nat)
    requires pieceLength > 0
    ensures |Layout(index, count, pieceLength, totalSize)| >= 1
    ensures Layout(index, count, pieceLength, totalSize)[0].offset == 0
  {
  }

  /** The first block of piece `index`: every piece has one, at offset 0. */
  function FirstBlock(index: nat, count: nat, pieceLength: nat, totalSize: nat): (r: BlockRef)
    requires pieceLength > 0
    ensures r.piece == index && r.offset == 0
  {
    LayoutNonEmpty(index, count, pieceLength, totalSize);
    LayoutOffsets(index, count, pieceLength, totalSize, 0);
    Layout(index, count, pieceLength, totalSize)[0]
  }

  /** A piece other than the last: ceil(piece_length / REQUEST_SIZE) blocks, all of full size. */
  lemma StandardLayout(index: nat, count: nat, pieceLength: nat, totalSize: nat)
    requires pieceLength > 0 && index + 1 < count
    ensures var r := Layout(index, count, pieceLength, totalSize);
      |r| == CeilDiv(pieceLength, REQUEST_SIZE) &&
      SumLengths(r) == CeilDiv(pieceLength, REQUEST_SIZE) * REQUEST_SIZE &&
      SumLengths(r) >= pieceLength
  {
    var r := Layout(index, count, pieceLength, totalSize);
    SumOfFullBlocks(r, |r|);
    assert r[..|r|] == r;
  }

  /** The last piece's block lengths add up to the last piece's length. */
  lemma {:induction false} LastBlocksSum(index: nat, lastLength: nat)
    ensures SumLengths(LastBlocks(index, lastLength)) == lastLength
  {
    var r := LastBlocks(index, lastLength);
    var n := |r|;
    var q := lastLength / REQUEST_SIZE;
    if lastLength % REQUEST_SIZE == 0 {
      assert n == q;
      SumOfFullBlocks(r, n);
      assert r[..n] == r;
    } else {
      assert n == q + 1;
      SumOfFullBlocks(r, q);
      assert r[..n][..n - 1] == r[..q];
      assert r[..n] == r;
    }
  }

  /** As written, the last piece's lengths add up to total_size % piece_length. */
  lemma LastPieceSumAsWritten(count: nat, pieceLength: nat, totalSize: nat)
    requires pieceLength > 0 && count > 0
    ensures SumLengths(LayoutAsWritten(count - 1, count, pieceLength, totalSize)) == totalSize % pieceLength
  {
    LastBlocksSum(count - 1, totalSize % pieceLength);
  }

  /**
   * As written, a torrent whose size is a multiple of the piece length gets a last
   * piece without blocks: two pieces of 16384 bytes, and the second can never be
   * requested.
   */
  lemma LastPieceEmptyAsWritten()
    ensures LayoutAsWritten(1, 2, 16384, 32768) == []
    ensures Layout(1, 2, 16384, 32768) == [BlockRef(1, 0, 16384)]
  {
  }

  /** Corrected: the last piece covers what the other pieces leave of the torrent. */
  lemma LastPieceSum(count: nat, pieceLength: nat, totalSize: nat)
    requires pieceLength > 0 && totalSize > 0 && count == CeilDiv(totalSize, pieceLength)
    ensures (count - 1) * pieceLength + SumLengths(Layout(count - 1, count, pieceLength, totalSize)) == totalSize
  {
    LastBlocksSum(count - 1, LastLength(totalSize, pieceLength));
    PiecesCoverTotal(count, pieceLength, totalSize);
  }

  lemma PiecesCoverTotal(count: nat, d: nat, total: nat)
    requires d > 0 && total > 0 && count == CeilDiv(total, d)
    ensures count >= 1
    ensures (count - 1) * d + LastLength(total, d) == total
  {
    var q := total / d;
    var rem := total % d;
    assert total == q * d + rem;
    if rem == 0 {
      assert total + d - 1 == q * d + (d - 1);
      DivOfMultiplePlus(q, d, d - 1);
      assert q >= 1;
      MulPred(q, d);
    } else {
      assert total + d - 1 == (q + 1) * d + (rem - 1) by { MulPred(q + 1, d); }
      DivOfMultiplePlus(q + 1, d, rem - 1);
    }
  }

  lemma MulPred(q: nat, d: nat)
    requires q >= 1
    ensures (q - 1) * d + d == q * d
  {
  }

  lemma DivOfMultiplePlus(q: nat, d: nat, r: nat)
    requires d > 0 && r < d
    ensures (q * d + r) / d == q
  {
    var x := q * d + r;
    var a := x / d;
    var b := x % d;
    assert a * d + b == x;
    if a > q {
      MulAtLeast(a - q, d);
    } else if a < q {
      MulAtLeast(q - a, d);
    }
  }

  lemma MulAtLeast(m: int, d: nat)
    requires m >= 1
    ensures m * d >= d
  {
  }
}
