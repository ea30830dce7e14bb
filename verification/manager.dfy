/**
 * The piece manager: which pieces are still missing, which are being
 * downloaded and which are verified, which blocks have been requested and
 * when, and which pieces each connected peer has. A request for a peer is
 * chosen in the order re-request an expired block, continue a piece already
 * under way, start the rarest missing piece. SHA-1 is the constructor's `sha1`
 * parameter, the clock is the `now` parameter, and writes to the output file
 * are appended to the ghost log `written` as (file position, bytes).
 */
module Manager {
  import opened Common
  import opened Pieces

  type PeerId = seq<byte>

  /** How long (in milliseconds) a request may stay unanswered before it is re-issued. */
  const MAX_PENDING_TIME: int := 300 * 1000

  /** A block handed out and the time (milliseconds) it was handed out. */
  datatype PendingRequest = PendingRequest(block: BlockRef, added: int)

  /** self.peers[peer][index], where an index past the end reads as false. */
  predicate Has(bitfield: seq<bool>, index: nat)
  {
    index < |bitfield| && bitfield[index]
  }

  predicate IsExpired(bitfield: seq<bool>, now: int, r: PendingRequest)
  {
    Has(bitfield, r.block.piece) && r.added + MAX_PENDING_TIME < now
  }

  function Expired(bitfield: seq<bool>, now: int): PendingRequest -> bool
  {
    (r: PendingRequest) => IsExpired(bitfield, now, r)
  }

  function Matches(piece: nat, offset: nat): PendingRequest -> bool
  {
    (r: PendingRequest) => r.block.piece == piece && r.block.offset == offset
  }

  function HeldBy(bitfield: seq<bool>): nat -> bool
  {
    (i: nat) => Has(bitfield, i)
  }

  /** del s[i] */
  function RemoveAt<T>(s: seq<T>, i: nat): (r: seq<T>)
    requires i < |s|
    ensures |r| == |s| - 1
    ensures multiset(r) + multiset{s[i]} == multiset(s)
  {
    assert s == s[..i] + [s[i]] + s[i + 1..];
    s[..i] + s[i + 1..]
  }

  /** The piece numbers of a list of pieces. */
  function Indices(ps: seq<Piece>): (r: seq<nat>)
    ensures |r| == |ps| && forall k :: 0 <= k < |ps| ==> r[k] == ps[k].index
  {
    seq(|ps|, k requires 0 <= k < |ps| => ps[k].index)
  }

  predicate AllMissing(bs: seq<Block>)
  {
    forall k :: 0 <= k < |bs| ==> bs[k].status == Missing
  }

  /** Every pending request names a block of its piece's layout. */
  predicate PendingInLayout(pending: seq<PendingRequest>, count: nat, pieceLength: nat, totalSize: nat)
  {
    forall j :: 0 <= j < |pending| ==>
      && pending[j].block.piece < count && pieceLength > 0
      && pending[j].block in Layout(pending[j].block.piece, count, pieceLength, totalSize)
  }

  // ---------------------------------------------------------------- rarest first

  /** The number of connected peers whose bitfield has piece i. */
  function Holders(peers: map<PeerId, seq<bool>>, i: nat): nat
  {
    |set p | p in peers && Has(peers[p], i)|
  }

  /** Position k of the missing list is a piece the requesting peer has. */
  predicate IsCandidate(missing: seq<nat>, bitfield: seq<bool>, k: nat)
  {
    k < |missing| && Has(bitfield, missing[k])
  }

  /**
   * Position k holds the rarest candidate: no candidate has fewer holders, and
   * every earlier candidate has more (ties go to the earliest, the order in
   * which min() meets the counted pieces).
   */
  ghost predicate IsRarest(missing: seq<nat>, peers: map<PeerId, seq<bool>>, bitfield: seq<bool>, k: nat)
  {
    && IsCandidate(missing, bitfield, k)
    && (forall j: nat :: IsCandidate(missing, bitfield, j) ==> Holders(peers, missing[k]) <= Holders(peers, missing[j]))
    && (forall j: nat :: j < k && IsCandidate(missing, bitfield, j) ==> Holders(peers, missing[j]) > Holders(peers, missing[k]))
  }

  /** The choice is determined: at most one position is the rarest. */
  lemma RarestIsUnique(missing: seq<nat>, peers: map<PeerId, seq<bool>>, bitfield: seq<bool>, a: nat, b: nat)
    requires IsRarest(missing, peers, bitfield, a) && IsRarest(missing, peers, bitfield, b)
    ensures a == b
  {
  }

  /**
   * Two peers: [65] has pieces 0 and 1, [66] only piece 1. For peer [65], piece 0
   * (one holder) is chosen over piece 1 (two holders).
   */
  lemma RarestPrefersFewerHolders()
    ensures var peers := map[[65 as byte] := [true, true], [66 as byte] := [false, true]];
      IsRarest([0, 1], peers, [true, true], 0) && !IsRarest([0, 1], peers, [true, true], 1)
  {
    var a: PeerId := [65];
    var b: PeerId := [66];
    var peers := map[a := [true, true], b := [false, true]];
    assert (set p | p in peers && Has(peers[p], 0)) == {a};
    assert (set p | p in peers && Has(peers[p], 1)) == {a, b};
    assert IsCandidate([0, 1], [true, true], 1);
  }

  /** With equal counts the earlier position of missing_pieces wins, as with min(). */
  lemma RarestTieGoesToEarliest()
    ensures var peers := map[[65 as byte] := [true, true]];
      IsRarest([0, 1], peers, [true, true], 0) && !IsRarest([0, 1], peers, [true, true], 1)
  {
    var a: PeerId := [65];
    var peers := map[a := [true, true]];
    assert (set p | p in peers && Has(peers[p], 0)) == {a};
    assert (set p | p in peers && Has(peers[p], 1)) == {a};
    assert IsCandidate([0, 1], [true, true], 0);
  }

  lemma MulMonotone(a: nat, b: nat, c: nat)
    requires a <= b
    ensures a * c <= b * c
  {
  }

  /** Pieces with distinct numbers 0, 1, ... are distinct objects. */
  lemma {:induction false} IndexedPiecesDistinct(ps: seq<Piece>)
    requires forall i :: 0 <= i < |ps| ==> ps[i].index == i
    ensures forall x :: multiset(ps)[x] <= 1
  {
    if ps != [] {
      var init := ps[..|ps| - 1];
      var last := ps[|ps| - 1];
      assert ps == init + [last];
      IndexedPiecesDistinct(init);
      assert last !in init;
      assert multiset(ps) == multiset(init) + multiset{last};
    }
  }

  /** The position of the first element `p` picks out, or |s| when there is none. */
  method FindFirst<T>(s: seq<T>, p: T -> bool) returns (i: nat)
    ensures i <= |s|
    ensures i < |s| ==> FirstIndex(s, p) == Some(i)
    ensures i == |s| ==> FirstIndex(s, p).None?
  {
    i := 0;
    while i < |s| && !p(s[i])
      invariant i <= |s|
      invariant forall j :: 0 <= j < i ==> !p(s[j])
    {
      i := i + 1;
    }
    if i < |s| {
      FirstIndexAt(s, p, i);
    }
  }

  /** Appending a request for a block of the layout keeps every request in the layout. */
  lemma AppendKeepsLayout(pending: seq<PendingRequest>, r: PendingRequest, count: nat, pieceLength: nat, totalSize: nat)
    requires PendingInLayout(pending, count, pieceLength, totalSize)
    requires r.block.piece < count && pieceLength > 0 && r.block in Layout(r.block.piece, count, pieceLength, totalSize)
    ensures PendingInLayout(pending + [r], count, pieceLength, totalSize)
  {
  }

  /** Resetting the time of a request keeps every request in the layout. */
  lemma RenewKeepsLayout(pending: seq<PendingRequest>, i: nat, now: int, count: nat, pieceLength: nat, totalSize: nat)
    requires PendingInLayout(pending, count, pieceLength, totalSize) && i < |pending|
    ensures PendingInLayout(pending[i := pending[i].(added := now)], count, pieceLength, totalSize)
  {
  }

  /** Deleting a request keeps every remaining request in the layout. */
  lemma DropKeepsLayout(pending: seq<PendingRequest>, i: nat, count: nat, pieceLength: nat, totalSize: nat)
    requires PendingInLayout(pending, count, pieceLength, totalSize) && i < |pending|
    ensures PendingInLayout(RemoveAt(pending, i), count, pieceLength, totalSize)
  {
    var rest := RemoveAt(pending, i);
    forall k | 0 <= k < |rest|
      ensures rest[k] == pending[if k < i then k else k + 1]
    {
    }
  }

  /** The blocks of each piece of a list, in list order. */
  ghost function BlocksOf(ps: seq<Piece>): (r: seq<seq<Block>>)
    reads ps
    ensures |r| == |ps| && forall k :: 0 <= k < |ps| ==> r[k] == ps[k].blocks
  {
    seq(|ps|, k requires 0 <= k < |ps| reads ps => ps[k].blocks)
  }

  class PieceManager {
    const pieceLength: nat
    const totalSize: nat
    const totalPieces: nat
    /** The SHA-1 digest of every piece, from the metainfo. */
    const hashes: seq<seq<byte>>
    const sha1: seq<byte> -> seq<byte>
    /** Every piece, by number: the objects the three lists share out among themselves. */
    ghost const pieces: seq<Piece>

    var peers: map<PeerId, seq<bool>>
    var pendingBlocks: seq<PendingRequest>
    var missingPieces: seq<Piece>
    var ongoingPieces: seq<Piece>
    var havePieces: seq<Piece>
    /** What _write has put in the output file: (position, bytes), in order. */
    ghost var written: seq<(nat, seq<byte>)>

    /**
     * Every piece keeps its layout; the three lists partition the pieces; a
     * missing piece has no block requested; a piece in have_pieces is complete
     * and its data hashes to its SHA-1 digest; every pending request names a
     * block of the layout.
     */
    ghost predicate Valid()
      reads this`pendingBlocks, this`missingPieces, this`ongoingPieces, this`havePieces, pieces
    {
      && Shaped()
      && ListsValid(missingPieces, ongoingPieces, havePieces)
      && PendingInLayout(pendingBlocks, totalPieces, pieceLength, totalSize)
    }

    /** Piece i is numbered i and carries digest i. */
    ghost predicate Numbered()
    {
      && pieceLength > 0
      && |pieces| == totalPieces == |hashes|
      && forall i :: 0 <= i < |pieces| ==> pieces[i].index == i && pieces[i].hash == hashes[i]
    }

    /** Every piece keeps the block layout of its number. */
    ghost predicate Shaped()
      reads pieces
    {
      && Numbered()
      && forall i :: 0 <= i < |pieces| ==>
           pieces[i].Valid() && pieces[i].Refs() == Layout(i, totalPieces, pieceLength, totalSize)
    }

    /** The three lists share out the pieces: each piece is in one list, once. */
    ghost predicate Partitions(missing: seq<Piece>, ongoing: seq<Piece>, have: seq<Piece>)
    {
      multiset(missing) + multiset(ongoing) + multiset(have) == multiset(pieces)
    }

    /** A partition in which a missing piece has no block requested and every piece of the third list is verified. */
    ghost predicate ListsValid(missing: seq<Piece>, ongoing: seq<Piece>, have: seq<Piece>)
      reads pieces
    {
      && Partitions(missing, ongoing, have)
      && (forall i :: 0 <= i < |pieces| && pieces[i] in missing ==> AllMissing(pieces[i].blocks))
      && (forall i :: 0 <= i < |pieces| && pieces[i] in have ==> Verified(pieces[i]))
    }

    /** A complete block list whose data hashes to the digest. */
    ghost predicate HashMatches(bs: seq<Block>, hash: seq<byte>)
    {
      AllRetrieved(bs) && Join(bs).Some? && sha1(Join(bs).value) == hash
    }

    /** is_complete_retrieved() and is_hash_matching() both hold for the piece. */
    ghost predicate Verified(p: Piece)
      reads p
    {
      HashMatches(p.blocks, p.hash)
    }

    /** Each listed piece is the piece of its number and sits in one list only. */
    lemma {:induction false} PartitionOf(missing: seq<Piece>, ongoing: seq<Piece>, have: seq<Piece>)
      requires Numbered() && Partitions(missing, ongoing, have)
      ensures forall p :: p in missing ==> p in pieces && p !in ongoing && p !in have
      ensures forall p :: p in ongoing ==> p in pieces && p !in have
      ensures forall p :: p in have ==> p in pieces
      ensures forall p :: p in pieces ==> p.index < |pieces| && p == pieces[p.index]
    {
      IndexedPiecesDistinct(pieces);
      var all := multiset(pieces);
      forall p | p in missing || p in ongoing || p in have
        ensures p in pieces
        ensures multiset(missing)[p] + multiset(ongoing)[p] + multiset(have)[p] <= 1
      {
        assert all[p] == multiset(missing)[p] + multiset(ongoing)[p] + multiset(have)[p];
        assert all[p] <= 1;
        assert p in all;
      }
      forall p | p in pieces ensures p == pieces[p.index] {
        var i :| 0 <= i < |pieces| && pieces[i] == p;
      }
    }

    /** The pieces in the three lists are pieces of the torrent, each in one list only. */
    lemma Partition()
      requires Valid()
      ensures forall p :: p in missingPieces ==> p in pieces && p !in ongoingPieces && p !in havePieces
      ensures forall p :: p in ongoingPieces ==> p in pieces && p !in havePieces
      ensures forall p :: p in havePieces ==> p in pieces
      ensures forall p :: p in pieces ==> p.index < |pieces| && p == pieces[p.index]
    {
      PartitionOf(missingPieces, ongoingPieces, havePieces);
    }

    /** missing_pieces.pop(pos) followed by ongoing_pieces.append(piece) keeps the lists valid. */
    lemma StartKeepsLists(missing: seq<Piece>, ongoing: seq<Piece>, have: seq<Piece>, pos: nat)
      requires ListsValid(missing, ongoing, have) && pos < |missing|
      ensures ListsValid(RemoveAt(missing, pos), ongoing + [missing[pos]], have)
    {
      var rest := RemoveAt(missing, pos);
      forall i | 0 <= i < |pieces| && pieces[i] in rest
        ensures pieces[i] in missing
      {
        assert multiset(rest)[pieces[i]] > 0;
      }
    }

    /** ongoing_pieces.remove(piece) followed by have_pieces.append(piece) keeps the lists valid for a verified piece. */
    lemma PromoteKeepsLists(missing: seq<Piece>, ongoing: seq<Piece>, have: seq<Piece>, j: nat)
      requires ListsValid(missing, ongoing, have) && j < |ongoing| && Verified(ongoing[j])
      ensures ListsValid(missing, RemoveAt(ongoing, j), have + [ongoing[j]])
    {
    }

    /**
     * A change to the blocks of one ongoing piece that keeps that piece valid
     * and its layout, and changes nothing else, keeps the manager valid.
     */
    twostate lemma OngoingChangeKeepsValid(piece: Piece)
      requires old(Valid()) && piece in old(ongoingPieces) && unchanged(this)
      requires piece.Valid() && piece.Refs() == old(piece.Refs())
      requires forall i :: 0 <= i < |pieces| && pieces[i] != piece ==> unchanged(pieces[i])
      ensures Valid()
    {
      PartitionOf(missingPieces, ongoingPieces, havePieces);
    }

    /** A piece all of whose blocks are Missing hands out the first block of its layout. */
    lemma FreshPieceGivesFirst(piece: Piece)
      requires Shaped() && piece in pieces && AllMissing(piece.blocks)
      ensures Requested(piece.blocks).0.Some?
      ensures RefOf(Requested(piece.blocks).0.value) == FirstBlock(piece.index, totalPieces, pieceLength, totalSize)
    {
      var i :| 0 <= i < |pieces| && pieces[i] == piece;
      LayoutNonEmpty(piece.index, totalPieces, pieceLength, totalSize);
      assert |piece.blocks| == |piece.Refs()| > 0;
      FirstIndexAt(piece.blocks, IsMissing, 0);
      assert RefOf(piece.blocks[0]) == piece.Refs()[0];
    }

    /** Every piece starts out missing, with every block Missing. */
    constructor (pieceLength: nat, totalSize: nat, hashes: seq<seq<byte>>, sha1: seq<byte> -> seq<byte>)
      requires pieceLength > 0
      ensures Valid()
      ensures this.pieceLength == pieceLength && this.totalSize == totalSize && this.hashes == hashes && this.sha1 == sha1
      ensures totalPieces == |hashes|
      ensures missingPieces == pieces && ongoingPieces == [] && havePieces == []
      ensures pendingBlocks == [] && peers == map[] && written == []
    {
      var ps := InitiatePieces(hashes, pieceLength, totalSize);
      this.pieceLength := pieceLength;
      this.totalSize := totalSize;
      this.totalPieces := |hashes|;
      this.hashes := hashes;
      this.sha1 := sha1;
      this.pieces := ps;
      peers := map[];
      pendingBlocks := [];
      missingPieces := ps;
      ongoingPieces := [];
      havePieces := [];
      written := [];
    }

    /** All pieces are in have_pieces. */
    function Complete(): bool
      reads this
    {
      |havePieces| == totalPieces
    }

    /** Bytes of verified pieces, counting each as a whole piece length. */
    function BytesDownloaded(): nat
      reads this
    {
      |havePieces| * pieceLength
    }

    /** add_peer: the peer's bitfield is set, replacing any earlier one. */
    method AddPeer(peer: PeerId, bitfield: seq<bool>)
      modifies this`peers
      ensures peers == old(peers)[peer := bitfield]
    {
      peers := peers[peer := bitfield];
    }

    /**
     * update_peer: a known peer now has piece `index`; an unknown peer is
     * ignored. An index past the end of the bitfield is the IndexError of the
     * source: ok is false and nothing changes.
     */
    method UpdatePeer(peer: PeerId, index: nat) returns (ok: bool)
      modifies this`peers
      ensures ok <==> !(peer in old(peers) && index >= |old(peers)[peer]|)
      ensures peers == if peer in old(peers) && ok then old(peers)[peer := old(peers)[peer][index := true]] else old(peers)
    {
      ok := true;
      if peer in peers {
        var bitfield := peers[peer];
        if index < |bitfield| {
          peers := peers[peer := bitfield[index := true]];
        } else {
          ok := false;
        }
      }
    }

    /** remove_peer: the peer is forgotten if it was known. */
    method RemovePeer(peer: PeerId)
      modifies this`peers
      ensures peers == old(peers) - {peer}
      ensures peer !in old(peers) ==> peers == old(peers)
    {
      if peer in peers {
        peers := peers - {peer};
      }
    }

    /** Number of peers holding piece `index`: the inner loop of _get_rarest_piece. */
    method CountHolders(index: nat) returns (n: nat)
      ensures n == Holders(peers, index)
    {
      var rest := peers.Keys;
      n := 0;
      while rest != {}
        invariant rest <= peers.Keys
        invariant n == |set p | p in peers.Keys - rest && Has(peers[p], index)|
        decreases |rest|
      {
        var p :| p in rest;
        ghost var before := set q | q in peers.Keys - rest && Has(peers[q], index);
        ghost var after := set q | q in peers.Keys - (rest - {p}) && Has(peers[q], index);
        if Has(peers[p], index) {
          assert after == before + {p};
          n := n + 1;
        } else {
          assert after == before;
        }
        rest := rest - {p};
      }
      assert peers.Keys - rest == peers.Keys;
      assert (set p | p in peers.Keys && Has(peers[p], index)) == (set p | p in peers && Has(peers[p], index));
    }

    /**
     * The counting loop and min() of _get_rarest_piece: the position in
     * missing_pieces of the rarest piece the peer has, or None when the peer
     * has none of them (where min() of the source fails on an empty dict).
     */
    method SelectRarest(peer: PeerId) returns (pos: Option<nat>)
      requires peer in peers
      ensures pos.None? <==> forall k: nat :: !IsCandidate(Indices(missingPieces), peers[peer], k)
      ensures pos.Some? ==> IsRarest(Indices(missingPieces), peers, peers[peer], pos.value)
    {
      var bitfield := peers[peer];
      ghost var missing := Indices(missingPieces);
      pos := None;
      var best := 0;
      var k := 0;
      while k < |missingPieces|
        invariant 0 <= k <= |missingPieces|
        invariant pos.None? <==> forall j :: 0 <= j < k ==> !IsCandidate(missing, bitfield, j)
        invariant pos.Some? ==>
          && pos.value < k && IsCandidate(missing, bitfield, pos.value)
          && best == Holders(peers, missing[pos.value])
          && (forall j :: 0 <= j < k && IsCandidate(missing, bitfield, j) ==> best <= Holders(peers, missing[j]))
          && (forall j :: 0 <= j < pos.value && IsCandidate(missing, bitfield, j) ==> Holders(peers, missing[j]) > best)
      {
        var index := missingPieces[k].index;
        assert missing[k] == index;
        if Has(bitfield, index) {
          assert IsCandidate(missing, bitfield, k);
          var count := CountHolders(index);
          if pos.None? || count < best {
            pos := Some(k);
            best := count;
          }
        } else {
          assert !IsCandidate(missing, bitfield, k);
        }
        k := k + 1;
      }
    }

    /**
     * _expired_requests: the first pending request for a piece the peer has that
     * was handed out more than MAX_PENDING_TIME ago gets its time reset to `now`
     * and its block is returned; if there is none, nothing changes.
     */
    method ExpiredRequests(peer: PeerId, now: int) returns (r: Option<BlockRef>)
      requires Valid() && peer in peers
      modifies this`pendingBlocks
      ensures Valid()
      ensures match FirstIndex(old(pendingBlocks), Expired(peers[peer], now))
        case None => r == None && pendingBlocks == old(pendingBlocks)
        case Some(i) =>
          && r == Some(old(pendingBlocks)[i].block)
          && pendingBlocks == old(pendingBlocks)[i := old(pendingBlocks)[i].(added := now)]
      ensures r.Some? ==>
        && Has(peers[peer], r.value.piece) && r.value.piece < |pieces| && r.value in pieces[r.value.piece].Refs()
        && PendingRequest(r.value, now) in pendingBlocks
    {
      var i := FindFirst(pendingBlocks, Expired(peers[peer], now));
      if i == |pendingBlocks| {
        return None;
      }
      var block := pendingBlocks[i].block;
      assert Expired(peers[peer], now)(pendingBlocks[i]);
      RenewKeepsLayout(pendingBlocks, i, now, totalPieces, pieceLength, totalSize);
      pendingBlocks := pendingBlocks[i := pendingBlocks[i].(added := now)];
      r := Some(block);
      assert pendingBlocks[i] == PendingRequest(block, now);
    }

    /**
     * next_request_block on an ongoing piece: the piece's blocks change as
     * Requested says, no other piece changes, and the manager stays valid.
     */
    method TakeBlock(piece: Piece) returns (b: Option<Block>)
      requires Valid() && piece in ongoingPieces
      modifies piece
      ensures Valid()
      ensures (b, piece.blocks) == Requested(old(piece.blocks))
      ensures forall i :: 0 <= i < |pieces| && pieces[i] != piece ==> pieces[i].blocks == old(pieces[i].blocks)
      ensures b.Some? ==> b.value.piece == piece.index < |pieces| && RefOf(b.value) in pieces[piece.index].Refs()
    {
      Partition();
      b := piece.NextRequestBlock();
      OngoingChangeKeepsValid(piece);
      if b.Some? {
        var k := FirstIndex(old(piece.blocks), IsMissing).value;
        assert RefOf(b.value) == piece.Refs()[k];
      }
    }

    /** Appending a pending request for a block of the layout keeps the manager valid. */
    method AddPending(block: BlockRef, now: int)
      requires Valid()
      requires block.piece < |pieces| && block in pieces[block.piece].Refs()
      modifies this`pendingBlocks
      ensures Valid()
      ensures pendingBlocks == old(pendingBlocks) + [PendingRequest(block, now)]
    {
      AppendKeepsLayout(pendingBlocks, PendingRequest(block, now), totalPieces, pieceLength, totalSize);
      pendingBlocks := pendingBlocks + [PendingRequest(block, now)];
    }

    /**
     * The loop of _next_ongoing: the position in ongoing_pieces of the first
     * piece the peer has that still has a Missing block, or |ongoing_pieces|.
     */
    method FindWork(bitfield: seq<bool>) returns (j: nat)
      ensures j <= |ongoingPieces|
      ensures forall i :: 0 <= i < j && Has(bitfield, ongoingPieces[i].index) ==>
        Requested(ongoingPieces[i].blocks).0.None?
      ensures j < |ongoingPieces| ==>
        Has(bitfield, ongoingPieces[j].index) && Requested(ongoingPieces[j].blocks).0.Some?
    {
      j := 0;
      while j < |ongoingPieces| && !(Has(bitfield, ongoingPieces[j].index) && Requested(ongoingPieces[j].blocks).0.Some?)
        invariant j <= |ongoingPieces|
        invariant forall i :: 0 <= i < j && Has(bitfield, ongoingPieces[i].index) ==>
          Requested(ongoingPieces[i].blocks).0.None?
      {
        j := j + 1;
      }
    }

    /**
     * _next_ongoing: in the order of ongoing_pieces, the first piece the peer has
     * that still has a Missing block gives up that block, which is recorded as
     * pending at `now`. With no such piece nothing changes. (The search and the
     * one call that changes a piece are separated: next_request_block changes
     * nothing on a piece without a Missing block.)
     */
    method NextOngoing(peer: PeerId, now: int) returns (r: Option<BlockRef>)
      requires Valid() && peer in peers
      modifies this`pendingBlocks, pieces
      ensures Valid()
      ensures r.None? ==>
        && pendingBlocks == old(pendingBlocks)
        && (forall i :: 0 <= i < |pieces| ==> pieces[i].blocks == old(pieces[i].blocks))
        && forall j :: 0 <= j < |ongoingPieces| && Has(peers[peer], ongoingPieces[j].index) ==>
             Requested(ongoingPieces[j].blocks).0.None?
      ensures r.Some? ==>
        && TookOngoing(old(BlocksOf(ongoingPieces)), peers[peer], r.value)
        && forall i :: 0 <= i < |pieces| && i != r.value.piece ==> pieces[i].blocks == old(pieces[i].blocks)
      ensures r.Some? <==> old(OngoingWork(peers[peer]))
      ensures r.Some? ==>
        && Has(peers[peer], r.value.piece) && r.value.piece < |pieces| && r.value in pieces[r.value.piece].Refs()
        && pendingBlocks == old(pendingBlocks) + [PendingRequest(r.value, now)]
    {
      var j := FindWork(peers[peer]);
      if j == |ongoingPieces| {
        return None;
      }
      var ref := TakeOngoing(peer, now, j);
      r := Some(ref);
    }

    /** The step of _next_ongoing once the search has found position j. */
    method TakeOngoing(peer: PeerId, now: int, j: nat) returns (ref: BlockRef)
      requires Valid() && peer in peers && j < |ongoingPieces|
      requires Has(peers[peer], ongoingPieces[j].index) && Requested(ongoingPieces[j].blocks).0.Some?
      requires forall i :: 0 <= i < j && Has(peers[peer], ongoingPieces[i].index) ==> Requested(ongoingPieces[i].blocks).0.None?
      modifies this`pendingBlocks, pieces
      ensures Valid()
      ensures TookOngoing(old(BlocksOf(ongoingPieces)), peers[peer], ref)
      ensures forall i :: 0 <= i < |pieces| && i != ref.piece ==> pieces[i].blocks == old(pieces[i].blocks)
      ensures Has(peers[peer], ref.piece) && ref.piece < |pieces| && ref in pieces[ref.piece].Refs()
      ensures pendingBlocks == old(pendingBlocks) + [PendingRequest(ref, now)]
    {
      ghost var before := BlocksOf(ongoingPieces);
      Partition();
      var piece := ongoingPieces[j];
      assert piece in ongoingPieces;
      var b := TakeBlock(piece);
      ref := RefOf(b.value);
      assert piece == pieces[ref.piece];
      assert TookOngoing(before, peers[peer], ref) by {
        assert ongoingPieces[j].blocks == Requested(before[j]).1;
      }
      AddPending(ref, now);
    }

    /**
     * missing_pieces.pop(pos) and ongoing_pieces.append(piece); the piece has
     * no block requested.
     */
    method MoveToOngoing(pos: nat)
      requires Valid() && pos < |missingPieces|
      modifies this`missingPieces, this`ongoingPieces
      ensures Valid()
      ensures missingPieces == RemoveAt(old(missingPieces), pos)
      ensures ongoingPieces == old(ongoingPieces) + [old(missingPieces)[pos]]
      ensures AllMissing(old(missingPieces)[pos].blocks)
    {
      Partition();
      assert missingPieces[pos] == pieces[missingPieces[pos].index];
      StartKeepsLists(missingPieces, ongoingPieces, havePieces, pos);
      missingPieces, ongoingPieces := RemoveAt(missingPieces, pos), ongoingPieces + [missingPieces[pos]];
    }

    /**
     * missing_pieces was `missing`, ongoing_pieces `ongoing` and the blocks of
     * the pieces `all` before the piece at position `pos` of missing_pieces
     * moved to the end of ongoing_pieces and handed out `ref`, the first block
     * of its layout: that piece's blocks are as next_request_block leaves them,
     * and no other piece's blocks changed.
     */
    ghost predicate Started(all: seq<seq<Block>>, missing: seq<Piece>, ongoing: seq<Piece>, pos: nat, ref: BlockRef)
      reads this`missingPieces, this`ongoingPieces, pieces
    {
      && pos < |missing| && pieceLength > 0
      && missingPieces == RemoveAt(missing, pos)
      && ongoingPieces == ongoing + [missing[pos]]
      && ref == FirstBlock(missing[pos].index, totalPieces, pieceLength, totalSize)
      && |all| == |pieces| && missing[pos].index < |pieces|
      && pieces[missing[pos].index].blocks == Requested(all[missing[pos].index]).1
      && forall k :: 0 <= k < |pieces| && k != missing[pos].index ==> pieces[k].blocks == all[k]
    }

    /**
     * A missing piece becomes ongoing and hands out its first block: the move
     * and the next_request_block call shared by _get_rarest_piece's caller and
     * _next_missing.
     */
    method StartPiece(pos: nat) returns (ref: BlockRef)
      requires Valid() && pos < |missingPieces|
      modifies this`missingPieces, this`ongoingPieces, pieces
      ensures Valid()
      ensures Started(old(BlocksOf(pieces)), old(missingPieces), old(ongoingPieces), pos, ref)
      ensures ref.piece < |pieces| && ref in pieces[ref.piece].Refs()
      ensures forall i :: 0 <= i < |pieces| && pieces[i] != old(missingPieces)[pos] ==> pieces[i].blocks == old(pieces[i].blocks)
    {
      ghost var all := BlocksOf(pieces);
      Partition();
      var piece := missingPieces[pos];
      assert piece == pieces[piece.index];
      MoveToOngoing(pos);
      FreshPieceGivesFirst(piece);
      var b := TakeBlock(piece);
      ref := RefOf(b.value);
    }

    /**
     * _get_rarest_piece followed by next_request_block: the rarest missing piece
     * the peer has moves to the end of ongoing_pieces and its first block is
     * handed out and recorded as pending. When the peer has no missing piece,
     * nothing changes and nothing is returned.
     */
    method RarestFirst(peer: PeerId, now: int) returns (r: Option<BlockRef>)
      requires Valid() && peer in peers
      modifies this`missingPieces, this`ongoingPieces, this`pendingBlocks, pieces
      ensures Valid()
      ensures r.None? ==> forall k: nat :: !IsCandidate(Indices(old(missingPieces)), peers[peer], k)
      ensures r.None? ==>
        && missingPieces == old(missingPieces) && ongoingPieces == old(ongoingPieces)
        && pendingBlocks == old(pendingBlocks)
        && forall i :: 0 <= i < |pieces| ==> pieces[i].blocks == old(pieces[i].blocks)
      ensures r.Some? ==> exists pos: nat ::
        IsRarest(Indices(old(missingPieces)), peers, peers[peer], pos) && Started(old(BlocksOf(pieces)), old(missingPieces), old(ongoingPieces), pos, r.value)
      ensures r.Some? ==>
        && Has(peers[peer], r.value.piece) && r.value.piece < |pieces| && r.value in pieces[r.value.piece].Refs()
        && pendingBlocks == old(pendingBlocks) + [PendingRequest(r.value, now)]
    {
      ghost var all, missing, ongoing := BlocksOf(pieces), missingPieces, ongoingPieces;
      var pos := SelectRarest(peer);
      if pos.None? {
        return None;
      }
      ghost var rarest := IsRarest(Indices(missing), peers, peers[peer], pos.value);
      var ref := StartPiece(pos.value);
      r := Some(ref);
      AddPending(ref, now);
      assert rarest && Started(all, missing, ongoing, pos.value, ref);
    }

    /** The loop of _next_missing: the position of the first missing piece the peer has, or |missing_pieces|. */
    method FindHeld(bitfield: seq<bool>) returns (pos: nat)
      ensures pos <= |missingPieces|
      ensures pos < |missingPieces| ==> FirstIndex(Indices(missingPieces), HeldBy(bitfield)) == Some(pos)
      ensures pos == |missingPieces| ==> FirstIndex(Indices(missingPieces), HeldBy(bitfield)).None?
    {
      ghost var missing := Indices(missingPieces);
      pos := 0;
      while pos < |missingPieces| && !Has(bitfield, missingPieces[pos].index)
        invariant pos <= |missingPieces|
        invariant forall j :: 0 <= j < pos ==> !HeldBy(bitfield)(missing[j])
      {
        pos := pos + 1;
      }
      if pos < |missingPieces| {
        assert HeldBy(bitfield)(missing[pos]);
        FirstIndexAt(missing, HeldBy(bitfield), pos);
      }
    }

    /**
     * _next_missing (which nothing calls): the first missing piece the peer has
     * moves to ongoing_pieces and its first block is handed out; unlike the other
     * two sources of blocks, it records no pending request.
     */
    method NextMissing(peer: PeerId) returns (r: Option<BlockRef>)
      requires Valid() && peer in peers
      modifies this`missingPieces, this`ongoingPieces, pieces
      ensures Valid()
      ensures match FirstIndex(Indices(old(missingPieces)), HeldBy(peers[peer]))
        case None =>
          && r == None && missingPieces == old(missingPieces) && ongoingPieces == old(ongoingPieces)
          && forall i :: 0 <= i < |pieces| ==> pieces[i].blocks == old(pieces[i].blocks)
        case Some(pos) => r.Some? && Started(old(BlocksOf(pieces)), old(missingPieces), old(ongoingPieces), pos, r.value)
    {
      var pos := FindHeld(peers[peer]);
      if pos == |missingPieces| {
        return None;
      }
      var ref := StartPiece(pos);
      r := Some(ref);
    }

    /**
     * ongoing_pieces held blocks `before` (piece by piece) when _next_ongoing
     * handed out `ref`: the first piece the peer has that still had a Missing
     * block gave up its first Missing block, which is now Pending.
     */
    ghost predicate TookOngoing(before: seq<seq<Block>>, bitfield: seq<bool>, ref: BlockRef)
      reads this`ongoingPieces, ongoingPieces
    {
      && |before| == |ongoingPieces|
      && exists j ::
        && 0 <= j < |ongoingPieces| && Has(bitfield, ongoingPieces[j].index)
        && (forall i :: 0 <= i < j && Has(bitfield, ongoingPieces[i].index) ==> Requested(before[i]).0.None?)
        && Requested(before[j]).0.Some?
        && ref == RefOf(Requested(before[j]).0.value) && ref.piece == ongoingPieces[j].index
        && ongoingPieces[j].blocks == Requested(before[j]).1
    }

    /** Some ongoing piece the peer has still has a Missing block, so _next_ongoing finds work. */
    ghost predicate OngoingWork(bitfield: seq<bool>)
      reads this`ongoingPieces, ongoingPieces
    {
      exists j :: 0 <= j < |ongoingPieces| && Has(bitfield, ongoingPieces[j].index) && Requested(ongoingPieces[j].blocks).0.Some?
    }

    /**
     * What next_request does once no request has expired, given the state
     * before it: `work` says whether some ongoing piece the peer has still had
     * a Missing block, `blocks` the blocks of each ongoing piece, `all` the
     * blocks of every piece, `missing`, `ongoing` and `pending` the three lists.
     * With work, that piece hands out a block and no list but pending_blocks
     * changes. Without it, the rarest missing piece the peer has is started, and
     * only that piece's first block changes, to Pending; and
     * when the peer has no missing piece, nothing is returned and nothing changes.
     * A block handed out is recorded as pending at `now`.
     */
    ghost predicate Chose(work: bool, blocks: seq<seq<Block>>, all: seq<seq<Block>>, missing: seq<Piece>, ongoing: seq<Piece>,
                          pending: seq<PendingRequest>, bitfield: seq<bool>, now: int, r: Option<BlockRef>)
      reads this, ongoingPieces, pieces
    {
      if work then
        && r.Some? && missingPieces == missing && ongoingPieces == ongoing
        && pendingBlocks == pending + [PendingRequest(r.value, now)]
        && TookOngoing(blocks, bitfield, r.value)
        && |all| == |pieces| && forall k :: 0 <= k < |pieces| && k != r.value.piece ==> pieces[k].blocks == all[k]
      else if r.Some? then
        && (exists pos: nat :: IsRarest(Indices(missing), peers, bitfield, pos) && Started(all, missing, ongoing, pos, r.value))
        && pendingBlocks == pending + [PendingRequest(r.value, now)]
      else
        && (forall k: nat :: !IsCandidate(Indices(missing), bitfield, k))
        && missingPieces == missing && ongoingPieces == ongoing && pendingBlocks == pending
        && |all| == |pieces| && forall k :: 0 <= k < |pieces| ==> pieces[k].blocks == all[k]
    }

    /** next_request past the expired requests: _next_ongoing, then the rarest missing piece. */
    method FreshRequest(peer: PeerId, now: int) returns (r: Option<BlockRef>)
      requires Valid() && peer in peers
      modifies this`missingPieces, this`ongoingPieces, this`pendingBlocks, pieces
      ensures Valid()
      ensures Chose(old(OngoingWork(peers[peer])), old(BlocksOf(ongoingPieces)), old(BlocksOf(pieces)),
                    old(missingPieces), old(ongoingPieces), old(pendingBlocks), peers[peer], now, r)
      ensures r.Some? ==>
        && Has(peers[peer], r.value.piece) && r.value.piece < |pieces| && r.value in pieces[r.value.piece].Refs()
        && PendingRequest(r.value, now) in pendingBlocks
    {
      r := NextOngoing(peer, now);
      if r.None? {
        r := RarestFirst(peer, now);
      }
    }

    /**
     * next_request: None for an unknown peer; otherwise an expired request is
     * re-issued first; failing that, the first ongoing piece the peer has that
     * still has a Missing block hands out that block; failing that, the rarest
     * missing piece the peer has is started (`Chose`). A block that is returned
     * belongs to a piece the peer has, is a block of the layout, and is pending
     * with time `now`.
     */
    method NextRequest(peer: PeerId, now: int) returns (r: Option<BlockRef>)
      requires Valid()
      modifies this`missingPieces, this`ongoingPieces, this`pendingBlocks, pieces
      ensures Valid()
      ensures peer !in peers ==>
        && r == None && pendingBlocks == old(pendingBlocks)
        && missingPieces == old(missingPieces) && ongoingPieces == old(ongoingPieces)
        && forall i :: 0 <= i < |pieces| ==> pieces[i].blocks == old(pieces[i].blocks)
      ensures r.Some? ==>
        && peer in peers && Has(peers[peer], r.value.piece)
        && r.value.piece < |pieces| && r.value in pieces[r.value.piece].Refs()
        && PendingRequest(r.value, now) in pendingBlocks
      ensures peer in peers ==>
        match FirstIndex(old(pendingBlocks), Expired(peers[peer], now))
        case Some(i) =>
          && r == Some(old(pendingBlocks)[i].block)
          && pendingBlocks == old(pendingBlocks)[i := old(pendingBlocks)[i].(added := now)]
          && missingPieces == old(missingPieces) && ongoingPieces == old(ongoingPieces)
          && forall k :: 0 <= k < |pieces| ==> pieces[k].blocks == old(pieces[k].blocks)
        case None =>
          Chose(old(OngoingWork(peers[peer])), old(BlocksOf(ongoingPieces)), old(BlocksOf(pieces)),
                old(missingPieces), old(ongoingPieces), old(pendingBlocks), peers[peer], now, r)
    {
      if peer !in peers {
        return None;
      }
      ghost var work, blocks, all := OngoingWork(peers[peer]), BlocksOf(ongoingPieces), BlocksOf(pieces);
      r := ExpiredRequests(peer, now);
      if r.Some? {
        return;
      }
      assert OngoingWork(peers[peer]) == work && BlocksOf(ongoingPieces) == blocks && BlocksOf(pieces) == all;
      r := FreshRequest(peer, now);
    }

    /**
     * block_received: the first pending request for (piece, offset) is dropped.
     * If that piece is ongoing, the block is stored; a piece that thereby becomes
     * complete is written out and moved to have_pieces when its data hashes to
     * its digest, and otherwise has every block reset to Missing and stays
     * ongoing. A piece that is not ongoing is ignored.
     */
    method BlockReceived(peer: PeerId, pieceIndex: nat, offset: nat, data: seq<byte>)
      requires Valid()
      modifies this`pendingBlocks, this`ongoingPieces, this`havePieces, this`written, pieces
      ensures Valid()
      ensures pendingBlocks == match FirstIndex(old(pendingBlocks), Matches(pieceIndex, offset))
        case None => old(pendingBlocks)
        case Some(i) => RemoveAt(old(pendingBlocks), i)
      ensures !(pieceIndex < |pieces| && pieces[pieceIndex] in old(ongoingPieces)) ==>
        && ongoingPieces == old(ongoingPieces) && havePieces == old(havePieces) && written == old(written)
        && forall i :: 0 <= i < |pieces| ==> pieces[i].blocks == old(pieces[i].blocks)
      ensures pieceIndex < |pieces| && pieces[pieceIndex] in old(ongoingPieces) ==>
        && (forall i :: 0 <= i < |pieces| && i != pieceIndex ==> pieces[i].blocks == old(pieces[i].blocks))
        && Stored(pieces[pieceIndex], Received(old(pieces[pieceIndex].blocks), offset, data),
                  old(ongoingPieces), old(havePieces), old(written))
    {
      DropFirstMatch(pieceIndex, offset);
      StoreBlock(pieceIndex, offset, data);
    }

    /** The first pending request for (piece, offset) is dropped, if there is one. */
    method DropFirstMatch(pieceIndex: nat, offset: nat)
      requires Valid()
      modifies this`pendingBlocks
      ensures Valid()
      ensures pendingBlocks == match FirstIndex(old(pendingBlocks), Matches(pieceIndex, offset))
        case None => old(pendingBlocks)
        case Some(i) => RemoveAt(old(pendingBlocks), i)
    {
      var i := FindFirst(pendingBlocks, Matches(pieceIndex, offset));
      if i < |pendingBlocks| {
        DropPending(i);
      }
    }

    /**
     * What storing a block into an ongoing piece leaves, given the piece's
     * blocks `got` after the store and the lists and log before it: an
     * incomplete piece stays ongoing; a complete piece whose data hashes to its
     * digest is written out and moves from ongoing_pieces to have_pieces; any
     * other complete piece has every block reset to Missing and stays ongoing.
     */
    ghost predicate Stored(piece: Piece, got: seq<Block>, ongoing: seq<Piece>, have: seq<Piece>, log: seq<(nat, seq<byte>)>)
      reads this, piece
    {
      if !AllRetrieved(got) then
        piece.blocks == got && ongoingPieces == ongoing && havePieces == have && written == log
      else if HashMatches(got, piece.hash) then
        && piece.blocks == got
        && (exists j :: 0 <= j < |ongoing| && ongoing[j] == piece && ongoingPieces == RemoveAt(ongoing, j))
        && havePieces == have + [piece]
        && written == log + [(Position(piece.index), Join(got).value)]
      else
        piece.blocks == Reset(got) && ongoingPieces == ongoing && havePieces == have && written == log
    }

    /** Where piece `index` starts in the output file. */
    function Position(index: nat): nat
    {
      index * pieceLength
    }

    /**
     * The piece half of block_received: if piece `pieceIndex` is ongoing the
     * block is stored, and a piece that thereby becomes complete is promoted or
     * reset; otherwise nothing changes.
     */
    method StoreBlock(pieceIndex: nat, offset: nat, data: seq<byte>)
      requires Valid()
      modifies this`ongoingPieces, this`havePieces, this`written, pieces
      ensures Valid()
      ensures !(pieceIndex < |pieces| && pieces[pieceIndex] in old(ongoingPieces)) ==>
        && ongoingPieces == old(ongoingPieces) && havePieces == old(havePieces) && written == old(written)
        && forall i :: 0 <= i < |pieces| ==> pieces[i].blocks == old(pieces[i].blocks)
      ensures pieceIndex < |pieces| && pieces[pieceIndex] in old(ongoingPieces) ==>
        && (forall i :: 0 <= i < |pieces| && i != pieceIndex ==> pieces[i].blocks == old(pieces[i].blocks))
        && Stored(pieces[pieceIndex], Received(old(pieces[pieceIndex].blocks), offset, data),
                  old(ongoingPieces), old(havePieces), old(written))
    {
      var j := FindOngoing(pieceIndex);
      if j == |ongoingPieces| {
        return;
      }
      StoreOngoing(j, offset, data);
    }

    /** The position of piece `pieceIndex` in ongoing_pieces, or |ongoing_pieces| when it is not there. */
    method FindOngoing(pieceIndex: nat) returns (j: nat)
      requires Valid()
      ensures j <= |ongoingPieces|
      ensures j < |ongoingPieces| <==> pieceIndex < |pieces| && pieces[pieceIndex] in ongoingPieces
      ensures j < |ongoingPieces| ==> ongoingPieces[j] == pieces[pieceIndex]
    {
      Partition();
      j := 0;
      while j < |ongoingPieces| && ongoingPieces[j].index != pieceIndex
        invariant 0 <= j <= |ongoingPieces|
        invariant forall k :: 0 <= k < j ==> ongoingPieces[k].index != pieceIndex
      {
        j := j + 1;
      }
      if j < |ongoingPieces| {
        assert ongoingPieces[j] in pieces;
      }
    }

    /** The block is stored into ongoing_pieces[j], which is then promoted or reset if complete. */
    method StoreOngoing(j: nat, offset: nat, data: seq<byte>)
      requires Valid() && j < |ongoingPieces|
      modifies this`ongoingPieces, this`havePieces, this`written, pieces
      ensures Valid()
      ensures forall i :: 0 <= i < |pieces| && pieces[i] != old(ongoingPieces)[j] ==> pieces[i].blocks == old(pieces[i].blocks)
      ensures Stored(old(ongoingPieces)[j], Received(old(ongoingPieces[j].blocks), offset, data),
                     old(ongoingPieces), old(havePieces), old(written))
    {
      Partition();
      var piece := ongoingPieces[j];
      assert piece in ongoingPieces;
      ReceiveInto(piece, offset, data);
      if piece.IsCompleteRetrieved() {
        CompletePieceHasData(piece);
        var d := piece.Data().value;
        if sha1(d) == piece.hash {
          written := written + [(Position(piece.index), d)];
          Promote(j);
        } else {
          ResetPiece(piece);
        }
      }
    }

    /** complete holds exactly when no piece is left missing or under way. */
    lemma CompleteIffNothingLeft()
      requires Valid()
      ensures Complete() <==> missingPieces == [] && ongoingPieces == []
      ensures |missingPieces| + |ongoingPieces| + |havePieces| == totalPieces
    {
      assert |multiset(missingPieces) + multiset(ongoingPieces) + multiset(havePieces)| == |multiset(pieces)|;
    }

    /** When the download is complete, every piece has been verified against its digest. */
    lemma CompleteMeansAllVerified()
      requires Valid() && Complete()
      ensures forall i :: 0 <= i < totalPieces ==>
        && pieces[i] in havePieces && HashMatches(pieces[i].blocks, hashes[i])
    {
      CompleteIffNothingLeft();
      assert multiset(havePieces) == multiset(pieces);
      forall i | 0 <= i < totalPieces
        ensures pieces[i] in havePieces
      {
        assert pieces[i] in multiset(pieces);
      }
    }

    /** bytes_downloaded counts whole pieces, so it never exceeds the pieces' total length. */
    lemma BytesDownloadedBound()
      requires Valid()
      ensures BytesDownloaded() <= totalPieces * pieceLength
      ensures Complete() ==> BytesDownloaded() == totalPieces * pieceLength
    {
      CompleteIffNothingLeft();
      MulMonotone(|havePieces|, totalPieces, pieceLength);
    }

    /** del pending_blocks[i] */
    method DropPending(i: nat)
      requires Valid() && i < |pendingBlocks|
      modifies this`pendingBlocks
      ensures Valid()
      ensures pendingBlocks == RemoveAt(old(pendingBlocks), i)
    {
      DropKeepsLayout(pendingBlocks, i, totalPieces, pieceLength, totalSize);
      pendingBlocks := RemoveAt(pendingBlocks, i);
    }

    /** piece.block_received on an ongoing piece. */
    method ReceiveInto(piece: Piece, offset: nat, data: seq<byte>)
      requires Valid() && piece in ongoingPieces
      modifies piece
      ensures Valid()
      ensures piece.blocks == Received(old(piece.blocks), offset, data)
      ensures forall i :: 0 <= i < |pieces| && pieces[i] != piece ==> pieces[i].blocks == old(pieces[i].blocks)
    {
      Partition();
      piece.BlockReceived(offset, data);
      OngoingChangeKeepsValid(piece);
    }

    /** piece.deleteall (reset) on an ongoing piece. */
    method ResetPiece(piece: Piece)
      requires Valid() && piece in ongoingPieces
      modifies piece
      ensures Valid()
      ensures piece.blocks == Reset(old(piece.blocks))
      ensures forall i :: 0 <= i < |pieces| && pieces[i] != piece ==> pieces[i].blocks == old(pieces[i].blocks)
    {
      Partition();
      piece.DeleteAll();
      OngoingChangeKeepsValid(piece);
    }

    /** ongoing_pieces.remove(piece) and have_pieces.append(piece), for a verified piece. */
    method Promote(j: nat)
      requires Valid() && j < |ongoingPieces|
      requires Verified(ongoingPieces[j])
      modifies this`ongoingPieces, this`havePieces
      ensures Valid()
      ensures ongoingPieces == RemoveAt(old(ongoingPieces), j)
      ensures havePieces == old(havePieces) + [old(ongoingPieces)[j]]
    {
      PromoteKeepsLists(missingPieces, ongoingPieces, havePieces, j);
      ongoingPieces, havePieces := RemoveAt(ongoingPieces, j), havePieces + [ongoingPieces[j]];
    }
  }

  /** _initiate_pieces: one piece per digest, its blocks laid out and Missing. */
  method InitiatePieces(hashes: seq<seq<byte>>, pieceLength: nat, totalSize: nat) returns (ps: seq<Piece>)
    requires pieceLength > 0
    ensures |ps| == |hashes|
    ensures forall i :: 0 <= i < |ps| ==>
      && fresh(ps[i]) && ps[i].index == i && ps[i].hash == hashes[i] && ps[i].Valid()
      && ps[i].Refs() == Layout(i, |hashes|, pieceLength, totalSize) && AllMissing(ps[i].blocks)
  {
    ps := [];
    var index := 0;
    while index < |hashes|
      invariant 0 <= index <= |hashes| && |ps| == index
      invariant forall i :: 0 <= i < index ==>
        && fresh(ps[i]) && ps[i].index == i && ps[i].hash == hashes[i] && ps[i].Valid()
        && ps[i].Refs() == Layout(i, |hashes|, pieceLength, totalSize) && AllMissing(ps[i].blocks)
    {
      var refs := Layout(index, |hashes|, pieceLength, totalSize);
      var blocks := seq(|refs|, k requires 0 <= k < |refs| => NewBlock(refs[k]));
      forall k | 0 <= k < |refs|
        ensures refs[k].piece == index && refs[k].offset == k * REQUEST_SIZE
      {
        LayoutOffsets(index, |hashes|, pieceLength, totalSize, k);
      }
      var piece := new Piece(index, blocks, hashes[index]);
      assert piece.Refs() == refs;
      ps := ps + [piece];
      index := index + 1;
    }
  }
}
