/**
 * The peer-wire codec: the fixed 68-byte handshake and the length-prefixed
 * messages of the BitTorrent peer protocol (section "peer messages" of BEP 3).
 * Every multi-byte integer is a big-endian unsigned 32-bit field, packed and
 * unpacked the way Python's struct module does it: a layout whose size does
 * not match the data raises struct.error, modelled here as `StructError`.
 */
module Wire {
  import opened Common

  /** The block size every Request asks for unless told otherwise. */
  const REQUEST_SIZE: u32 := 16384

  const HANDSHAKE_LENGTH: nat := 68

  /** ASCII "BitTorrent protocol". */
  const PROTOCOL_NAME: seq<byte> :=
    [66, 105, 116, 84, 111, 114, 114, 101, 110, 116, 32, 112, 114, 111, 116, 111, 99, 111, 108]

  /** Message ids of the peer protocol. */
  const CHOKE_ID: byte := 0
  const UNCHOKE_ID: byte := 1
  const INTERESTED_ID: byte := 2
  const NOT_INTERESTED_ID: byte := 3
  const HAVE_ID: byte := 4
  const BITFIELD_ID: byte := 5
  const REQUEST_ID: byte := 6
  const PIECE_ID: byte := 7
  const CANCEL_ID: byte := 8

  /** The decoded messages; the handshake has a type of its own. */
  datatype Message =
    | KeepAlive
    | Choke
    | Unchoke
    | Interested
    | NotInterested
    | Have(index: u32)
    | BitField(bitfield: seq<bool>)
    | Request(index: u32, begin: u32, length: u32)
    | Piece(index: u32, begin: u32, block: seq<byte>)
    | Cancel(index: u32, begin: u32, length: u32)

  datatype Handshake = Handshake(infoHash: seq<byte>, peerId: seq<byte>)

  /** What a decoder gives back: a value, or the struct.error it raises. */
  datatype Decoded<+T> = Decoded(value: T) | StructError

  function Zeros(n: nat): (r: seq<byte>)
    ensures |r| == n && forall i :: 0 <= i < n ==> r[i] == 0
  {
    seq(n, _ => 0)
  }

  /** struct's `Ns` field: the bytes truncated, or padded with NUL bytes, to exactly n. */
  function Fit(s: seq<byte>, n: nat): (r: seq<byte>)
    ensures |r| == n
    ensures |s| >= n ==> r == s[..n]
    ensures |s| < n ==> r == s + Zeros(n - |s|)
  {
    if |s| >= n then s[..n] else s + Zeros(n - |s|)
  }

  // ---------------------------------------------------------------- handshake

  /** struct.pack('>B19s8x20s20s', 19, b'BitTorrent protocol', info_hash, peer_id). */
  function EncodeHandshake(h: Handshake): seq<byte>
  {
    [19] + PROTOCOL_NAME + Zeros(8) + Fit(h.infoHash, 20) + Fit(h.peerId, 20)
  }

  /**
   * Shorter than 68 bytes: None. Exactly 68: the two 20-byte fields at 28 and 48
   * (the length byte, protocol name and reserved bytes are not checked).
   * Longer: struct.unpack refuses the size.
   */
  function DecodeHandshake(data: seq<byte>): Decoded<Option<Handshake>>
  {
    if |data| < HANDSHAKE_LENGTH then Decoded(None)
    else if |data| > HANDSHAKE_LENGTH then StructError
    else Decoded(Some(Handshake(data[28..48], data[48..68])))
  }

  lemma HandshakeLayout(h: Handshake)
    ensures var r := EncodeHandshake(h);
      && |r| == HANDSHAKE_LENGTH
      && r[0] == 19
      && r[1..20] == PROTOCOL_NAME
      && r[20..28] == Zeros(8)
      && r[28..48] == Fit(h.infoHash, 20)
      && r[48..68] == Fit(h.peerId, 20)
  {
  }

  lemma HandshakeRoundTrip(h: Handshake)
    requires |h.infoHash| == 20 && |h.peerId| == 20
    ensures DecodeHandshake(EncodeHandshake(h)) == Decoded(Some(h))
  {
    HandshakeLayout(h);
    assert h.infoHash[..20] == h.infoHash && h.peerId[..20] == h.peerId;
  }

  lemma HandshakeTooShort(data: seq<byte>)
    requires |data| < HANDSHAKE_LENGTH
    ensures DecodeHandshake(data) == Decoded(None)
  {
  }

  // ---------------------------------------------------------------- fixed-size messages

  /** The 4-byte length prefix followed by the id byte. */
  function Header(length: u32, id: byte): (r: seq<byte>)
    ensures |r| == 5
  {
    BE32(length) + [id]
  }

  function EncodeInterested(): seq<byte>
  {
    Header(1, INTERESTED_ID)
  }

  function EncodeHave(index: u32): seq<byte>
  {
    Header(5, HAVE_ID) + BE32(index)
  }

  /** struct.unpack('>IbI', data): exactly nine bytes; the prefix and id are not checked. */
  function DecodeHave(data: seq<byte>): Decoded<Message>
  {
    if |data| != 9 then StructError else Decoded(Have(ReadBE32(data[5..])))
  }

  function EncodeRequest(index: u32, begin: u32, length: u32 := REQUEST_SIZE): seq<byte>
  {
    Header(13, REQUEST_ID) + BE32(index) + BE32(begin) + BE32(length)
  }

  /** struct.unpack('>IbIII', data): exactly seventeen bytes. */
  function DecodeRequest(data: seq<byte>): Decoded<Message>
  {
    if |data| != 17 then StructError
    else Decoded(Request(ReadBE32(data[5..]), ReadBE32(data[9..]), ReadBE32(data[13..])))
  }

  function EncodeCancel(index: u32, begin: u32, length: u32 := REQUEST_SIZE): seq<byte>
  {
    Header(13, CANCEL_ID) + BE32(index) + BE32(begin) + BE32(length)
  }

  function DecodeCancel(data: seq<byte>): Decoded<Message>
  {
    if |data| != 17 then StructError
    else Decoded(Cancel(ReadBE32(data[5..]), ReadBE32(data[9..]), ReadBE32(data[13..])))
  }

  /** The Piece message without its block: id, index and begin. */
  const PIECE_HEADER_LENGTH: nat := 9

  function EncodePiece(index: u32, begin: u32, block: seq<byte>): seq<byte>
    requires PIECE_HEADER_LENGTH + |block| < TWO_32
  {
    Header((PIECE_HEADER_LENGTH + |block|) as u32, PIECE_ID) + BE32(index) + BE32(begin) + block
  }

  /**
   * The prefix gives the length L; struct.unpack('>IbII{L-9}s', data[:L+4])
   * needs L >= 9 and at least L + 4 bytes.
   */
  function DecodePiece(data: seq<byte>): Decoded<Message>
  {
    if |data| < 4 then StructError
    else
      var length := ReadBE32(data);
      if length < PIECE_HEADER_LENGTH || |data| < length + 4 then StructError
      else Decoded(Piece(ReadBE32(data[5..]), ReadBE32(data[9..]), data[13..length + 4]))
  }

  /**
   * The prefix gives the length L; struct.unpack('>Ib{L-1}s', data) needs
   * L >= 1 and exactly L + 4 bytes. The payload becomes one bit per bit.
   */
  function DecodeBitField(data: seq<byte>): Decoded<Message>
  {
    if |data| < 4 then StructError
    else
      var length := ReadBE32(data);
      if length < 1 || |data| != length + 4 then StructError
      else Decoded(BitField(Bits(data[5..])))
  }

  // ---------------------------------------------------------------- properties

  /** Slicing the i-th 4-byte field out of a concatenation of BE32 fields. */
  lemma ReadField(prefix: seq<byte>, n: u32, rest: seq<byte>)
    ensures ReadBE32((prefix + BE32(n) + rest)[|prefix|..]) == n
  {
    var s := (prefix + BE32(n) + rest)[|prefix|..];
    assert s[..4] == BE32(n)[..4];
    ReadBE32Prefix(s, BE32(n));
    ReadBE32OfBE32(n);
  }

  lemma HaveLayout(index: u32)
    ensures EncodeHave(index) == [0, 0, 0, 5, 4] + BE32(index)
  {
  }

  lemma HaveRoundTrip(index: u32)
    ensures DecodeHave(EncodeHave(index)) == Decoded(Have(index))
  {
    ReadField(Header(5, HAVE_ID), index, []);
    assert Header(5, HAVE_ID) + BE32(index) + [] == EncodeHave(index);
  }

  lemma RequestRoundTrip(index: u32, begin: u32, length: u32)
    ensures |EncodeRequest(index, begin, length)| == 17
    ensures EncodeRequest(index, begin, length)[..5] == [0, 0, 0, 13, 6]
    ensures DecodeRequest(EncodeRequest(index, begin, length)) == Decoded(Request(index, begin, length))
  {
    var e := EncodeRequest(index, begin, length);
    var h := Header(13, REQUEST_ID);
    ReadField(h, index, BE32(begin) + BE32(length));
    ReadField(h + BE32(index), begin, BE32(length));
    ReadField(h + BE32(index) + BE32(begin), length, []);
    assert h + BE32(index) + (BE32(begin) + BE32(length)) == e;
    assert h + BE32(index) + BE32(begin) + (BE32(length)) == e;
    assert h + BE32(index) + BE32(begin) + BE32(length) + [] == e;
  }

  lemma CancelRoundTrip(index: u32, begin: u32, length: u32)
    ensures |EncodeCancel(index, begin, length)| == 17
    ensures EncodeCancel(index, begin, length)[..5] == [0, 0, 0, 13, 8]
    ensures DecodeCancel(EncodeCancel(index, begin, length)) == Decoded(Cancel(index, begin, length))
  {
    var e := EncodeCancel(index, begin, length);
    var h := Header(13, CANCEL_ID);
    ReadField(h, index, BE32(begin) + BE32(length));
    ReadField(h + BE32(index), begin, BE32(length));
    ReadField(h + BE32(index) + BE32(begin), length, []);
    assert h + BE32(index) + (BE32(begin) + BE32(length)) == e;
    assert h + BE32(index) + BE32(begin) + (BE32(length)) == e;
    assert h + BE32(index) + BE32(begin) + BE32(length) + [] == e;
  }

  lemma PieceRoundTrip(index: u32, begin: u32, block: seq<byte>)
    requires PIECE_HEADER_LENGTH + |block| < TWO_32
    ensures |EncodePiece(index, begin, block)| == 4 + PIECE_HEADER_LENGTH + |block|
    ensures ReadBE32(EncodePiece(index, begin, block)) == PIECE_HEADER_LENGTH + |block|
    ensures EncodePiece(index, begin, block)[4] == PIECE_ID
    ensures DecodePiece(EncodePiece(index, begin, block)) == Decoded(Piece(index, begin, block))
  {
    var e := EncodePiece(index, begin, block);
    var len := (PIECE_HEADER_LENGTH + |block|) as u32;
    var h := Header(len, PIECE_ID);
    ReadField([], len, [PIECE_ID] + BE32(index) + BE32(begin) + block);
    assert [] + BE32(len) + ([PIECE_ID] + BE32(index) + BE32(begin) + block) == e;
    ReadField(h, index, BE32(begin) + block);
    assert h + BE32(index) + (BE32(begin) + block) == e;
    ReadField(h + BE32(index), begin, block);
    assert h + BE32(index) + BE32(begin) + block == e;
    assert e[13..len + 4] == block;
  }

  /** The Interested message is the five bytes 00 00 00 01 02. */
  lemma InterestedLayout()
    ensures EncodeInterested() == [0, 0, 0, 1, 2]
  {
  }

  /** A BitField frame decodes to eight bits per payload byte, high bit first. */
  lemma BitFieldDecodes(payload: seq<byte>)
    requires 1 + |payload| < TWO_32
    ensures DecodeBitField(Header((1 + |payload|) as u32, BITFIELD_ID) + payload)
         == Decoded(BitField(Bits(payload)))
  {
    var len := (1 + |payload|) as u32;
    var e := Header(len, BITFIELD_ID) + payload;
    ReadField([], len, [BITFIELD_ID] + payload);
    assert [] + BE32(len) + ([BITFIELD_ID] + payload) == e;
    assert e[5..] == payload;
  }

  // ---------------------------------------------------------------- test vectors

  lemma HaveVector()
    ensures EncodeHave(33) == [0, 0, 0, 5, 4, 0, 0, 0, 33]
    ensures DecodeHave([0, 0, 0, 5, 4, 0, 0, 0, 33]) == Decoded(Have(33))
  {
    HaveRoundTrip(33);
  }

  lemma RequestVector()
    ensures EncodeRequest(0, 2) == [0, 0, 0, 13, 6, 0, 0, 0, 0, 0, 0, 0, 2, 0, 0, 64, 0]
    ensures EncodeCancel(0, 2) == [0, 0, 0, 13, 8, 0, 0, 0, 0, 0, 0, 0, 2, 0, 0, 64, 0]
  {
  }

  lemma PieceVector()
    ensures EncodePiece(0, 0, [111, 107]) == [0, 0, 0, 11, 7, 0, 0, 0, 0, 0, 0, 0, 0, 111, 107]
  {
  }
}
