/**
 * The message stream reader: a byte buffer fed by successive reads, from whose
 * head `Parse` takes at most one length-prefixed frame. The parser is modelled
 * exactly as written, including its four quirks:
 *   - it looks at the buffer only when it holds MORE than four bytes;
 *   - it compares the buffer length with the frame length L, not with 4 + L, so a
 *     frame whose last bytes have not arrived yet is consumed and decoded short;
 *   - a zero length prefix yields KeepAlive but is never removed from the buffer;
 *   - an unknown id yields nothing and removes nothing.
 */
module Stream {
  import opened Common
  import opened Wire

  /** What one call of parse produces: a message, nothing (None), or an exception. */
  datatype ParseOutcome = Parsed(message: Message) | NoMessage | Raised

  /** struct.unpack('>b', ...): the id byte read as a signed byte. */
  function SignedByte(b: byte): (r: int)
    ensures -128 <= r < 128
    ensures 0 <= r ==> r == b
  {
    if b < 128 then b else b - 256
  }

  predicate IsKnownId(id: int)
  {
    0 <= id <= 8
  }

  function Lift(d: Decoded<Message>): ParseOutcome
  {
    match d
    case Decoded(m) => Parsed(m)
    case StructError => Raised
  }

  /** The message a frame with a known id turns into, given the frame's bytes. */
  function DecodeFrame(id: int, data: seq<byte>): ParseOutcome
    requires IsKnownId(id)
  {
    if id == BITFIELD_ID as int then Lift(DecodeBitField(data))
    else if id == INTERESTED_ID as int then Parsed(Interested)
    else if id == NOT_INTERESTED_ID as int then Parsed(NotInterested)
    else if id == CHOKE_ID as int then Parsed(Choke)
    else if id == UNCHOKE_ID as int then Parsed(Unchoke)
    else if id == HAVE_ID as int then Lift(DecodeHave(data))
    else if id == PIECE_ID as int then Lift(DecodePiece(data))
    else if id == REQUEST_ID as int then Lift(DecodeRequest(data))
    else Lift(DecodeCancel(data))
  }

  function Min(a: int, b: int): int
  {
    if a <= b then a else b
  }

  /** One call of parse on a buffer: the outcome and the buffer left behind. */
  function ParseFrame(buffer: seq<byte>): (ParseOutcome, seq<byte>)
  {
    if |buffer| > 4 then
      var length: nat := ReadBE32(buffer);
      if length == 0 then (Parsed(KeepAlive), buffer)
      else if |buffer| >= length then
        var id := SignedByte(buffer[4]);
        if IsKnownId(id) then
          // the frame is cut at 4 + length, or at the end of a shorter buffer
          var end := Min(4 + length, |buffer|);
          (DecodeFrame(id, buffer[..end]), buffer[end..])
        else (NoMessage, buffer)
      else (NoMessage, buffer)
    else (NoMessage, buffer)
  }

  class MessageStream {
    var buffer: seq<byte>

    /** An optional initial buffer (the bytes read past the handshake). */
    constructor (initial: seq<byte>)
      ensures buffer == initial
    {
      buffer := initial;
    }

    /** Take at most one frame off the head of the buffer. */
    method Parse() returns (outcome: ParseOutcome)
      modifies this
      ensures (outcome, buffer) == ParseFrame(old(buffer))
    {
      outcome := NoMessage;
      if |buffer| > 4 {
        var length: nat := ReadBE32(buffer);
        if length == 0 {
          return Parsed(KeepAlive);
        }
        if |buffer| >= length {
          var id := SignedByte(buffer[4]);
          if IsKnownId(id) {
            var end := Min(4 + length, |buffer|);
            var data := buffer[..end];
            buffer := buffer[end..];
            outcome := DecodeFrame(id, data);
          }
        }
      }
    }

    /** One round of the read loop: append what was read, then try to parse. */
    method Feed(data: seq<byte>) returns (outcome: ParseOutcome)
      modifies this
      ensures (outcome, buffer) == ParseFrame(old(buffer) + data)
    {
      buffer := buffer + data;
      outcome := Parse();
    }
  }

  // ---------------------------------------------------------------- properties

  /** Four bytes or fewer, the empty buffer included: nothing, buffer unchanged. */
  lemma ParseNeedsMoreThanFourBytes(buffer: seq<byte>)
    requires |buffer| <= 4
    ensures ParseFrame(buffer) == (NoMessage, buffer)
  {
  }

  /** A zero length prefix yields KeepAlive and leaves the buffer as it was ... */
  lemma ParseKeepAlive(buffer: seq<byte>)
    requires |buffer| > 4 && buffer[..4] == [0, 0, 0, 0]
    ensures ParseFrame(buffer) == (Parsed(KeepAlive), buffer)
  {
    ReadBE32Prefix(buffer, [0, 0, 0, 0]);
  }

  /** ... so whatever arrives afterwards, every later parse yields KeepAlive again. */
  lemma {:induction false} KeepAliveNeverDrains(buffer: seq<byte>, later: seq<seq<byte>>)
    requires |buffer| > 4 && buffer[..4] == [0, 0, 0, 0]
    ensures ParseFrame(buffer + Concat(later)) == (Parsed(KeepAlive), buffer + Concat(later))
  {
    var b := buffer + Concat(later);
    assert b[..4] == buffer[..4];
    ParseKeepAlive(b);
  }

  /** A complete frame with a known id: exactly 4 + L bytes leave the head of the buffer. */
  lemma ParseCompleteFrame(buffer: seq<byte>)
    requires |buffer| > 4
    requires var length := ReadBE32(buffer);
      length > 0 && |buffer| >= 4 + length && IsKnownId(SignedByte(buffer[4]))
    ensures var length := ReadBE32(buffer);
      ParseFrame(buffer) == (DecodeFrame(SignedByte(buffer[4]), buffer[..4 + length]), buffer[4 + length..])
    ensures |ParseFrame(buffer).1| == |buffer| - 4 - ReadBE32(buffer)
  {
  }

  /** An unknown id: nothing, and nothing consumed (the frame stays at the head). */
  lemma ParseUnknownId(buffer: seq<byte>)
    requires |buffer| > 4
    requires var length := ReadBE32(buffer);
      length > 0 && |buffer| >= length && !IsKnownId(SignedByte(buffer[4]))
    ensures ParseFrame(buffer) == (NoMessage, buffer)
  {
  }

  /** Fewer bytes than the length prefix announces: wait for more. */
  lemma ParseWaitsForLength(buffer: seq<byte>)
    requires |buffer| > 4 && |buffer| < ReadBE32(buffer)
    ensures ParseFrame(buffer) == (NoMessage, buffer)
  {
  }

  /**
   * The length comparison misses the 4-byte prefix: a frame of which at least
   * L but fewer than 4 + L bytes have arrived is decoded from what is there and
   * the whole buffer is dropped.
   */
  lemma ParseTruncatedFrame(buffer: seq<byte>)
    requires |buffer| > 4
    requires var length := ReadBE32(buffer);
      length > 0 && length <= |buffer| < 4 + length && IsKnownId(SignedByte(buffer[4]))
    ensures ParseFrame(buffer) == (DecodeFrame(SignedByte(buffer[4]), buffer), [])
  {
    var length: nat := ReadBE32(buffer);
    assert Min(4 + length, |buffer|) == |buffer|;
    assert buffer[..|buffer|] == buffer && buffer[|buffer|..] == [];
  }

  /** For instance, a Have frame whose index is only half there raises and is lost. */
  lemma TruncatedHaveIsLost()
    ensures ParseFrame([0, 0, 0, 5, 4, 0, 0]) == (Raised, [])
  {
    ParseTruncatedFrame([0, 0, 0, 5, 4, 0, 0]);
  }

  /** The length prefix of a frame is read back from its first four bytes. */
  lemma FrameLength(frame: seq<byte>, rest: seq<byte>)
    requires |frame| >= 5
    ensures ReadBE32(frame + rest) == ReadBE32(frame)
    ensures (frame + rest)[4] == frame[4]
  {
    ReadBE32Prefix(frame + rest, frame);
  }

  lemma ParseHave(index: u32, rest: seq<byte>)
    ensures ParseFrame(EncodeHave(index) + rest) == (Parsed(Have(index)), rest)
  {
    var e := EncodeHave(index);
    HaveLayout(index);
    FrameLength(e, rest);
    ReadBE32OfBE32(5);
    assert (e + rest)[..9] == e && (e + rest)[9..] == rest;
    HaveRoundTrip(index);
  }

  lemma ParseRequest(index: u32, begin: u32, length: u32, rest: seq<byte>)
    ensures ParseFrame(EncodeRequest(index, begin, length) + rest) == (Parsed(Request(index, begin, length)), rest)
  {
    var e := EncodeRequest(index, begin, length);
    RequestRoundTrip(index, begin, length);
    FrameLength(e, rest);
    assert e[..4] == BE32(13) by { assert e[..5] == [0, 0, 0, 13, 6]; }
    ReadBE32Prefix(e, BE32(13));
    ReadBE32OfBE32(13);
    assert (e + rest)[..17] == e && (e + rest)[17..] == rest;
  }

  lemma ParseCancel(index: u32, begin: u32, length: u32, rest: seq<byte>)
    ensures ParseFrame(EncodeCancel(index, begin, length) + rest) == (Parsed(Cancel(index, begin, length)), rest)
  {
    var e := EncodeCancel(index, begin, length);
    CancelRoundTrip(index, begin, length);
    FrameLength(e, rest);
    assert e[..4] == BE32(13) by { assert e[..5] == [0, 0, 0, 13, 8]; }
    ReadBE32Prefix(e, BE32(13));
    ReadBE32OfBE32(13);
    assert (e + rest)[..17] == e && (e + rest)[17..] == rest;
  }

  lemma ParsePiece(index: u32, begin: u32, block: seq<byte>, rest: seq<byte>)
    requires PIECE_HEADER_LENGTH + |block| < TWO_32
    ensures ParseFrame(EncodePiece(index, begin, block) + rest) == (Parsed(Piece(index, begin, block)), rest)
  {
    var e := EncodePiece(index, begin, block);
    PieceRoundTrip(index, begin, block);
    FrameLength(e, rest);
    assert (e + rest)[..|e|] == e && (e + rest)[|e|..] == rest;
  }

  lemma ParseInterested(rest: seq<byte>)
    ensures ParseFrame(EncodeInterested() + rest) == (Parsed(Interested), rest)
  {
    var e := EncodeInterested();
    InterestedLayout();
    FrameLength(e, rest);
    assert (e + rest)[..5] == e && (e + rest)[5..] == rest;
  }
}
