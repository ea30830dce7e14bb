/**
 * The Decoder object of the client's bencode module: a byte string and a
 * cursor that the decoding methods move forward as they read. Each method is
 * proved against the function of module Bencode that describes the same read
 * from a given position, so the round trip and the edge cases proved there
 * carry over to the object.
 *
 * An exception is returned as `Failed(e)`; a successful read returns
 * `Parsed(v, next)` with `next` equal to the new cursor.
 */
module BencodeDecoder {
  import opened Common
  import opened Bencode

  class Decoder {
    const data: seq<byte>
    var index: nat

    /** The cursor never passes the end of the data. */
    predicate Valid()
      reads this`index
    {
      index <= |data|
    }

    /** Decoder(data), once the isinstance check has let the bytes through. */
    constructor (input: seq<byte>)
      ensures data == input && index == 0 && Valid()
    {
      data := input;
      index := 0;
    }

    /** lol(): the byte under the cursor, or None when fewer than two bytes remain. */
    method Lol() returns (c: Option<byte>)
      requires Valid()
      ensures c.Some? <==> index + 1 < |data|
      ensures c.Some? ==> c.value == data[index]
    {
      if index + 1 >= |data| {
        return None;
      }
      return Some(data[index]);
    }

    /** consume(): step over the byte under the cursor. */
    method Consume()
      requires index < |data|
      modifies this`index
      ensures index == old(index) + 1 && Valid()
    {
      index := index + 1;
    }

    /** read(length): IndexError, leaving the cursor alone, when fewer than length bytes remain. */
    method Read(length: nat) returns (r: Res<seq<byte>>)
      requires Valid()
      modifies this`index
      ensures r == ReadAt(data, old(index), length)
      ensures r.Parsed? ==> index == r.next
      ensures r.Failed? ==> index == old(index)
      ensures Valid()
    {
      if index + length > |data| {
        return Failed(ShortRead);
      }
      r := Parsed(data[index..index + length], index + length);
      index := index + length;
    }

    /** read_until(token): RuntimeError, leaving the cursor alone, when no token follows. */
    method ReadUntil(token: byte) returns (r: Res<seq<byte>>)
      requires Valid()
      modifies this`index
      ensures r == ReadUntilAt(data, old(index), token)
      ensures r.Parsed? ==> index == r.next
      ensures r.Failed? ==> index == old(index)
      ensures Valid()
    {
      match FindFrom(data, token, index)
      case None =>
        return Failed(TokenMissing);
      case Some(occurrence) =>
        r := Parsed(data[index..occurrence], occurrence + 1);
        index := occurrence + 1;
    }

    /** decode_int: int() of the bytes up to the next `e`. */
    method DecodeInt() returns (r: Res<Value>)
      requires Valid()
      modifies this`index
      ensures r == DecodeIntAt(data, old(index))
      ensures r.Parsed? ==> index == r.next
      ensures Valid()
    {
      var digits := ReadUntil(TOKEN_END);
      match digits
      case Failed(e) =>
        return Failed(e);
      case Parsed(d, _) =>
        match ParseInt(d)
        case None =>
          return Failed(BadInt);
        case Some(n) =>
          return Parsed(Int(n), index);
    }

    /** decode_string: a decimal length, a colon, then that many bytes. */
    method DecodeString() returns (r: Res<Value>)
      requires Valid() && index < |data| && IsDigit(data[index])
      modifies this`index
      ensures r == DecodeStringAt(data, old(index))
      ensures r.Parsed? ==> index == r.next
      ensures Valid()
    {
      var digits := ReadUntil(TOKEN_SEPARATE);
      match digits
      case Failed(e) =>
        return Failed(e);
      case Parsed(d, _) =>
        match ParseInt(d)
        case None =>
          return Failed(BadInt);
        case Some(n) =>
          assert d[0] == data[old(index)];
          var bytes := Read(n);
          match bytes
          case Failed(e) =>
            return Failed(e);
          case Parsed(b, _) =>
            return Parsed(Bytes(b), index);
    }

    /** decode(): one value from the cursor; a stray `e` is None and stays unread. */
    method Decode() returns (r: Res<Value>)
      requires Valid()
      modifies this`index
      ensures r == DecodeAt(data, old(index))
      ensures r.Parsed? ==> index == r.next
      ensures Valid()
      decreases |data| - index, 0
    {
      var c := Lol();
      match c
      case None =>
        return Failed(EndOfFile);
      case Some(token) =>
        if token == TOKEN_INT {
          Consume();
          r := DecodeInt();
        } else if token == TOKEN_LIST {
          Consume();
          r := DecodeList();
        } else if token == TOKEN_DICT {
          Consume();
          r := DecodeDict();
        } else if token == TOKEN_END {
          return Parsed(Null, index);
        } else if IsDigit(token) {
          r := DecodeString();
        } else {
          return Failed(InvalidToken);
        }
    }

    /** decode_list: values up to the closing `e`, which is then consumed. */
    method DecodeList() returns (r: Res<Value>)
      requires Valid()
      modifies this`index
      ensures r == DecodeListAt(data, old(index), [])
      ensures r.Parsed? ==> index == r.next
      ensures Valid()
      decreases |data| - index, 1
    {
      var items: seq<Value> := [];
      while !(index < |data| && data[index] == TOKEN_END)
        invariant old(index) <= index <= |data|
        invariant DecodeListAt(data, index, items) == DecodeListAt(data, old(index), [])
        decreases |data| - index
      {
        var item := Decode();
        match item
        case Failed(e) =>
          return Failed(e);
        case Parsed(v, _) =>
          items := items + [v];
      }
      Consume();
      return Parsed(List(items), index);
    }

    /** decode_dict: key/value pairs up to the closing `e`, assigned in order. */
    method DecodeDict() returns (r: Res<Value>)
      requires Valid()
      modifies this`index
      ensures r == DecodeDictAt(data, old(index), [])
      ensures r.Parsed? ==> index == r.next
      ensures Valid()
      decreases |data| - index, 1
    {
      var entries: seq<(Value, Value)> := [];
      while !(index < |data| && data[index] == TOKEN_END)
        invariant old(index) <= index <= |data|
        invariant DecodeDictAt(data, index, entries) == DecodeDictAt(data, old(index), [])
        decreases |data| - index
      {
        var key := Decode();
        match key
        case Failed(e) =>
          return Failed(e);
        case Parsed(k, _) =>
          var value := Decode();
          match value
          case Failed(e) =>
            return Failed(e);
          case Parsed(v, _) =>
            if !Hashable(k) {
              return Failed(Unhashable);
            }
            entries := Insert(entries, k, v);
      }
      Consume();
      return Parsed(Dict(entries), index);
    }
  }

  /** Decoder(input).decode(): TypeError for anything but `bytes`, else one value from the start. */
  method DecodeBytes(input: ByteString) returns (r: Res<Value>)
    ensures r == DecodeInput(input)
  {
    if input.PyByteArray? {
      return Failed(NotBytes);
    }
    var decoder := new Decoder(input.data);
    r := decoder.Decode();
  }

  /** What the object decodes from a canonical value's encoding is that value, and all of it is read. */
  method DecodeWhatWasEncoded(v: Value) returns (r: Res<Value>)
    requires Canonical(v)
    ensures Encode(v).Some? && r == Parsed(v, |Encode(v).value.data|)
  {
    RoundTrip(v);
    r := DecodeBytes(Encode(v).value);
  }
}
