/**
 * Bencoding (section "bencoding" of BEP 3) as the client's Encoder and Decoder
 * implement it. Values are the Python objects the two classes exchange: int,
 * bytes, list, (ordered) dict and None, which the decoder returns for a stray
 * `e`. The decoder is specified here by functions over the input and a cursor
 * position; the class in decoder.dfy walks the input the same way.
 */
module Bencode {
  import opened Common

  const TOKEN_INT: byte := 105      // 'i'
  const TOKEN_LIST: byte := 108     // 'l'
  const TOKEN_DICT: byte := 100     // 'd'
  const TOKEN_END: byte := 101      // 'e'
  const TOKEN_SEPARATE: byte := 58  // ':'
  const MINUS: byte := 45           // '-'

  datatype Value =
    | Int(n: int)
    | Bytes(b: seq<byte>)
    | List(items: seq<Value>)
    | Dict(entries: seq<(Value, Value)>)
    | Null

  // ---------------------------------------------------------------- decimal numbers

  predicate IsDigit(c: byte)
  {
    48 <= c <= 57
  }

  predicate AllDigits(s: seq<byte>)
  {
    forall k :: 0 <= k < |s| ==> IsDigit(s[k])
  }

  /** str(n) for n >= 0, in ASCII. */
  function NatDigits(n: nat): (r: seq<byte>)
    ensures |r| >= 1 && AllDigits(r)
  {
    if n < 10 then [(48 + n) as byte] else NatDigits(n / 10) + [(48 + n % 10) as byte]
  }

  /** str(n), in ASCII: an optional minus sign, then the digits. */
  function Decimal(n: int): (r: seq<byte>)
    ensures |r| >= 1
    ensures n >= 0 ==> AllDigits(r)
    ensures forall k :: 0 <= k < |r| ==> IsDigit(r[k]) || (k == 0 && r[k] == MINUS)
  {
    if n < 0 then [MINUS] + NatDigits(-n) else NatDigits(n)
  }

  function DigitsValue(s: seq<byte>): nat
    requires AllDigits(s)
  {
    if s == [] then 0 else DigitsValue(s[..|s| - 1]) * 10 + (s[|s| - 1] - 48)
  }

  /**
   * int() applied to a byte string: an optional minus sign followed by at least
   * one digit; anything else is the ValueError int() raises (None here).
   */
  function ParseInt(s: seq<byte>): (r: Option<int>)
    ensures r.Some? && |s| > 0 && IsDigit(s[0]) ==> r.value >= 0
  {
    if |s| > 1 && s[0] == MINUS && AllDigits(s[1..]) then Some(0 - DigitsValue(s[1..]))
    else if |s| > 0 && AllDigits(s) then Some(DigitsValue(s))
    else None
  }

  lemma {:induction false} NatDigitsValue(n: nat)
    ensures DigitsValue(NatDigits(n)) == n
  {
    if n >= 10 {
      var s := NatDigits(n);
      assert s[..|s| - 1] == NatDigits(n / 10);
      NatDigitsValue(n / 10);
    }
  }

  /** int(str(n)) == n. */
  lemma ParseDecimal(n: int)
    ensures ParseInt(Decimal(n)) == Some(n)
  {
    if n < 0 {
      assert Decimal(n)[1..] == NatDigits(-n);
      NatDigitsValue(-n);
    } else {
      NatDigitsValue(n);
    }
  }

  // ---------------------------------------------------------------- encoder

  /** The exceptions the encoder raises: RuntimeError('Bad dict') and the TypeError of b''.join on a None. */
  datatype EncodeError = BadDict | JoinNone

  /** encode_next: the encoded bytes, None for an unsupported type, or an exception. */
  datatype Encoded = Encoded(data: seq<byte>) | Unsupported | Raised(error: EncodeError)

  /**
   * The items of a list, encoded in order: the first exception propagates;
   * without one, a None among the parts is reported as Unsupported; otherwise
   * the parts are concatenated.
   */
  function Gather(parts: seq<Encoded>): (r: Encoded)
  {
    if parts == [] then Encoded([])
    else if parts[0].Raised? then parts[0]
    else
      var rest := Gather(parts[1..]);
      if rest.Raised? then rest
      else if parts[0].Unsupported? || rest.Unsupported? then Unsupported
      else Encoded(parts[0].data + rest.data)
  }

  /** One key/value pair of _encode_dict: either part missing is RuntimeError('Bad dict'). */
  function EntryBytes(key: Encoded, value: Encoded): (r: Encoded)
    ensures r.Encoded? <==> key.Encoded? && value.Encoded?
    ensures !r.Unsupported?
  {
    if key.Raised? then key
    else if value.Raised? then value
    else if key.Unsupported? || value.Unsupported? then Raised(BadDict)
    else Encoded(key.data + value.data)
  }

  function EncodeNext(v: Value): (r: Encoded)
    decreases v
  {
    match v
    case Int(n) => Encoded([TOKEN_INT] + Decimal(n) + [TOKEN_END])
    case Bytes(b) => Encoded(Decimal(|b|) + [TOKEN_SEPARATE] + b)
    case List(items) =>
      var parts := seq(|items|, k requires 0 <= k < |items| => EncodeNext(items[k]));
      (match Gather(parts)
       case Encoded(d) => Encoded([TOKEN_LIST] + d + [TOKEN_END])
       case Unsupported => Raised(JoinNone)
       case Raised(e) => Raised(e))
    case Dict(entries) =>
      var parts := seq(|entries|, k requires 0 <= k < |entries| =>
        EntryBytes(EncodeNext(entries[k].0), EncodeNext(entries[k].1)));
      (match Gather(parts)
       case Encoded(d) => Encoded([TOKEN_DICT] + d + [TOKEN_END])
       case Unsupported => Raised(JoinNone)
       case Raised(e) => Raised(e))
    case Null => Unsupported
  }

  /** No None anywhere inside: the values the encoder accepts. */
  predicate Encodable(v: Value)
    decreases v
  {
    match v
    case Int(_) => true
    case Bytes(_) => true
    case List(items) => forall k :: 0 <= k < |items| ==> Encodable(items[k])
    case Dict(entries) => forall k :: 0 <= k < |entries| ==> Encodable(entries[k].0) && Encodable(entries[k].1)
    case Null => false
  }

  function DataOf(parts: seq<Encoded>): (r: seq<seq<byte>>)
    requires forall k :: 0 <= k < |parts| ==> parts[k].Encoded?
    ensures |r| == |parts| && forall k :: 0 <= k < |parts| ==> r[k] == parts[k].data
  {
    seq(|parts|, k requires 0 <= k < |parts| => parts[k].data)
  }

  lemma {:induction false} GatherOutcome(parts: seq<Encoded>)
    ensures Gather(parts).Encoded? <==> forall k :: 0 <= k < |parts| ==> parts[k].Encoded?
    ensures (forall k :: 0 <= k < |parts| ==> parts[k].Encoded?) ==> Gather(parts).data == Concat(DataOf(parts))
    ensures (exists k :: 0 <= k < |parts| && parts[k].Raised?) ==> Gather(parts).Raised?
  {
    if parts != [] {
      GatherOutcome(parts[1..]);
      if forall k :: 0 <= k < |parts| ==> parts[k].Encoded? {
        assert DataOf(parts)[1..] == DataOf(parts[1..]);
      }
      if exists k :: 0 <= k < |parts| && parts[k].Raised? {
        var k :| 0 <= k < |parts| && parts[k].Raised?;
        if k > 0 {
          assert parts[1..][k - 1].Raised?;
        }
      }
      if !parts[0].Encoded? {
        assert !Gather(parts).Encoded?;
      } else if exists k :: 0 <= k < |parts| - 1 && !parts[1..][k].Encoded? {
        var k :| 0 <= k < |parts| - 1 && !parts[1..][k].Encoded?;
        assert !parts[k + 1].Encoded?;
      }
    }
  }

  /**
   * encode_next produces bytes exactly for the values without a None inside,
   * and it returns None (rather than raising) only for a None at the top.
   */
  lemma {:induction false} EncodableIff(v: Value)
    ensures EncodeNext(v).Encoded? <==> Encodable(v)
    ensures EncodeNext(v).Unsupported? <==> v.Null?
    decreases v
  {
    match v
    case Int(_) =>
    case Bytes(_) =>
    case Null =>
    case List(items) =>
      var parts := seq(|items|, k requires 0 <= k < |items| => EncodeNext(items[k]));
      forall k | 0 <= k < |items| ensures parts[k].Encoded? <==> Encodable(items[k]) {
        EncodableIff(items[k]);
      }
      GatherOutcome(parts);
    case Dict(entries) =>
      var parts := seq(|entries|, k requires 0 <= k < |entries| =>
        EntryBytes(EncodeNext(entries[k].0), EncodeNext(entries[k].1)));
      forall k | 0 <= k < |entries|
        ensures parts[k].Encoded? <==> Encodable(entries[k].0) && Encodable(entries[k].1)
      {
        EncodableIff(entries[k].0);
        EncodableIff(entries[k].1);
      }
      GatherOutcome(parts);
  }

  // ---------------------------------------------------------------- dictionaries

  /** The keys a Python dict can hold among the decoded values: lists and dicts are unhashable. */
  predicate Hashable(v: Value)
  {
    v.Int? || v.Bytes? || v.Null?
  }

  /** The position of `key` among the keys, in insertion order. */
  function KeyIndex(entries: seq<(Value, Value)>, key: Value): (r: Option<nat>)
    ensures r.Some? ==> r.value < |entries| && entries[r.value].0 == key
    ensures r.Some? ==> forall j :: 0 <= j < r.value ==> entries[j].0 != key
    ensures r.None? <==> forall j :: 0 <= j < |entries| ==> entries[j].0 != key
  {
    if entries == [] then None
    else if entries[0].0 == key then Some(0)
    else match KeyIndex(entries[1..], key)
      case None => None
      case Some(i) => Some(i + 1)
  }

  /** d[key], or None for the KeyError. */
  function Lookup(entries: seq<(Value, Value)>, key: Value): Option<Value>
  {
    match KeyIndex(entries, key)
    case None => None
    case Some(i) => Some(entries[i].1)
  }

  /** d[key] = value on an OrderedDict: an existing key keeps its place, a new one goes last. */
  function Insert(entries: seq<(Value, Value)>, key: Value, value: Value): seq<(Value, Value)>
  {
    match KeyIndex(entries, key)
    case Some(p) => entries[p := (key, value)]
    case None => entries + [(key, value)]
  }

  lemma KeyIndexFirst(entries: seq<(Value, Value)>, key: Value, p: nat)
    requires p < |entries| && entries[p].0 == key
    requires forall j :: 0 <= j < p ==> entries[j].0 != key
    ensures KeyIndex(entries, key) == Some(p)
  {
  }

  /**
   * After d[key] = value, d[key] is value, every other key maps to what it did
   * before, and a key that was absent is appended.
   */
  lemma InsertLookup(entries: seq<(Value, Value)>, key: Value, value: Value)
    ensures Lookup(Insert(entries, key, value), key) == Some(value)
    ensures forall other :: other != key ==> Lookup(Insert(entries, key, value), other) == Lookup(entries, other)
    ensures KeyIndex(entries, key).None? ==> Insert(entries, key, value) == entries + [(key, value)]
    ensures KeyIndex(entries, key).Some? ==> |Insert(entries, key, value)| == |entries|
  {
    var r := Insert(entries, key, value);
    match KeyIndex(entries, key)
    case Some(p) =>
      KeyIndexFirst(r, key, p);
      forall other | other != key
        ensures Lookup(r, other) == Lookup(entries, other)
      {
        match KeyIndex(entries, other)
        case None =>
          assert forall j :: 0 <= j < |r| ==> r[j].0 != other;
        case Some(q) =>
          KeyIndexFirst(r, other, q);
      }
    case None =>
      KeyIndexFirst(r, key, |entries|);
      forall other | other != key
        ensures Lookup(r, other) == Lookup(entries, other)
      {
        match KeyIndex(entries, other)
        case None =>
          assert forall j :: 0 <= j < |r| ==> r[j].0 != other;
        case Some(q) =>
          KeyIndexFirst(r, other, q);
      }
  }

  predicate DistinctKeys(entries: seq<(Value, Value)>)
  {
    forall a, b :: 0 <= a < b < |entries| ==> entries[a].0 != entries[b].0
  }

  /**
   * The values that come back from decoding their own encoding: no None inside,
   * and every dict has distinct int or bytes keys.
   */
  predicate Canonical(v: Value)
    ensures Canonical(v) ==> Encodable(v)
    decreases v
  {
    match v
    case Int(_) => true
    case Bytes(_) => true
    case List(items) => forall k :: 0 <= k < |items| ==> Canonical(items[k])
    case Dict(entries) =>
      && (forall k :: 0 <= k < |entries| ==>
            (entries[k].0.Int? || entries[k].0.Bytes?) && Canonical(entries[k].0) && Canonical(entries[k].1))
      && DistinctKeys(entries)
    case Null => false
  }

  // ---------------------------------------------------------------- decoder

  /** EOFError, the RuntimeErrors of a bad token and of a missing token, IndexError, ValueError and TypeError. */
  datatype DecodeError = EndOfFile | InvalidToken | TokenMissing | ShortRead | BadInt | Unhashable | NotBytes

  /** A decoded value and the cursor position after it, or the exception raised. */
  datatype Res<+T> = Parsed(value: T, next: nat) | Failed(error: DecodeError)

  /** lol(): the byte at the cursor, or None when fewer than two bytes remain. */
  function Peek(data: seq<byte>, i: nat): (r: Option<byte>)
    ensures r.Some? <==> i + 1 < |data|
    ensures r.Some? ==> r.value == data[i]
  {
    if i + 1 >= |data| then None else Some(data[i])
  }

  /** data.index(token, j): the first position at or after j holding token. */
  function FindFrom(data: seq<byte>, token: byte, j: nat): (r: Option<nat>)
    requires j <= |data|
    ensures r.Some? ==> j <= r.value < |data| && data[r.value] == token
    ensures r.Some? ==> forall k :: j <= k < r.value ==> data[k] != token
    ensures r.None? <==> forall k :: j <= k < |data| ==> data[k] != token
    decreases |data| - j
  {
    if j == |data| then None
    else if data[j] == token then Some(j)
    else FindFrom(data, token, j + 1)
  }

  /** read_until(token): the bytes before the next token, the cursor just past it. */
  function ReadUntilAt(data: seq<byte>, j: nat, token: byte): (r: Res<seq<byte>>)
    requires j <= |data|
    ensures r.Failed? <==> token !in data[j..]
    ensures r.Failed? ==> r.error == TokenMissing
    ensures r.Parsed? ==>
      && j < r.next <= |data| && data[r.next - 1] == token
      && r.value == data[j..r.next - 1] && token !in r.value
  {
    match FindFrom(data, token, j)
    case None => Failed(TokenMissing)
    case Some(o) =>
      assert token in data[j..] by { assert data[j..][o - j] == token; }
      Parsed(data[j..o], o + 1)
  }

  /** read(length): exactly length bytes, or IndexError when fewer remain. */
  function ReadAt(data: seq<byte>, j: nat, length: nat): (r: Res<seq<byte>>)
    requires j <= |data|
    ensures r.Parsed? <==> j + length <= |data|
    ensures r.Parsed? ==> |r.value| == length && r.next == j + length && r.value == data[j..j + length]
    ensures r.Failed? ==> r.error == ShortRead
  {
    if j + length > |data| then Failed(ShortRead) else Parsed(data[j..j + length], j + length)
  }

  /** decode_int, with the cursor past the `i`. */
  function DecodeIntAt(data: seq<byte>, j: nat): (r: Res<Value>)
    requires j <= |data|
    ensures r.Parsed? ==> j < r.next <= |data| && r.value.Int?
  {
    match ReadUntilAt(data, j, TOKEN_END)
    case Failed(e) => Failed(e)
    case Parsed(digits, k) =>
      match ParseInt(digits)
      case None => Failed(BadInt)
      case Some(n) => Parsed(Int(n), k)
  }

  /** decode_string, with the cursor on the first digit of the length. */
  function DecodeStringAt(data: seq<byte>, i: nat): (r: Res<Value>)
    requires i < |data| && IsDigit(data[i])
    ensures r.Parsed? ==> i < r.next <= |data| && r.value.Bytes?
  {
    match ReadUntilAt(data, i, TOKEN_SEPARATE)
    case Failed(e) => Failed(e)
    case Parsed(digits, k) =>
      assert digits[0] == data[i];
      match ParseInt(digits)
      case None => Failed(BadInt)
      case Some(n) =>
        match ReadAt(data, k, n)
        case Failed(e) => Failed(e)
        case Parsed(b, next) => Parsed(Bytes(b), next)
  }

  /** decode(): dispatch on the byte at the cursor. A stray `e` gives None and is not consumed. */
  function DecodeAt(data: seq<byte>, i: nat): (r: Res<Value>)
    requires i <= |data|
    ensures r.Parsed? ==> i <= r.next <= |data|
    ensures r.Parsed? && r.next == i ==> i < |data| && data[i] == TOKEN_END && r.value == Null
    decreases |data| - i, 0
  {
    match Peek(data, i)
    case None => Failed(EndOfFile)
    case Some(c) =>
      if c == TOKEN_INT then DecodeIntAt(data, i + 1)
      else if c == TOKEN_LIST then DecodeListAt(data, i + 1, [])
      else if c == TOKEN_DICT then DecodeDictAt(data, i + 1, [])
      else if c == TOKEN_END then Parsed(Null, i)
      else if IsDigit(c) then DecodeStringAt(data, i)
      else Failed(InvalidToken)
  }

  /** decode_list, with the cursor past the `l` and the items read so far. */
  function DecodeListAt(data: seq<byte>, j: nat, items: seq<Value>): (r: Res<Value>)
    requires j <= |data|
    ensures r.Parsed? ==> j < r.next <= |data| && r.value.List?
    decreases |data| - j, 1
  {
    if j < |data| && data[j] == TOKEN_END then Parsed(List(items), j + 1)
    else
      match DecodeAt(data, j)
      case Failed(e) => Failed(e)
      case Parsed(v, k) => DecodeListAt(data, k, items + [v])
  }

  /**
   * decode_dict, with the cursor past the `d` and the entries read so far: a
   * key, then a value (None when an `e` follows the key), then the assignment,
   * which raises TypeError for an unhashable key.
   */
  function DecodeDictAt(data: seq<byte>, j: nat, entries: seq<(Value, Value)>): (r: Res<Value>)
    requires j <= |data|
    ensures r.Parsed? ==> j < r.next <= |data| && r.value.Dict?
    decreases |data| - j, 2
  {
    if j < |data| && data[j] == TOKEN_END then Parsed(Dict(entries), j + 1)
    else DictEntryAt(data, j, entries)
  }

  /**
   * One turn of decode_dict's loop: a key, then a value (None when an `e`
   * follows the key), then the assignment, which raises TypeError for an
   * unhashable key.
   */
  function DictEntryAt(data: seq<byte>, j: nat, entries: seq<(Value, Value)>): (r: Res<Value>)
    requires j <= |data| && !(j < |data| && data[j] == TOKEN_END)
    ensures r.Parsed? ==> j < r.next <= |data| && r.value.Dict?
    decreases |data| - j, 1
  {
    match DecodeAt(data, j)
    case Failed(e) => Failed(e)
    case Parsed(key, k) =>
      match DecodeAt(data, k)
      case Failed(e) => Failed(e)
      case Parsed(value, next) =>
        if !Hashable(key) then Failed(Unhashable)
        else DecodeDictAt(data, next, Insert(entries, key, value))
  }

  // ---------------------------------------------------------------- the Python types of byte strings

  /** A byte string together with its Python type; the decoder accepts only `bytes`. */
  datatype ByteString = PyBytes(data: seq<byte>) | PyByteArray(data: seq<byte>)

  /** Decoder(input).decode(): the isinstance check, then one value from the start. */
  function DecodeInput(input: ByteString): (r: Res<Value>)
    ensures input.PyByteArray? ==> r == Failed(NotBytes)
  {
    if input.PyByteArray? then Failed(NotBytes) else DecodeAt(input.data, 0)
  }

  /**
   * Encoder(v).encode() as written: only _encode_int (and _encode_string)
   * return `bytes`; _encode_bytes, _encode_list and _encode_dict build a
   * bytearray. None when encode_next gives no bytes.
   */
  function EncodeAsWritten(v: Value): Option<ByteString>
  {
    match EncodeNext(v)
    case Encoded(d) => Some(if v.Int? then PyBytes(d) else PyByteArray(d))
    case _ => None
  }

  /** Encoder(v).encode() returning `bytes`, as its annotation states. */
  function Encode(v: Value): Option<ByteString>
  {
    match EncodeNext(v)
    case Encoded(d) => Some(PyBytes(d))
    case _ => None
  }

  /** As written, the decoder refuses what the encoder makes of any byte string, list or dict. */
  lemma EncodedContainerRejected(v: Value)
    requires Encodable(v) && !v.Int?
    ensures EncodeAsWritten(v).Some? && DecodeInput(EncodeAsWritten(v).value) == Failed(NotBytes)
  {
    EncodableIff(v);
  }

  /** For instance the empty list: its encoding `le` comes back as a TypeError. */
  lemma EmptyListRejected()
    ensures EncodeAsWritten(List([])) == Some(PyByteArray([TOKEN_LIST, TOKEN_END]))
    ensures DecodeInput(EncodeAsWritten(List([])).value) == Failed(NotBytes)
  {
    var parts: seq<Encoded> := [];
    assert Gather(parts) == Encoded([]);
    assert EncodeNext(List([])) == Encoded([TOKEN_LIST] + [] + [TOKEN_END]);
    assert [TOKEN_LIST] + [] + [TOKEN_END] == [TOKEN_LIST, TOKEN_END];
  }

  // ---------------------------------------------------------------- round trip

  /** s occurs in data at position i. */
  predicate IsAt(data: seq<byte>, i: nat, s: seq<byte>)
  {
    i + |s| <= |data| && forall k :: 0 <= k < |s| ==> data[i + k] == s[k]
  }

  lemma IsAtSplit(data: seq<byte>, i: nat, a: seq<byte>, b: seq<byte>)
    requires IsAt(data, i, a + b)
    ensures IsAt(data, i, a) && IsAt(data, i + |a|, b)
  {
    forall k | 0 <= k < |a| ensures data[i + k] == a[k] {
      assert (a + b)[k] == a[k];
    }
    forall k | 0 <= k < |b| ensures data[i + |a| + k] == b[k] {
      assert (a + b)[|a| + k] == b[k];
    }
  }

  lemma IsAtFirst(data: seq<byte>, i: nat, s: seq<byte>)
    requires IsAt(data, i, s) && |s| > 0
    ensures data[i] == s[0]
  {
    assert data[i + 0] == s[0];
  }

  lemma IsAtSlice(data: seq<byte>, i: nat, s: seq<byte>)
    requires IsAt(data, i, s)
    ensures data[i..i + |s|] == s
  {
  }

  /** An encoding is at least two bytes long and never starts with `e`. */
  lemma {:induction false} EncodingShape(v: Value)
    requires Encodable(v)
    ensures EncodeNext(v).Encoded?
    ensures |EncodeNext(v).data| >= 2 && EncodeNext(v).data[0] != TOKEN_END
    ensures v.Int? ==> EncodeNext(v).data[0] == TOKEN_INT
    ensures v.Bytes? ==> IsDigit(EncodeNext(v).data[0])
    ensures v.List? ==> EncodeNext(v).data[0] == TOKEN_LIST
    ensures v.Dict? ==> EncodeNext(v).data[0] == TOKEN_DICT
  {
    EncodableIff(v);
  }

  function ItemData(items: seq<Value>): (r: seq<seq<byte>>)
    ensures |r| == |items|
  {
    seq(|items|, k requires 0 <= k < |items| => EncodeNextData(items[k]))
  }

  function EntryData(entries: seq<(Value, Value)>): (r: seq<seq<byte>>)
    ensures |r| == |entries|
  {
    seq(|entries|, k requires 0 <= k < |entries| => EncodeNextData(entries[k].0) + EncodeNextData(entries[k].1))
  }

  /** The bytes of an encodable value (none for the others). */
  function EncodeNextData(v: Value): (r: seq<byte>)
  {
    match EncodeNext(v)
    case Encoded(d) => d
    case _ => []
  }

  /** The layout of a list or dict encoding: the parts between the two tokens. */
  lemma {:induction false} ContainerLayout(v: Value)
    requires Encodable(v) && (v.List? || v.Dict?)
    ensures v.List? ==> EncodeNextData(v) == [TOKEN_LIST] + Concat(ItemData(v.items)) + [TOKEN_END]
    ensures v.Dict? ==> EncodeNextData(v) == [TOKEN_DICT] + Concat(EntryData(v.entries)) + [TOKEN_END]
  {
    EncodableIff(v);
    if v.List? {
      var items := v.items;
      var parts := seq(|items|, k requires 0 <= k < |items| => EncodeNext(items[k]));
      forall k | 0 <= k < |items| ensures parts[k].Encoded? {
        EncodableIff(items[k]);
      }
      GatherOutcome(parts);
      assert DataOf(parts) == ItemData(items);
    } else {
      var entries := v.entries;
      var parts := seq(|entries|, k requires 0 <= k < |entries| =>
        EntryBytes(EncodeNext(entries[k].0), EncodeNext(entries[k].1)));
      forall k | 0 <= k < |entries| ensures parts[k].Encoded? {
        EncodableIff(entries[k].0);
        EncodableIff(entries[k].1);
      }
      GatherOutcome(parts);
      assert DataOf(parts) == EntryData(entries);
    }
  }

  /** The first occurrence of a token is found where the skipped bytes do not contain it. */
  lemma FindAt(data: seq<byte>, token: byte, j: nat, o: nat)
    requires j <= o < |data| && data[o] == token
    requires forall k :: j <= k < o ==> data[k] != token
    ensures FindFrom(data, token, j) == Some(o)
  {
  }

  /** An int's encoding decodes back to it. */
  lemma DecodeEncodedInt(n: int, data: seq<byte>, i: nat)
    requires IsAt(data, i, [TOKEN_INT] + Decimal(n) + [TOKEN_END])
    ensures DecodeAt(data, i) == Parsed(Int(n), i + |Decimal(n)| + 2)
  {
    var d := Decimal(n);
    IsAtSplit(data, i, [TOKEN_INT] + d, [TOKEN_END]);
    IsAtSplit(data, i, [TOKEN_INT], d);
    IsAtFirst(data, i, [TOKEN_INT]);
    forall m | i + 1 <= m < i + 1 + |d| ensures data[m] != TOKEN_END {
      assert data[i + 1 + (m - i - 1)] == d[m - i - 1];
    }
    IsAtFirst(data, i + 1 + |d|, [TOKEN_END]);
    FindAt(data, TOKEN_END, i + 1, i + 1 + |d|);
    IsAtSlice(data, i + 1, d);
    ParseDecimal(n);
  }

  /** A byte string's encoding decodes back to it. */
  lemma DecodeEncodedBytes(b: seq<byte>, data: seq<byte>, i: nat)
    requires IsAt(data, i, Decimal(|b|) + [TOKEN_SEPARATE] + b)
    ensures DecodeAt(data, i) == Parsed(Bytes(b), i + |Decimal(|b|)| + 1 + |b|)
  {
    var d := Decimal(|b|);
    IsAtSplit(data, i, d + [TOKEN_SEPARATE], b);
    IsAtSplit(data, i, d, [TOKEN_SEPARATE]);
    IsAtFirst(data, i, d);
    forall m | i <= m < i + |d| ensures data[m] != TOKEN_SEPARATE {
      assert data[i + (m - i)] == d[m - i];
    }
    IsAtFirst(data, i + |d|, [TOKEN_SEPARATE]);
    FindAt(data, TOKEN_SEPARATE, i, i + |d|);
    IsAtSlice(data, i, d);
    IsAtSlice(data, i + |d| + 1, b);
    ParseDecimal(|b|);
  }

  /**
   * decode(encode(v)) == v: whatever precedes or follows it, the encoding of a
   * canonical value decodes back to the value, with the cursor just past it.
   */
  lemma {:induction false} DecodeEncoded(v: Value, data: seq<byte>, i: nat)
    requires Canonical(v)
    requires IsAt(data, i, EncodeNextData(v))
    ensures DecodeAt(data, i) == Parsed(v, i + |EncodeNextData(v)|)
    decreases v, 2
  {
    match v
    case Int(n) =>
      DecodeEncodedInt(n, data, i);
    case Bytes(b) =>
      DecodeEncodedBytes(b, data, i);
    case List(items) =>
      ContainerLayout(v);
      DecodeEncodedList(v, data, i);
    case Dict(entries) =>
      ContainerLayout(v);
      DecodeEncodedDict(v, data, i);
  }

  /** The encoding of a canonical value decodes to it wherever it sits. */
  lemma {:induction false} EncodingDecodes(w: Value, data: seq<byte>)
    requires Canonical(w)
    ensures Decodes(data, EncodeNextData(w), w)
    decreases w, 3
  {
    EncodingShape(w);
    forall p: nat | IsAt(data, p, EncodeNextData(w)) ensures DecodeAt(data, p) == Parsed(w, p + |EncodeNextData(w)|) {
      DecodeEncoded(w, data, p);
    }
  }

  /** A container's opening token, then its body and the closing `e`. */
  lemma Opening(data: seq<byte>, i: nat, open: byte, body: seq<byte>)
    requires IsAt(data, i, [open] + body + [TOKEN_END])
    ensures i < |data| && data[i] == open && IsAt(data, i + 1, body + [TOKEN_END])
  {
    assert [open] + body + [TOKEN_END] == [open] + (body + [TOKEN_END]);
    IsAtSplit(data, i, [open], body + [TOKEN_END]);
    IsAtFirst(data, i, [open]);
  }

  /** A list's encoding: `l`, then the items from the first on. */
  lemma {:induction false} DecodeEncodedList(v: Value, data: seq<byte>, i: nat)
    requires v.List? && Canonical(v)
    requires IsAt(data, i, [TOKEN_LIST] + Concat(ItemData(v.items)) + [TOKEN_END])
    ensures DecodeAt(data, i) == Parsed(v, i + |Concat(ItemData(v.items))| + 2)
    decreases v, 1
  {
    var parts := ItemData(v.items);
    forall m | 0 <= m < |v.items| ensures Decodes(data, parts[m], v.items[m]) {
      EncodingDecodes(v.items[m], data);
    }
    Opening(data, i, TOKEN_LIST, Concat(parts));
    DecodeItems([], v.items, parts, data, i + 1);
    assert [] + v.items == v.items;
  }

  function KeyData(entries: seq<(Value, Value)>): (r: seq<seq<byte>>)
    ensures |r| == |entries|
  {
    seq(|entries|, k requires 0 <= k < |entries| => EncodeNextData(entries[k].0))
  }

  function ValueData(entries: seq<(Value, Value)>): (r: seq<seq<byte>>)
    ensures |r| == |entries|
  {
    seq(|entries|, k requires 0 <= k < |entries| => EncodeNextData(entries[k].1))
  }

  /** Each entry of a canonical dict: a hashable key, its encoding and its value's, each decoding to its own. */
  lemma {:induction false} EntriesDecode(v: Value, data: seq<byte>)
    requires v.Dict? && Canonical(v)
    ensures forall m {:trigger EntryDecodes(data, EntryData(v.entries)[m], KeyData(v.entries)[m], ValueData(v.entries)[m], v.entries[m])} ::
      0 <= m < |v.entries| ==> EntryDecodes(data, EntryData(v.entries)[m], KeyData(v.entries)[m], ValueData(v.entries)[m], v.entries[m])
    decreases v, 0
  {
    var entries := v.entries;
    forall m | 0 <= m < |entries|
      ensures EntryDecodes(data, EntryData(entries)[m], KeyData(entries)[m], ValueData(entries)[m], entries[m])
    {
      EncodingDecodes(entries[m].0, data);
      EncodingDecodes(entries[m].1, data);
    }
  }

  /** A dict's encoding: `d`, then the entries from the first on. */
  lemma {:induction false} DecodeEncodedDict(v: Value, data: seq<byte>, i: nat)
    requires v.Dict? && Canonical(v)
    requires IsAt(data, i, [TOKEN_DICT] + Concat(EntryData(v.entries)) + [TOKEN_END])
    ensures DecodeAt(data, i) == Parsed(v, i + |Concat(EntryData(v.entries))| + 2)
    decreases v, 1
  {
    var entries := v.entries;
    var parts := EntryData(entries);
    EntriesDecode(v, data);
    Opening(data, i, TOKEN_DICT, Concat(parts));
    assert [] + entries == entries;
    DistinctKeysFresh([], entries);
    DecodeEntries([], entries, parts, KeyData(entries), ValueData(entries), data, i + 1);
    assert [] + entries == entries;
  }

  /** One turn of decode_list's loop on a byte that is not `e`. */
  lemma ListStep(data: seq<byte>, j: nat, items: seq<Value>, item: Value, next: nat)
    requires j < |data| && data[j] != TOKEN_END
    requires DecodeAt(data, j) == Parsed(item, next)
    ensures DecodeListAt(data, j, items) == DecodeListAt(data, next, items + [item])
  {
  }

  /** One turn of decode_dict's loop on a byte that is not `e`. */
  lemma DictStep(data: seq<byte>, j: nat, entries: seq<(Value, Value)>, key: Value, k: nat, value: Value, next: nat)
    requires j < |data| && data[j] != TOKEN_END
    requires DecodeAt(data, j) == Parsed(key, k)
    requires DecodeAt(data, k) == Parsed(value, next)
    requires Hashable(key)
    ensures DecodeDictAt(data, j, entries) == DecodeDictAt(data, next, Insert(entries, key, value))
  {
  }

  /** part does not start with `e`, and wherever it sits in data it decodes to value and ends there. */
  ghost predicate Decodes(data: seq<byte>, part: seq<byte>, value: Value)
  {
    && |part| > 0 && part[0] != TOKEN_END
    && forall p: nat {:trigger IsAt(data, p, part)} :: IsAt(data, p, part) ==> DecodeAt(data, p) == Parsed(value, p + |part|)
  }

  /** An entry's part is its key part then its value part, each decoding to its own; the key is hashable. */
  ghost predicate EntryDecodes(data: seq<byte>, part: seq<byte>, key: seq<byte>, value: seq<byte>, entry: (Value, Value))
  {
    part == key + value && Hashable(entry.0) && Decodes(data, key, entry.0) && Decodes(data, value, entry.1)
  }

  /** The closing `e` right after the parts. */
  lemma EndAt(data: seq<byte>, j: nat, parts: seq<seq<byte>>)
    requires parts == [] && IsAt(data, j, Concat(parts) + [TOKEN_END])
    ensures j < |data| && data[j] == TOKEN_END && Concat(parts) == []
  {
    assert Concat(parts) + [TOKEN_END] == [TOKEN_END];
    IsAtFirst(data, j, [TOKEN_END]);
  }

  lemma AppendFirst<T>(done: seq<T>, rest: seq<T>)
    requires |rest| > 0
    ensures done + [rest[0]] + rest[1..] == done + rest
  {
    assert [rest[0]] + rest[1..] == rest;
  }

  /** One turn of decode_list over the first part: the first item is read and the cursor moves past the part. */
  lemma ItemsTurn(done: seq<Value>, items: seq<Value>, parts: seq<seq<byte>>, data: seq<byte>, j: nat)
    requires |parts| == |items| > 0
    requires Decodes(data, parts[0], items[0])
    requires IsAt(data, j, Concat(parts) + [TOKEN_END])
    ensures IsAt(data, j + |parts[0]|, Concat(parts[1..]) + [TOKEN_END])
    ensures |Concat(parts)| == |parts[0]| + |Concat(parts[1..])|
    ensures DecodeListAt(data, j, done) == DecodeListAt(data, j + |parts[0]|, done + [items[0]])
  {
    var d := parts[0];
    var rest := Concat(parts[1..]);
    assert d + (rest + [TOKEN_END]) == Concat(parts) + [TOKEN_END];
    IsAtSplit(data, j, d, rest + [TOKEN_END]);
    IsAtFirst(data, j, d);
    ListStep(data, j, done, items[0], j + |d|);
  }

  /** decode_list, with items `done` already read, over parts that decode to items, then the closing `e`. */
  lemma {:induction false} DecodeItems(done: seq<Value>, items: seq<Value>, parts: seq<seq<byte>>, data: seq<byte>, j: nat)
    requires |parts| == |items|
    requires forall m {:trigger Decodes(data, parts[m], items[m])} :: 0 <= m < |items| ==> Decodes(data, parts[m], items[m])
    requires IsAt(data, j, Concat(parts) + [TOKEN_END])
    ensures DecodeListAt(data, j, done) == Parsed(List(done + items), j + |Concat(parts)| + 1)
    decreases |items|
  {
    if items == [] {
      EndAt(data, j, parts);
      assert done + items == done;
    } else {
      ItemsTurn(done, items, parts, data, j);
      DecodeItems(done + [items[0]], items[1..], parts[1..], data, j + |parts[0]|);
      AppendFirst(done, items);
    }
  }

  /** Each entry's key is new when it is assigned after `done` and the entries before it. */
  ghost predicate FreshKeys(done: seq<(Value, Value)>, entries: seq<(Value, Value)>)
    decreases |entries|
  {
    entries == [] || (KeyIndex(done, entries[0].0).None? && FreshKeys(done + [entries[0]], entries[1..]))
  }

  /** Distinct keys are fresh one after another. */
  lemma {:induction false} DistinctKeysFresh(done: seq<(Value, Value)>, entries: seq<(Value, Value)>)
    requires DistinctKeys(done + entries)
    ensures FreshKeys(done, entries)
    decreases |entries|
  {
    if entries != [] {
      var all := done + entries;
      assert KeyIndex(done, entries[0].0).None? by {
        forall a | 0 <= a < |done| ensures done[a].0 != entries[0].0 {
          assert all[a].0 != all[|done|].0;
        }
      }
      assert (done + [entries[0]]) + entries[1..] == all;
      DistinctKeysFresh(done + [entries[0]], entries[1..]);
    }
  }

  /**
   * The entries still to read, laid out from j: each entry's key is new, each
   * part decodes to its entry, and the closing `e` follows the parts.
   */
  ghost predicate EntriesAt(done: seq<(Value, Value)>, entries: seq<(Value, Value)>, parts: seq<seq<byte>>,
                            keys: seq<seq<byte>>, values: seq<seq<byte>>, data: seq<byte>, j: nat)
  {
    && |parts| == |entries| && |keys| == |entries| && |values| == |entries|
    && FreshKeys(done, entries)
    && (forall m {:trigger EntryDecodes(data, parts[m], keys[m], values[m], entries[m])} ::
          0 <= m < |entries| ==> EntryDecodes(data, parts[m], keys[m], values[m], entries[m]))
    && IsAt(data, j, Concat(parts) + [TOKEN_END])
  }

  /** Past the first entry, the rest are laid out in the same way. */
  lemma EntriesRest(done: seq<(Value, Value)>, entries: seq<(Value, Value)>, parts: seq<seq<byte>>,
                    keys: seq<seq<byte>>, values: seq<seq<byte>>, data: seq<byte>, j: nat)
    requires EntriesAt(done, entries, parts, keys, values, data, j) && entries != []
    ensures KeyIndex(done, entries[0].0).None? && EntryDecodes(data, parts[0], keys[0], values[0], entries[0])
    ensures IsAt(data, j, parts[0]) && j < |data| && data[j] != TOKEN_END
    ensures |Concat(parts)| == |parts[0]| + |Concat(parts[1..])|
    ensures EntriesAt(done + [entries[0]], entries[1..], parts[1..], keys[1..], values[1..], data, j + |parts[0]|)
  {
    assert EntryDecodes(data, parts[0], keys[0], values[0], entries[0]);
    var rest := Concat(parts[1..]);
    assert parts[0] + (rest + [TOKEN_END]) == Concat(parts) + [TOKEN_END];
    IsAtSplit(data, j, parts[0], rest + [TOKEN_END]);
    IsAtFirst(data, j, parts[0]);
    forall m | 0 <= m < |entries| - 1
      ensures EntryDecodes(data, parts[1..][m], keys[1..][m], values[1..][m], entries[1..][m])
    {
      assert EntryDecodes(data, parts[m + 1], keys[m + 1], values[m + 1], entries[m + 1]);
    }
  }

  /** One turn of decode_dict over the first entry: its key and value are read and assigned. */
  lemma EntriesTurn(done: seq<(Value, Value)>, entry: (Value, Value), part: seq<byte>,
                    key: seq<byte>, value: seq<byte>, data: seq<byte>, j: nat)
    requires KeyIndex(done, entry.0).None? && EntryDecodes(data, part, key, value, entry)
    requires IsAt(data, j, part) && j < |data| && data[j] != TOKEN_END
    ensures j + |part| <= |data|
    ensures DecodeDictAt(data, j, done) == DecodeDictAt(data, j + |part|, done + [entry])
  {
    IsAtSplit(data, j, key, value);
    assert Insert(done, entry.0, entry.1) == done + [entry];
    DictStep(data, j, done, entry.0, j + |key|, entry.1, j + |key| + |value|);
  }

  /** decode_dict, with entries `done` already assigned, over a key part then a value part per entry, then the closing `e`. */
  lemma {:induction false} DecodeEntries(done: seq<(Value, Value)>, entries: seq<(Value, Value)>, parts: seq<seq<byte>>,
                                         keys: seq<seq<byte>>, values: seq<seq<byte>>, data: seq<byte>, j: nat)
    requires EntriesAt(done, entries, parts, keys, values, data, j)
    ensures DecodeDictAt(data, j, done) == Parsed(Dict(done + entries), j + |Concat(parts)| + 1)
    decreases |entries|
  {
    if entries == [] {
      EndAt(data, j, parts);
      assert done + entries == done;
    } else {
      EntriesRest(done, entries, parts, keys, values, data, j);
      EntriesTurn(done, entries[0], parts[0], keys[0], values[0], data, j);
      DecodeEntries(done + [entries[0]], entries[1..], parts[1..], keys[1..], values[1..], data, j + |parts[0]|);
      AppendFirst(done, entries);
    }
  }

  /** The corrected encoder and the decoder are inverse on canonical values. */
  lemma RoundTrip(v: Value)
    requires Canonical(v)
    ensures Encode(v).Some? && Encode(v).value.PyBytes?
    ensures DecodeInput(Encode(v).value) == Parsed(v, |Encode(v).value.data|)
  {
    EncodableIff(v);
    DecodeEncoded(v, EncodeNextData(v), 0);
  }

  // ---------------------------------------------------------------- decoder edge cases

  /**
   * A key followed directly by `e` gets the value None, provided a byte follows
   * that `e` (lol() needs two): `d1:aee` is {b'a': None}, while `d1:ae` raises
   * EOFError.
   */
  lemma MissingValueIsNone()
    ensures DecodeAt([TOKEN_DICT, 49, TOKEN_SEPARATE, 97, TOKEN_END, TOKEN_END], 0)
         == Parsed(Dict([(Bytes([97]), Null)]), 5)
    ensures DecodeAt([TOKEN_DICT, 49, TOKEN_SEPARATE, 97, TOKEN_END], 0) == Failed(EndOfFile)
  {
    var data: seq<byte> := [TOKEN_DICT, 49, TOKEN_SEPARATE, 97, TOKEN_END, TOKEN_END];
    StringAt(data, 1, 97);
    assert DecodeAt(data, 4) == Parsed(Null, 4);
    DictStep(data, 1, [], Bytes([97]), 4, Null, 4);
    assert Insert([], Bytes([97]), Null) == [(Bytes([97]), Null)];
    assert DecodeAt(data, 0) == DecodeDictAt(data, 1, []);
    assert DecodeDictAt(data, 4, [(Bytes([97]), Null)]) == Parsed(Dict([(Bytes([97]), Null)]), 5);
    var short: seq<byte> := [TOKEN_DICT, 49, TOKEN_SEPARATE, 97, TOKEN_END];
    StringAt(short, 1, 97);
    assert DecodeAt(short, 0) == DecodeDictAt(short, 1, []);
    assert DecodeAt(short, 4) == Failed(EndOfFile);
  }

  /** `1:c` at position i of data decodes to the one-byte string c. */
  lemma StringAt(data: seq<byte>, i: nat, c: byte)
    requires i + 4 <= |data| && data[i] == 49 && data[i + 1] == TOKEN_SEPARATE && data[i + 2] == c
    ensures DecodeAt(data, i) == Parsed(Bytes([c]), i + 3)
  {
    FindAt(data, TOKEN_SEPARATE, i, i + 1);
    assert data[i..i + 1] == [49];
    assert ParseInt([49]) == Some(1);
    assert data[i + 2..i + 3] == [c];
  }

  /** `iNe` with one digit N at position i of data decodes to N. */
  lemma DigitAt(data: seq<byte>, i: nat, n: nat)
    requires n < 10 && i + 3 < |data|
    requires data[i] == TOKEN_INT && data[i + 1] == (48 + n) as byte && data[i + 2] == TOKEN_END
    ensures DecodeAt(data, i) == Parsed(Int(n), i + 3)
  {
    FindAt(data, TOKEN_END, i + 1, i + 2);
    assert data[i + 1..i + 2] == [(48 + n) as byte];
    assert DigitsValue([(48 + n) as byte]) == DigitsValue([]) * 10 + n;
  }

  /** A dict entry `1:c` `iNe` at position j of data. */
  lemma EntryAt(data: seq<byte>, j: nat, entries: seq<(Value, Value)>, c: byte, n: nat)
    requires n < 10 && j + 7 <= |data|
    requires data[j] == 49 && data[j + 1] == TOKEN_SEPARATE && data[j + 2] == c
    requires data[j + 3] == TOKEN_INT && data[j + 4] == (48 + n) as byte && data[j + 5] == TOKEN_END
    ensures DecodeDictAt(data, j, entries) == DecodeDictAt(data, j + 6, Insert(entries, Bytes([c]), Int(n)))
  {
    StringAt(data, j, c);
    DigitAt(data, j + 3, n);
    DictStep(data, j, entries, Bytes([c]), j + 3, Int(n), j + 6);
  }

  /** A repeated key keeps its first place and its last value: `d1:ai1e1:ai2ee` is {b'a': 2}. */
  lemma RepeatedKeyKeepsLastValue(data: seq<byte>)
    requires data == [TOKEN_DICT, 49, TOKEN_SEPARATE, 97, TOKEN_INT, 49, TOKEN_END,
                      49, TOKEN_SEPARATE, 97, TOKEN_INT, 50, TOKEN_END, TOKEN_END]
    ensures DecodeAt(data, 0) == Parsed(Dict([(Bytes([97]), Int(2))]), 14)
  {
    var a := Bytes([97]);
    assert DecodeDictAt(data, 1, []) == DecodeDictAt(data, 7, [(a, Int(1))]) by {
      EntryAt(data, 1, [], 97, 1);
      assert Insert([], a, Int(1)) == [(a, Int(1))];
    }
    assert DecodeDictAt(data, 7, [(a, Int(1))]) == DecodeDictAt(data, 13, [(a, Int(2))]) by {
      EntryAt(data, 7, [(a, Int(1))], 97, 2);
      KeyIndexFirst([(a, Int(1))], a, 0);
      assert Insert([(a, Int(1))], a, Int(2)) == [(a, Int(2))];
    }
    assert DecodeAt(data, 0) == DecodeDictAt(data, 1, []) by {
      assert data[0] == TOKEN_DICT && |data| == 14;
    }
    assert DecodeDictAt(data, 13, [(a, Int(2))]) == Parsed(Dict([(a, Int(2))]), 14) by {
      assert data[13] == TOKEN_END && |data| == 14;
    }
  }

  /** A single byte is never read: lol() needs two, so even `e` alone is EOFError. */
  lemma OneByteIsEndOfFile(c: byte)
    ensures DecodeAt([c], 0) == Failed(EndOfFile)
  {
  }

  /** A leading byte that starts no value is RuntimeError. */
  lemma InvalidLeadingByte(data: seq<byte>)
    requires |data| >= 2 && !IsDigit(data[0])
    requires data[0] !in {TOKEN_INT, TOKEN_LIST, TOKEN_DICT, TOKEN_END}
    ensures DecodeAt(data, 0) == Failed(InvalidToken)
  {
  }

  /** A byte string announcing more bytes than remain is IndexError: `5:ab` fails. */
  lemma ShortStringFails()
    ensures DecodeAt([53, TOKEN_SEPARATE, 97, 98], 0) == Failed(ShortRead)
  {
    var data: seq<byte> := [53, TOKEN_SEPARATE, 97, 98];
    FindAt(data, TOKEN_SEPARATE, 0, 1);
    assert data[0..1] == [53];
    assert ParseInt([53]) == Some(5);
  }
}
