/**
 * The Encoder object of the client's bencode module: it holds one value and
 * encodes it by recursive dispatch on the value's type. Each method is proved
 * against `Bencode.EncodeNext`, whose outcome (bytes, None, or an exception)
 * and round trip are proved in module Bencode.
 *
 * The byte strings, lists and dicts the object returns are `bytes` here, as the
 * annotation of encode() states (see `Bencode.Encode` and
 * `Bencode.EncodedContainerRejected`).
 */
module BencodeEncoder {
  import opened Common
  import opened Bencode

  /** The first exception among the parts, if no part before it raised, is what Gather yields. */
  lemma {:induction false} GatherFirstRaised(parts: seq<Encoded>, i: nat)
    requires i < |parts| && parts[i].Raised?
    requires forall k :: 0 <= k < i ==> !parts[k].Raised?
    ensures Gather(parts) == parts[i]
  {
    if i > 0 {
      GatherFirstRaised(parts[1..], i - 1);
    }
  }

  /** Gathering one more encoded part appends its bytes. */
  lemma {:induction false} GatherSnoc(parts: seq<Encoded>, last: seq<byte>)
    requires Gather(parts).Encoded?
    ensures Gather(parts + [Encoded(last)]) == Encoded(Gather(parts).data + last)
  {
    if parts == [] {
      assert [] + [Encoded(last)] == [Encoded(last)];
    } else {
      assert (parts + [Encoded(last)])[1..] == parts[1..] + [Encoded(last)];
      GatherSnoc(parts[1..], last);
    }
  }

  /** With no exception among the parts, Gather raises none either. */
  lemma {:induction false} GatherNoRaise(parts: seq<Encoded>)
    requires forall k :: 0 <= k < |parts| ==> !parts[k].Raised?
    ensures !Gather(parts).Raised?
  {
    if parts != [] {
      GatherNoRaise(parts[1..]);
    }
  }

  /** Gathering the first i + 1 parts, the (i+1)-th being encoded. */
  lemma GatherPrefix(parts: seq<Encoded>, i: nat, d: seq<byte>)
    requires i < |parts| && parts[i] == Encoded(d) && Gather(parts[..i]).Encoded?
    ensures Gather(parts[..i + 1]) == Encoded(Gather(parts[..i]).data + d)
  {
    assert parts[..i + 1] == parts[..i] + [Encoded(d)];
    GatherSnoc(parts[..i], d);
  }

  /** The parts of a list: each item encoded in order. */
  function ItemParts(items: seq<Value>): (r: seq<Encoded>)
    ensures |r| == |items| && forall k :: 0 <= k < |items| ==> r[k] == EncodeNext(items[k])
  {
    seq(|items|, k requires 0 <= k < |items| => EncodeNext(items[k]))
  }

  /** The parts of a dict: each key followed by its value, or the exception of that entry. */
  function EntryParts(entries: seq<(Value, Value)>): (r: seq<Encoded>)
    ensures |r| == |entries|
  {
    seq(|entries|, k requires 0 <= k < |entries| => EntryBytes(EncodeNext(entries[k].0), EncodeNext(entries[k].1)))
  }

  lemma EntryPart(entries: seq<(Value, Value)>, k: nat)
    requires k < |entries|
    ensures EntryParts(entries)[k] == EntryBytes(EncodeNext(entries[k].0), EncodeNext(entries[k].1))
  {
  }

  /** A container's encoding from the gathered parts, as in EncodeNext. */
  function Wrap(open: byte, gathered: Encoded): Encoded
  {
    match gathered
    case Encoded(d) => Encoded([open] + d + [TOKEN_END])
    case Unsupported => Raised(JoinNone)
    case Raised(e) => Raised(e)
  }

  lemma ListParts(v: Value)
    requires v.List?
    ensures EncodeNext(v) == Wrap(TOKEN_LIST, Gather(ItemParts(v.items)))
  {
    assert ItemParts(v.items) == seq(|v.items|, k requires 0 <= k < |v.items| => EncodeNext(v.items[k]));
  }

  lemma DictParts(v: Value)
    requires v.Dict?
    ensures EncodeNext(v) == Wrap(TOKEN_DICT, Gather(EntryParts(v.entries)))
  {
    var entries := v.entries;
    assert EntryParts(entries) == seq(|entries|, k requires 0 <= k < |entries| =>
      EntryBytes(EncodeNext(entries[k].0), EncodeNext(entries[k].1)));
  }

  /** The items before i are encoded into `parts`, none of them raising. */
  predicate ListPrefix(v: Value, i: nat, parts: seq<Encoded>)
    requires v.List? && i <= |v.items|
  {
    parts == ItemParts(v.items)[..i] && forall k :: 0 <= k < i ==> !ItemParts(v.items)[k].Raised?
  }

  lemma ListGrows(v: Value, i: nat, parts: seq<Encoded>, part: Encoded)
    requires v.List? && i < |v.items| && ListPrefix(v, i, parts)
    requires part == ItemParts(v.items)[i] && !part.Raised?
    ensures ListPrefix(v, i + 1, parts + [part])
  {
    assert ItemParts(v.items)[..i + 1] == ItemParts(v.items)[..i] + [part];
  }

  /** A list whose items before i encode and whose item i raises: that item's exception. */
  lemma ListStops(v: Value, i: nat, parts: seq<Encoded>)
    requires v.List? && i < |v.items| && ListPrefix(v, i, parts)
    requires ItemParts(v.items)[i].Raised?
    ensures Wrap(TOKEN_LIST, Gather(ItemParts(v.items))) == ItemParts(v.items)[i]
  {
    GatherFirstRaised(ItemParts(v.items), i);
  }

  lemma ListDone(v: Value, parts: seq<Encoded>)
    requires v.List? && ListPrefix(v, |v.items|, parts)
    ensures parts == ItemParts(v.items) && !Gather(parts).Raised?
  {
    assert ItemParts(v.items)[..|v.items|] == ItemParts(v.items);
    GatherNoRaise(parts);
  }

  /** A dict whose entries before i encode and whose entry i does not: that entry's exception. */
  lemma DictStops(v: Value, i: nat)
    requires v.Dict? && i < |v.entries|
    requires Gather(EntryParts(v.entries)[..i]).Encoded?
    requires !EntryParts(v.entries)[i].Encoded?
    ensures Wrap(TOKEN_DICT, Gather(EntryParts(v.entries))) == EntryParts(v.entries)[i]
  {
    var parts := EntryParts(v.entries);
    GatherOutcome(parts[..i]);
    assert forall k :: 0 <= k < i ==> parts[..i][k] == parts[k];
    GatherFirstRaised(parts, i);
  }

  predicate DictPrefix(v: Value, i: nat, result: seq<byte>)
    requires v.Dict? && i <= |v.entries|
  {
    Gather(EntryParts(v.entries)[..i]).Encoded? && result == [TOKEN_DICT] + Gather(EntryParts(v.entries)[..i]).data
  }

  lemma Grows(parts: seq<Encoded>, i: nat, result: seq<byte>, d: seq<byte>)
    requires i < |parts| && parts[i] == Encoded(d)
    requires Gather(parts[..i]).Encoded? && result == [TOKEN_DICT] + Gather(parts[..i]).data
    ensures Gather(parts[..i + 1]).Encoded? && result + d == [TOKEN_DICT] + Gather(parts[..i + 1]).data
  {
    GatherPrefix(parts, i, d);
  }

  lemma DictGrows(v: Value, i: nat, result: seq<byte>, d: seq<byte>)
    requires v.Dict? && i < |v.entries| && DictPrefix(v, i, result)
    requires EntryParts(v.entries)[i] == Encoded(d)
    ensures DictPrefix(v, i + 1, result + d)
  {
    Grows(EntryParts(v.entries), i, result, d);
  }

  lemma DictDone(v: Value, result: seq<byte>)
    requires v.Dict? && DictPrefix(v, |v.entries|, result)
    ensures Wrap(TOKEN_DICT, Gather(EntryParts(v.entries))) == Encoded(result + [TOKEN_END])
  {
    assert EntryParts(v.entries)[..|v.entries|] == EntryParts(v.entries);
  }

  class Encoder {
    const data: Value

    /** Encoder(data). */
    constructor (value: Value)
      ensures data == value
    {
      data := value;
    }

    /** encode(): the held value's encoding as `bytes`, or None. */
    method Encode() returns (r: Option<ByteString>)
      ensures r == Bencode.Encode(data)
    {
      var e := EncodeNext(data);
      match e
      case Encoded(d) =>
        return Some(PyBytes(d));
      case _ =>
        return None;
    }

    /** encode_next: dispatch on the type; None for a value of no supported type. */
    method EncodeNext(v: Value) returns (r: Encoded)
      ensures r == Bencode.EncodeNext(v)
      decreases v, 2
    {
      match v
      case Int(n) =>
        r := EncodeInt(n);
      case List(_) =>
        r := EncodeList(v);
        ListParts(v);
      case Dict(_) =>
        r := EncodeDict(v);
        DictParts(v);
      case Bytes(b) =>
        r := EncodeBytes(b);
      case Null =>
        r := Unsupported;
    }

    /** _encode_int: `i`, the decimal digits, `e`. */
    method EncodeInt(n: int) returns (r: Encoded)
      ensures r == Bencode.EncodeNext(Int(n))
      ensures r.Encoded? && ParseInt(r.data[1..|r.data| - 1]) == Some(n)
    {
      var digits := Decimal(n);
      r := Encoded([TOKEN_INT] + digits + [TOKEN_END]);
      ParseDecimal(n);
      assert r.data[1..|r.data| - 1] == digits;
    }

    /** _encode_bytes: the decimal length, `:`, then the bytes themselves. */
    method EncodeBytes(b: seq<byte>) returns (r: Encoded)
      ensures r == Bencode.EncodeNext(Bytes(b))
      ensures r.Encoded? && |r.data| > |b| && r.data[|r.data| - |b|..] == b
    {
      var result := Decimal(|b|);
      result := result + [TOKEN_SEPARATE];
      result := result + b;
      r := Encoded(result);
    }

    /**
     * _encode_list: the items are encoded in order and the first exception
     * propagates; b''.join then raises TypeError on a None among the parts.
     */
    method EncodeList(v: Value) returns (r: Encoded)
      requires v.List?
      ensures r == Wrap(TOKEN_LIST, Gather(ItemParts(v.items)))
      decreases v, 1
    {
      var items := v.items;
      var parts: seq<Encoded> := [];
      for i := 0 to |items|
        invariant ListPrefix(v, i, parts)
      {
        var part := EncodeNext(items[i]);
        if part.Raised? {
          ListStops(v, i, parts);
          return part;
        }
        ListGrows(v, i, parts, part);
        parts := parts + [part];
      }
      ListDone(v, parts);
      var joined := Gather(parts);
      match joined
      case Unsupported =>
        r := Raised(JoinNone);
      case Encoded(d) =>
        r := Encoded([TOKEN_LIST] + d + [TOKEN_END]);
    }

    /**
     * One turn of the loop of _encode_dict: the key is encoded, then the
     * value, and an entry where either gives None is RuntimeError('Bad dict').
     */
    method EncodeEntry(v: Value, i: nat) returns (r: Encoded)
      requires v.Dict? && i < |v.entries|
      ensures r == EntryParts(v.entries)[i]
      ensures !r.Unsupported?
      decreases v, 0
    {
      EntryPart(v.entries, i);
      var key := EncodeNext(v.entries[i].0);
      if key.Raised? {
        return key;
      }
      var value := EncodeNext(v.entries[i].1);
      if value.Raised? {
        return value;
      }
      if key.Encoded? && value.Encoded? {
        var pair := key.data;
        pair := pair + value.data;
        return Encoded(pair);
      }
      return Raised(BadDict);
    }

    /**
     * _encode_dict: each key and value is encoded and appended in order; an
     * entry whose key or value gives None raises RuntimeError('Bad dict').
     */
    method EncodeDict(v: Value) returns (r: Encoded)
      requires v.Dict?
      ensures r == Wrap(TOKEN_DICT, Gather(EntryParts(v.entries)))
      decreases v, 1
    {
      var entries := v.entries;
      var result: seq<byte> := [TOKEN_DICT];
      for i := 0 to |entries|
        invariant DictPrefix(v, i, result)
      {
        var entry := EncodeEntry(v, i);
        if entry.Raised? {
          DictStops(v, i);
          return entry;
        }
        DictGrows(v, i, result, entry.data);
        result := result + entry.data;
      }
      DictDone(v, result);
      result := result + [TOKEN_END];
      return Encoded(result);
    }
  }

  /** Encoder(v).encode() gives bytes exactly for the values without a None inside. */
  method EncodeValue(v: Value) returns (r: Option<ByteString>)
    ensures r.Some? <==> Encodable(v)
    ensures r.Some? ==> r.value.PyBytes?
    ensures Canonical(v) ==> r.Some? && DecodeInput(r.value) == Parsed(v, |r.value.data|)
  {
    EncodableIff(v);
    if Canonical(v) {
      RoundTrip(v);
    }
    var encoder := new Encoder(v);
    r := encoder.Encode();
  }
}
