/**
 * The torrent-file reader of the client (class TorrentContent): field lookups
 * over an already-decoded metainfo value. Every lookup follows Python's own
 * rules for `d[key]` and `key in d` on the decoded objects, so a missing key,
 * a value of the wrong type and the guard against multi-file torrents each
 * come back as the exception Python would raise.
 */
module Metainfo {
  import opened Common
  import opened Bencode

  /** The dictionary keys the reader looks up, as ASCII bytes. */
  const INFO: seq<byte> := [105, 110, 102, 111]              // b'info'
  const FILES: seq<byte> := [102, 105, 108, 101, 115]        // b'files'
  const NAME: seq<byte> := [110, 97, 109, 101]               // b'name'
  const LENGTH: seq<byte> := [108, 101, 110, 103, 116, 104]  // b'length'
  const PIECES: seq<byte> := [112, 105, 101, 99, 101, 115]   // b'pieces'

  /** Size of one SHA-1 digest in the `pieces` string. */
  const HASH_LENGTH: nat := 20

  /** The Python exceptions the reader can raise. */
  datatype PyError = KeyError | TypeError | RuntimeError | IndexError | AttributeError

  /** A result, or the exception raised instead. */
  datatype Attempt<+T> = Ok(value: T) | Err(error: PyError)

  /** TorrentFileContainer(name, length); the name is kept as the raw bytes. */
  datatype FileEntry = FileEntry(name: seq<byte>, length: Value)

  /**
   * v[key] with a byte-string key: the value stored under the key when v is a
   * dict holding it, KeyError when the dict lacks it, and TypeError when v is
   * an int, bytes, a list or None, none of which is subscripted by bytes.
   */
  function Subscript(v: Value, key: seq<byte>): (r: Attempt<Value>)
    ensures r.Ok? ==> v.Dict? && exists i :: 0 <= i < |v.entries| && v.entries[i] == (Bytes(key), r.value)
    ensures r == Err(KeyError) <==> v.Dict? && forall i :: 0 <= i < |v.entries| ==> v.entries[i].0 != Bytes(key)
    ensures r == Err(TypeError) <==> !v.Dict?
  {
    match v
    case Dict(entries) =>
      (match KeyIndex(entries, Bytes(key))
       case None => Err(KeyError)
       case Some(i) => Ok(entries[i].1))
    case _ => Err(TypeError)
  }

  /** meta_data[b'info'][key]: the first exception raised along the way, or the field. */
  function Field(meta: Value, key: seq<byte>): (r: Attempt<Value>)
    ensures Subscript(meta, INFO).Err? ==> r == Subscript(meta, INFO)
    ensures Subscript(meta, INFO).Ok? ==> r == Subscript(Subscript(meta, INFO).value, key)
  {
    match Subscript(meta, INFO)
    case Err(e) => Err(e)
    case Ok(info) => Subscript(info, key)
  }

  /** Whether `pattern` occurs in `s` as a contiguous run of bytes. */
  predicate Occurs(pattern: seq<byte>, s: seq<byte>)
  {
    exists i :: 0 <= i <= |s| && pattern <= s[i..]
  }

  /**
   * `key in v` with a byte-string key: a key test on a dict, an element test on
   * a list, a substring test on bytes, and TypeError for an int or None.
   */
  function Contains(v: Value, key: seq<byte>): (r: Attempt<bool>)
    ensures v.Dict? ==> r == Ok(exists i :: 0 <= i < |v.entries| && v.entries[i].0 == Bytes(key))
    ensures r == Err(TypeError) <==> v.Int? || v.Null?
  {
    match v
    case Dict(entries) => Ok(KeyIndex(entries, Bytes(key)).Some?)
    case List(items) => Ok(Bytes(key) in items)
    case Bytes(b) => Ok(Occurs(key, b))
    case _ => Err(TypeError)
  }

  /**
   * multi_file: whether the info dictionary has a `files` key; the exception of
   * the info lookup, or of the membership test, propagates.
   */
  function MultiFile(meta: Value): (r: Attempt<bool>)
    ensures Subscript(meta, INFO).Err? ==> r == Err(Subscript(meta, INFO).error)
    ensures Subscript(meta, INFO).Ok? && Subscript(meta, INFO).value.Dict? ==>
      (r == Ok(true) <==> Subscript(Subscript(meta, INFO).value, FILES).Ok?)
    ensures Subscript(meta, INFO).Ok? && Subscript(meta, INFO).value.Dict? ==>
      (r == Ok(false) <==> Subscript(Subscript(meta, INFO).value, FILES) == Err(KeyError))
  {
    match Subscript(meta, INFO)
    case Err(e) => Err(e)
    case Ok(info) => Contains(info, FILES)
  }

  /**
   * The entry get_files_list appends: RuntimeError for a multi-file torrent,
   * then the `name` lookup, whose value must be bytes to be decoded
   * (AttributeError otherwise), then the `length` lookup.
   */
  function SingleFileEntry(meta: Value): (r: Attempt<FileEntry>)
    ensures MultiFile(meta) == Ok(true) ==> r == Err(RuntimeError)
    ensures MultiFile(meta).Err? ==> r == Err(MultiFile(meta).error)
    ensures r.Ok? <==>
      MultiFile(meta) == Ok(false) && Field(meta, NAME).Ok? && Field(meta, NAME).value.Bytes? && Field(meta, LENGTH).Ok?
    ensures r.Ok? ==> Field(meta, NAME) == Ok(Bytes(r.value.name)) && Field(meta, LENGTH) == Ok(r.value.length)
  {
    match MultiFile(meta)
    case Err(e) => Err(e)
    case Ok(multi) =>
      if multi then Err(RuntimeError)
      else match Field(meta, NAME)
        case Err(e) => Err(e)
        case Ok(name) =>
          if !name.Bytes? then Err(AttributeError)
          else match Field(meta, LENGTH)
            case Err(e) => Err(e)
            case Ok(length) => Ok(FileEntry(name.b, length))
  }

  class TorrentContent {
    const metaData: Value
    var fileList: seq<FileEntry>

    /** A reader over decoded metainfo, with the file list still empty. */
    constructor (meta: Value)
      ensures metaData == meta && fileList == []
    {
      metaData := meta;
      fileList := [];
    }

    /** get_files_list: append the single file's entry, or raise and leave the list alone. */
    method GetFilesList() returns (err: Option<PyError>)
      modifies this`fileList
      ensures SingleFileEntry(metaData).Ok? ==> err.None? && fileList == old(fileList) + [SingleFileEntry(metaData).value]
      ensures SingleFileEntry(metaData).Err? ==> err == Some(SingleFileEntry(metaData).error) && fileList == old(fileList)
    {
      var multi := MultiFile(metaData);
      if multi.Err? {
        return Some(multi.error);
      }
      if multi.value {
        return Some(RuntimeError);
      }
      var name := Field(metaData, NAME);
      if name.Err? {
        return Some(name.error);
      }
      if !name.value.Bytes? {
        return Some(AttributeError);
      }
      var length := Field(metaData, LENGTH);
      if length.Err? {
        return Some(length.error);
      }
      fileList := fileList + [FileEntry(name.value.b, length.value)];
      err := None;
    }

    /**
     * all_size: RuntimeError for a multi-file torrent, IndexError while the
     * file list is empty, otherwise the length of the first file listed.
     */
    function AllSize(): (r: Attempt<Value>)
      reads this`fileList
      ensures MultiFile(metaData).Err? ==> r == Err(MultiFile(metaData).error)
      ensures MultiFile(metaData) == Ok(true) ==> r == Err(RuntimeError)
      ensures MultiFile(metaData) == Ok(false) && fileList == [] ==> r == Err(IndexError)
      ensures r.Ok? <==> MultiFile(metaData) == Ok(false) && fileList != []
      ensures r.Ok? ==> r.value == fileList[0].length
    {
      match MultiFile(metaData)
      case Err(e) => Err(e)
      case Ok(multi) =>
        if multi then Err(RuntimeError)
        else if fileList == [] then Err(IndexError)
        else Ok(fileList[0].length)
    }

    /**
     * chunks: the `pieces` string cut into consecutive 20-byte SHA-1 digests.
     * Joined again they give the string back; every chunk but the last is
     * 20 bytes, the last holds the 1 to 20 bytes left over, and there are
     * ceil(len / 20) of them.
     */
    method Chunks() returns (r: Attempt<seq<seq<byte>>>)
      ensures Field(metaData, PIECES).Err? ==> r == Err(Field(metaData, PIECES).error)
      ensures Field(metaData, PIECES).Ok? && !Field(metaData, PIECES).value.Bytes? ==> r == Err(TypeError)
      ensures Field(metaData, PIECES).Ok? && Field(metaData, PIECES).value.Bytes? ==>
        r.Ok? && IsSplit(r.value, Field(metaData, PIECES).value.b)
    {
      var pieces := Field(metaData, PIECES);
      if pieces.Err? {
        return Err(pieces.error);
      }
      if !pieces.value.Bytes? {
        return Err(TypeError);
      }
      var data := pieces.value.b;
      var chunks: seq<seq<byte>> := [];
      var offset := 0;
      var length := |data|;
      while offset < length
        invariant CutUpTo(chunks, data, offset)
      {
        CutStep(chunks, data, offset);
        chunks := chunks + [data[offset..Smaller(offset + HASH_LENGTH, length)]];
        offset := offset + HASH_LENGTH;
      }
      CutDone(chunks, data, offset);
      return Ok(chunks);
    }
  }

  function Smaller(a: int, b: int): int
  {
    if a < b then a else b
  }

  /**
   * `chunks` is `data` cut into 20-byte digests: they join to `data`, all but
   * the last are full, the last is non-empty, and there are ceil(|data| / 20).
   */
  predicate IsSplit(chunks: seq<seq<byte>>, data: seq<byte>)
  {
    && Concat(chunks) == data
    && |chunks| == (|data| + HASH_LENGTH - 1) / HASH_LENGTH
    && (forall k :: 0 <= k < |chunks| - 1 ==> |chunks[k]| == HASH_LENGTH)
    && (chunks != [] ==> 0 < |chunks[|chunks| - 1]| <= HASH_LENGTH)
  }

  /**
   * The loop of chunks after it has cut `offset` bytes (or all of them): one
   * chunk per 20 bytes, each as long as what was left of `data` at its start
   * (at most 20), joining to the bytes cut so far.
   */
  predicate CutUpTo(chunks: seq<seq<byte>>, data: seq<byte>, offset: nat)
  {
    && offset == HASH_LENGTH * |chunks| < |data| + HASH_LENGTH
    && Concat(chunks) == data[..Smaller(offset, |data|)]
    && forall k :: 0 <= k < |chunks| ==> |chunks[k]| == Smaller(HASH_LENGTH, |data| - HASH_LENGTH * k)
  }

  lemma CutStep(chunks: seq<seq<byte>>, data: seq<byte>, offset: nat)
    requires CutUpTo(chunks, data, offset) && offset < |data|
    ensures CutUpTo(chunks + [data[offset..Smaller(offset + HASH_LENGTH, |data|)]], data, offset + HASH_LENGTH)
  {
    var next := Smaller(offset + HASH_LENGTH, |data|);
    ConcatAppend(chunks, data[offset..next]);
    assert data[..offset] + data[offset..next] == data[..next];
  }

  lemma CutDone(chunks: seq<seq<byte>>, data: seq<byte>, offset: nat)
    requires CutUpTo(chunks, data, offset) && offset >= |data|
    ensures IsSplit(chunks, data)
  {
    assert data[..|data|] == data;
  }

  /** Cutting the remaining bytes after the first chunk: the rest of a split is a split of the rest. */
  lemma {:induction false} SplitTail(chunks: seq<seq<byte>>, data: seq<byte>)
    requires IsSplit(chunks, data) && data != []
    ensures chunks != [] && |chunks[0]| == Smaller(HASH_LENGTH, |data|)
    ensures chunks[0] == data[..|chunks[0]|] && IsSplit(chunks[1..], data[|chunks[0]|..])
  {
    assert Concat(chunks) == chunks[0] + Concat(chunks[1..]);
    var rest := chunks[1..];
    assert forall k :: 0 <= k < |rest| - 1 ==> rest[k] == chunks[k + 1];
  }

  /** The digests are determined by the string: two splits of the same bytes are equal. */
  lemma {:induction false} SplitIsUnique(a: seq<seq<byte>>, b: seq<seq<byte>>, data: seq<byte>)
    requires IsSplit(a, data) && IsSplit(b, data)
    ensures a == b
    decreases |data|
  {
    if data != [] {
      SplitTail(a, data);
      SplitTail(b, data);
      SplitIsUnique(a[1..], b[1..], data[|a[0]|..]);
      assert a == [a[0]] + a[1..] && b == [b[0]] + b[1..];
    }
  }

  /**
   * A fresh reader, get_files_list, then all_size: for single-file metainfo the
   * size is the `length` recorded for the file; a multi-file torrent raises
   * RuntimeError; any other failure of get_files_list leaves all_size failing too.
   */
  method SizeOfSingleFile(meta: Value) returns (r: Attempt<Value>)
    ensures SingleFileEntry(meta).Ok? ==> r == Field(meta, LENGTH)
    ensures MultiFile(meta) == Ok(true) ==> r == Err(RuntimeError)
    ensures SingleFileEntry(meta).Err? ==> r.Err?
  {
    var torrent := new TorrentContent(meta);
    var err := torrent.GetFilesList();
    r := torrent.AllSize();
  }
}
