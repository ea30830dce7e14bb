# A verified model of a small BitTorrent client

This project models the core of a Python BitTorrent client in Dafny and proves
properties of the model. The core has four parts:

- **Peer-wire codec and frame parser** (`protocol.py`). It packs and unpacks the 68-byte handshake and the
  length-prefixed peer messages of BEP 3. `StreamOfPeerIteratoration.parse` takes one frame off the head of
  a byte buffer. The message loop of `ConnectionToPeer.start` keeps the per-connection flags (`choked`,
  `interested`, `pending_request`, `stopped`).
- **Blocks, pieces and the piece manager** (`Piece.py`). A piece is split into 16 KiB blocks, each Missing,
  Pending or Retrieved. The manager keeps the missing, ongoing and verified pieces. It also keeps the pending
  requests and the bitfield of every connected peer. It picks the next block to request for a peer and files
  received blocks, verifying each completed piece against its SHA-1 digest.
- **Bencoding** (`decoder.py`). The `Encoder` is a recursive dispatch on the type of a value. The `Decoder` is
  a recursive-descent parser that moves a byte cursor.
- **Metainfo fields** (`parser.py`). `TorrentContent` cuts the `pieces` string into 20-byte digests. It also
  guards single-file access with `multi_file`, `all_size` and `get_files_list`.

Files:

- `common.dfy` (module `Common`): bytes, unsigned 32-bit fields, big-endian packing, bits of a byte string.
- `wire.dfy` (module `Wire`): message encoders and decoders.
- `stream.dfy` (module `Stream`): the frame parser as a function, and the buffer-owning `MessageStream` class.
- `connection.dfy` (module `Connection`): the flag transitions of one turn of the message loop, and whole sessions.
- `pieces.dfy` (module `Pieces`): the `Block` record, the `Piece` class and the block layout of a torrent.
- `manager.dfy` (module `Manager`): the `PieceManager` class.
- `bencode.dfy` (module `Bencode`): values, the encoder as a function, the decoder as functions of a cursor
  position, and the round trip.
- `decoder.dfy` (module `BencodeDecoder`): the imperative `Decoder` class, proved against those functions.
- `encoder.dfy` (module `BencodeEncoder`): the `Encoder` class, proved against `Bencode.EncodeNext`.
- `metainfo.dfy` (module `Metainfo`): the `TorrentContent` class over an already-decoded metainfo value.

Modelling conventions:

- Python exceptions become values: `StructError`, `Raised`, `Failed(e)`, `Err(e)`, or an `ok` flag.
- SHA-1 is the manager's `sha1` constructor parameter.
- The clock is the `now` parameter.
- Writes to the output file are appended to the ghost log `written` as (position, bytes).

## Model

| member | source | states |
|---|---|---|
| Common.ReadBE32OfBE32 | protocol.py:195 | unpacking a packed big-endian `I` field gives the number back |
| Wire.Fit | protocol.py:282-288 | a `20s` field is the bytes truncated to, or NUL-padded up to, exactly 20 bytes |
| Wire.HandshakeLayout | protocol.py:281-288 | the handshake is 68 bytes: 19, "BitTorrent protocol", 8 zero bytes, then info_hash and peer_id fitted to 20 bytes each |
| Wire.HandshakeRoundTrip | protocol.py:290-297 | decoding an encoded handshake with 20-byte fields recovers info_hash and peer_id |
| Wire.HandshakeTooShort | protocol.py:294-295 | fewer than 68 bytes decode to None |
| Wire.HaveLayout | protocol.py:361-365 | Have(i) is `00 00 00 05 04` followed by BE32(i) |
| Wire.HaveRoundTrip | protocol.py:361-372 | Have.decode(Have(i).encode()) recovers i |
| Wire.RequestRoundTrip | protocol.py:384-398 | a Request is 17 bytes with prefix 13 and id 6, and decoding recovers index, begin and length |
| Wire.CancelRoundTrip | protocol.py:441-454 | a Cancel is 17 bytes with prefix 13 and id 8, and decoding recovers index, begin and length |
| Wire.PieceRoundTrip | protocol.py:413-429 | a Piece has prefix 9 + len(block) and id 7, and decoding recovers index, begin and block |
| Wire.InterestedLayout | protocol.py:332-336 | Interested is the five bytes `00 00 00 01 02` |
| Wire.BitFieldDecodes | protocol.py:319-326 | a BitField frame decodes to eight bits per payload byte, high bit first |
| Wire.HaveVector | test_protocol.py:48-56 | Have(33) encodes to `...00 00 00 21` and that frame decodes to index 33 |
| Wire.RequestVector | test_protocol.py:63-68 | Request(0, 2) defaults the length to 16384 and encodes to the test's 17 bytes, and Cancel(0, 2) to the bytes of the Cancel test |
| Wire.PieceVector | test_protocol.py:83-88 | Piece(0, 0, b'ok') encodes to the test's 15 bytes |
| Stream.SignedByte | protocol.py:201 | the id byte is read as a signed byte in -128..127, so ids of 128 and above are negative |
| Stream.MessageStream.constructor | protocol.py:157-159 | the buffer starts as the bytes left over from the handshake |
| Stream.MessageStream.Parse | protocol.py:191-245 | one call returns the outcome and leaves the buffer that `ParseFrame` gives for the old buffer |
| Stream.MessageStream.Feed | protocol.py:168-170 | appending what was read and then parsing is `ParseFrame` of the extended buffer |
| Stream.ParseNeedsMoreThanFourBytes | protocol.py:192-194 | a buffer of four bytes or fewer, the empty one included, gives None and stays unchanged |
| Stream.ParseKeepAlive | protocol.py:195-198 | a zero length prefix gives KeepAlive and removes nothing |
| Stream.KeepAliveNeverDrains | protocol.py:195-198 | once a zero prefix is at the head, every later parse gives KeepAlive whatever arrives |
| Stream.ParseCompleteFrame | protocol.py:200-207 | a complete frame with a known id removes exactly 4 + L bytes and decodes them |
| Stream.ParseUnknownId | protocol.py:241-245 | an unknown id gives None and removes nothing |
| Stream.ParseWaitsForLength | protocol.py:200-244 | fewer bytes than the prefix announces gives None and leaves the buffer alone |
| Stream.ParseTruncatedFrame | protocol.py:200-207 | between L and 4 + L bytes, the frame is decoded from what is there and the whole buffer is dropped |
| Stream.TruncatedHaveIsLost | protocol.py:225-228 | a Have frame with half its index present raises and is lost |
| Stream.ParseHave | protocol.py:225-228 | an encoded Have at the head parses to Have(i) and leaves exactly the bytes after it |
| Stream.ParseRequest | protocol.py:233-236 | an encoded Request at the head parses back and leaves exactly the bytes after it |
| Stream.ParseCancel | protocol.py:237-240 | an encoded Cancel at the head parses back and leaves exactly the bytes after it |
| Stream.ParsePiece | protocol.py:229-232 | an encoded Piece at the head parses back and leaves exactly the bytes after it |
| Stream.ParseInterested | protocol.py:213-215 | an encoded Interested at the head parses and leaves exactly the bytes after it |
| Connection.RemoveFirst | protocol.py:55-62 | list.remove takes away one occurrence of the flag and keeps every other flag's count |
| Connection.RequestOnlyWhenReady | protocol.py:80-84 | the pending flag is set and `request_chunk` is called exactly when the handled message leaves the side unchoked, interested and idle, and one pending flag is left |
| Connection.PendingFlagBlocksRequests | protocol.py:68-84 | while the pending flag is set, every message but a Piece keeps it and calls no `request_chunk` |
| Connection.PieceClearsPending | protocol.py:68-74 | a Piece removes one pending flag and hands the block on, and a Piece nobody asked for fails |
| Connection.AtMostOneInFlight | protocol.py:80-84 | no turn of the loop leaves two pending flags |
| Connection.HandleBalance | protocol.py:68-84 | in one turn, the pending flags left plus a delivered block equal the pending flags before plus a call of `request_chunk` |
| Connection.SessionAccounting | protocol.py:47-84 | over any message sequence, calls of `request_chunk` plus pending flags at the start equal blocks delivered plus pending flags at the end, and there is never more than one |
| Connection.StoppedBreaks | protocol.py:48-49 | a stopped connection handles no further message |
| Connection.NoRequestUntilUnchoke | protocol.py:42-45 | after negotiation the pending flag is not set and `request_chunk` is not called until an Unchoke arrives |
| Connection.UnchokeStartsRequesting | protocol.py:60-84 | the Unchoke after negotiation sets the pending flag and makes the first call of `request_chunk` |
| Connection.TwoChokesNeedTwoUnchokes | protocol.py:58-62 | one Unchoke removes only one of two 'choked' flags |
| Pieces.FirstIndex | Piece.py:45-48 | the position found satisfies the test and nothing before it does, and None means nothing does |
| Pieces.CountNotRetrieved | Piece.py:62-64 | the count is zero exactly when every block is Retrieved |
| Pieces.Join | Piece.py:79-81 | the join succeeds exactly when every block has a payload |
| Pieces.JoinPlacesBlocks | Piece.py:71-81 | with full-size payloads before it, payload k sits at byte k * 16384 of the joined data |
| Pieces.RequestedTakesFirstMissing | Piece.py:43-49 | the first Missing block becomes Pending and is returned, and None means no block was Missing |
| Pieces.Reset | Piece.py:38-41 | every block is back to Missing and everything else about it is kept |
| Pieces.ReceivedKeepsRetrieved | Piece.py:51-60 | the first block at the offset holds the data, and other blocks and Retrieved states are kept |
| Pieces.Piece.constructor | Piece.py:33-36 | a piece holds its index, block list and digest |
| Pieces.Piece.DeleteAll | Piece.py:38-41 | the loop resets every block to Missing and keeps the layout and validity |
| Pieces.Piece.NextRequestBlock | Piece.py:43-49 | the loop hands out the first Missing block as Pending and keeps the layout |
| Pieces.Piece.BlockReceived | Piece.py:51-60 | the loop stores the data in the first block at the offset, and an unknown offset changes nothing |
| Pieces.Piece.IsCompleteRetrieved | Piece.py:62-64 | true exactly when no block is left that is not Retrieved |
| Pieces.Piece.Data | Piece.py:71-81 | the piece's bytes exist exactly when every block has its payload |
| Pieces.ValidPieceIsSorted | Piece.py:79 | a valid piece lists its blocks by increasing offset, so sorting by offset changes nothing |
| Pieces.CompletePieceHasData | Piece.py:204-205 | a complete valid piece has its data, so hashing it cannot fail |
| Pieces.LayoutOffsets | Piece.py:114-129 | block k of every piece belongs to it, starts at k * 16384 and is 1 to 16384 bytes long |
| Pieces.LayoutNonEmpty | Piece.py:114-129 | every piece of the corrected layout has a first block, at offset 0 |
| Pieces.FirstBlock | Piece.py:114-123 | the first block of a piece belongs to it and starts at offset 0 |
| Pieces.StandardLayout | Piece.py:111-118 | a piece before the last has ceil(piece_length / 16384) full blocks, at least piece_length bytes |
| Pieces.LastBlocksSum | Piece.py:120-129 | the last piece's block lengths add up to its length |
| Pieces.LastPieceSumAsWritten | Piece.py:120-129 | as written, the last piece's blocks add up to total_size % piece_length |
| Pieces.LastPieceEmptyAsWritten | Piece.py:120-123 | as written, a size that is a multiple of the piece length leaves the last piece with no blocks |
| Pieces.LastPieceSum | Piece.py:114-129 | corrected, the pieces cover exactly total_size bytes |
| Manager.RemoveAt | Piece.py:197 | `del s[i]` removes exactly that one element |
| Manager.RarestIsUnique | Piece.py:261 | at most one position is the rarest, so the choice is determined |
| Manager.RarestPrefersFewerHolders | Piece.py:253-261 | a piece with one holder is chosen over a piece with two |
| Manager.RarestTieGoesToEarliest | Piece.py:261 | on equal counts the earlier missing piece wins, as with min() |
| Manager.FindFirst | Piece.py:194-198 | the loop returns the first position matching the test, or the length when none does |
| Manager.AppendKeepsLayout | Piece.py:246-247 | appending a request for a layout block keeps every pending request in the layout |
| Manager.RenewKeepsLayout | Piece.py:235 | resetting a request's time keeps every pending request in the layout |
| Manager.DropKeepsLayout | Piece.py:197 | deleting a request keeps the remaining ones in the layout |
| Manager.PieceManager.PartitionOf | Piece.py:94-99 | when the three lists share out the pieces, each listed piece is the piece of its number and sits in one list only |
| Manager.PieceManager.Partition | Piece.py:94-99 | the manager's three lists hold torrent pieces, each in one list only |
| Manager.PieceManager.StartKeepsLists | Piece.py:271-272 | moving a missing piece to the end of the ongoing list keeps the lists valid |
| Manager.PieceManager.PromoteKeepsLists | Piece.py:207-208 | moving a verified ongoing piece to the verified list keeps the lists valid |
| Manager.PieceManager.OngoingChangeKeepsValid | Piece.py:203-220 | changing one ongoing piece's blocks, keeping its layout, keeps the manager valid |
| Manager.PieceManager.FreshPieceGivesFirst | Piece.py:273-275 | a piece with no block requested hands out the first block of its layout |
| Manager.PieceManager.constructor | Piece.py:91-101 | every piece starts missing with all blocks Missing, and there are no peers, requests or writes |
| Manager.PieceManager.AddPeer | Piece.py:156-158 | the peer's bitfield is set, replacing any earlier one |
| Manager.PieceManager.UpdatePeer | Piece.py:160-165 | a known peer gains the piece, an unknown peer is ignored, and an index past the bitfield fails and changes nothing |
| Manager.PieceManager.RemovePeer | Piece.py:167-172 | the peer is forgotten, and an unknown peer changes nothing |
| Manager.PieceManager.CountHolders | Piece.py:257-259 | the loop counts exactly the peers whose bitfield has the piece |
| Manager.PieceManager.SelectRarest | Piece.py:251-261 | the position found is the rarest missing piece the peer has (ties to the earliest), and None means the peer has none |
| Manager.PieceManager.ExpiredRequests | Piece.py:224-237 | the first expired request for a piece the peer has is renewed at `now` and its block returned, and otherwise nothing changes |
| Manager.PieceManager.TakeBlock | Piece.py:244 | the ongoing piece hands out its first Missing block, no other piece changes, and the manager stays valid |
| Manager.PieceManager.AddPending | Piece.py:246-247 | the block is appended to the pending list with time `now` and the manager stays valid |
| Manager.PieceManager.FindWork | Piece.py:241-245 | the loop finds the first ongoing piece the peer has that still has a Missing block |
| Manager.PieceManager.TakeOngoing | Piece.py:241-248 | the ongoing piece found by the search hands out its first Missing block (`TookOngoing`), the block is pending at `now`, and no other piece changes |
| Manager.PieceManager.NextOngoing | Piece.py:239-249 | a block is returned exactly when some ongoing piece the peer has still has a Missing block; it is the first Missing block of the first such piece (`TookOngoing`), recorded as pending at `now`; with no such piece nothing changes |
| Manager.PieceManager.MoveToOngoing | Piece.py:262-263 | the missing piece moves to the end of the ongoing list, with no block requested |
| Manager.PieceManager.StartPiece | Piece.py:271-275 | (`Started`) a missing piece moves to the end of the ongoing list and hands out the first block of its layout, which is now Pending as next_request_block leaves it; no other piece's blocks change |
| Manager.PieceManager.RarestFirst | Piece.py:251-264 | the rarest missing piece the peer has is started (`Started`: its first block is now Pending, every other piece's blocks are unchanged) and that block is recorded as pending at `now`; None means the peer has no missing piece, and nothing changes |
| Manager.PieceManager.FindHeld | Piece.py:268-269 | the loop finds the first missing piece the peer has |
| Manager.PieceManager.NextMissing | Piece.py:266-276 | the first missing piece the peer has is started (`Started`: its first block is now Pending, every other piece's blocks are unchanged) and that block returned; with none nothing changes |
| Manager.PieceManager.FreshRequest | Piece.py:180-184 | (`Chose`) the first ongoing piece the peer has with a Missing block hands it out and the piece lists are unchanged; otherwise the rarest missing piece the peer has is started, with only its first block turned Pending (`Started`); None only when neither exists, and then nothing changes |
| Manager.PieceManager.NextRequest | Piece.py:174-185 | an unknown peer gets None; an expired request is renewed at `now` and returned first, with nothing else changed; otherwise the ongoing-then-rarest order of `Chose` holds; a returned block is one the peer has, is in the layout and is pending at `now` |
| Manager.PieceManager.BlockReceived | Piece.py:187-222 | the first matching request is dropped, the block is stored in its ongoing piece, and a completed piece is written and promoted when its hash matches, else reset |
| Manager.PieceManager.DropFirstMatch | Piece.py:194-198 | the first pending request for (piece, offset) is removed, if any |
| Manager.PieceManager.StoreBlock | Piece.py:200-222 | a piece that is not ongoing is ignored; otherwise the block is stored as `Stored` describes |
| Manager.PieceManager.FindOngoing | Piece.py:200-201 | the loop finds the ongoing piece with that number exactly when it is ongoing |
| Manager.PieceManager.StoreOngoing | Piece.py:203-220 | incomplete pieces stay ongoing; complete pieces that match their digest are written at index * piece_length and promoted; complete pieces that do not match are reset |
| Manager.PieceManager.CompleteIffNothingLeft | Piece.py:138-143 | complete holds exactly when no piece is missing or ongoing, and the three list lengths add up to the piece count |
| Manager.PieceManager.CompleteMeansAllVerified | Piece.py:138-143 | when complete, every piece is verified against its digest |
| Manager.PieceManager.BytesDownloadedBound | Piece.py:145-150 | bytes_downloaded never exceeds pieces * piece_length, and reaches it when complete |
| Manager.PieceManager.DropPending | Piece.py:197 | one pending request is deleted and the manager stays valid |
| Manager.PieceManager.ReceiveInto | Piece.py:203 | the block is stored in the ongoing piece and no other piece changes |
| Manager.PieceManager.ResetPiece | Piece.py:220 | every block of the ongoing piece goes back to Missing and no other piece changes |
| Manager.PieceManager.Promote | Piece.py:207-208 | a verified piece moves from the ongoing list to the verified list |
| Manager.InitiatePieces | Piece.py:103-131 | one piece per digest, numbered in order, with the blocks of the corrected layout (see ## Findings) all Missing |
| Bencode.Decimal | decoder.py:36 | str(n) in ASCII: an optional minus sign, then digits |
| Bencode.ParseDecimal | decoder.py:129-130 | int(str(n)) == n for every integer |
| Bencode.ParseInt | decoder.py:130 | a value parsed from digits with no sign is never negative |
| Bencode.EntryBytes | decoder.py:57-64 | a dict entry encodes only when both key and value do; a missing part raises instead of returning None |
| Bencode.GatherOutcome | decoder.py:49-53 | the items join exactly when each encodes, and then to their concatenation; an exception in an item propagates |
| Bencode.EncodableIff | decoder.py:21-33 | a value encodes exactly when it has no None inside, and gives None only when it is None |
| Bencode.KeyIndex | decoder.py:139-146 | a dict key's position is its first occurrence, and None means the key is absent |
| Bencode.InsertLookup | decoder.py:144 | `res[key] = obj` maps the key to obj, keeps every other key's value, and appends a new key at the end |
| Bencode.Peek | decoder.py:101-105 | lol() gives the byte at the cursor exactly when at least two bytes remain |
| Bencode.FindFrom | decoder.py:120 | data.index(token, j) finds the first occurrence at or after j, and None means there is none |
| Bencode.ReadUntilAt | decoder.py:117-126 | read_until returns the bytes before the next token and moves past it, or fails when the token is absent |
| Bencode.ReadAt | decoder.py:109-116 | read returns exactly `length` bytes, or fails when fewer remain |
| Bencode.DecodeIntAt | decoder.py:129-130 | decode_int gives an int and advances the cursor |
| Bencode.DecodeStringAt | decoder.py:148-151 | decode_string gives a byte string and advances the cursor |
| Bencode.DecodeAt | decoder.py:77-98 | decode stays inside the data and leaves the cursor in place only for a stray `e`, which is None |
| Bencode.DecodeListAt | decoder.py:132-137 | decode_list gives a list and moves past the closing `e` |
| Bencode.DecodeDictAt | decoder.py:139-146 | decode_dict gives a dict and moves past the closing `e` |
| Bencode.DecodeInput | decoder.py:69-73 | anything but `bytes` is a TypeError |
| Bencode.EncodedContainerRejected | decoder.py:42-66 | as written, the decoder refuses the encoder's output for every byte string, list and dict |
| Bencode.EmptyListRejected | decoder.py:49-53 | as written, `[]` encodes to bytearray(b'le'), which the decoder refuses |
| Bencode.EncodingShape | decoder.py:35-66 | an encoding is at least two bytes and starts with `i`, a digit, `l` or `d` by type |
| Bencode.ContainerLayout | decoder.py:49-66 | a list or dict encodes as its opening token, the concatenated parts, then `e` |
| Bencode.DecodeEncodedInt | decoder.py:129-130 | an encoded int found anywhere in the data decodes back to the int, just past its `e` |
| Bencode.DecodeEncodedBytes | decoder.py:148-151 | an encoded byte string found anywhere in the data decodes back to it |
| Bencode.DecodeEncoded | decoder.py:77-98 | any canonical value's encoding, wherever it sits, decodes back to the value and ends where the encoding ends |
| Bencode.DecodeEncodedList | decoder.py:132-137 | an encoded list decodes back to its items |
| Bencode.DecodeEncodedDict | decoder.py:139-146 | an encoded dict with distinct keys decodes back to its entries, in order |
| Bencode.DecodeItems | decoder.py:134-135 | decoding a run of encoded items appends them all to the list built so far |
| Bencode.DecodeEntries | decoder.py:141-144 | decoding a run of encoded entries with fresh keys appends them all to the dict built so far |
| Bencode.RoundTrip | decoder.py:17-19 | with `bytes` output, decode(encode(v)) == v for every canonical value, and all of the input is read |
| Bencode.MissingValueIsNone | decoder.py:92-93 | `d1:aee` gives {b'a': None}, and `d1:ae` raises EOFError |
| Bencode.RepeatedKeyKeepsLastValue | decoder.py:144 | a repeated key keeps its first place and its last value |
| Bencode.OneByteIsEndOfFile | decoder.py:103-104 | a one-byte input is EOFError, whatever the byte |
| Bencode.InvalidLeadingByte | decoder.py:96-98 | a leading byte that starts no value is RuntimeError |
| Bencode.ShortStringFails | decoder.py:111-113 | `5:ab` is IndexError |
| BencodeDecoder.Decoder.constructor | decoder.py:69-73 | the decoder holds the bytes with the cursor at 0 |
| BencodeDecoder.Decoder.Lol | decoder.py:101-105 | the byte under the cursor, exactly when two bytes remain |
| BencodeDecoder.Decoder.Consume | decoder.py:107-108 | the cursor moves one byte on |
| BencodeDecoder.Decoder.Read | decoder.py:109-116 | the method agrees with `ReadAt`, and the cursor stays put on failure |
| BencodeDecoder.Decoder.ReadUntil | decoder.py:117-126 | the method agrees with `ReadUntilAt`, and the cursor stays put on failure |
| BencodeDecoder.Decoder.DecodeInt | decoder.py:129-130 | the method agrees with `DecodeIntAt` and the cursor ends at its `next` |
| BencodeDecoder.Decoder.DecodeString | decoder.py:148-151 | the method agrees with `DecodeStringAt` |
| BencodeDecoder.Decoder.Decode | decoder.py:77-98 | the recursive method agrees with `DecodeAt`, so the round trip carries over |
| BencodeDecoder.Decoder.DecodeList | decoder.py:132-137 | the loop agrees with `DecodeListAt` |
| BencodeDecoder.Decoder.DecodeDict | decoder.py:139-146 | the loop agrees with `DecodeDictAt` |
| BencodeDecoder.DecodeBytes | decoder.py:69-98 | Decoder(input).decode() is `DecodeInput` |
| BencodeDecoder.DecodeWhatWasEncoded | decoder.py:17-19 | the object decodes a canonical value's `bytes` encoding back to the value |
| BencodeEncoder.GatherFirstRaised | decoder.py:51 | the first exception among the list items is the one that propagates |
| BencodeEncoder.Encoder.constructor | decoder.py:14-15 | the encoder holds the value |
| BencodeEncoder.Encoder.Encode | decoder.py:17-19 | encode() is the value's encoding as `bytes`, or None |
| BencodeEncoder.Encoder.EncodeNext | decoder.py:21-33 | the dispatch agrees with `Bencode.EncodeNext` |
| BencodeEncoder.Encoder.EncodeInt | decoder.py:35-36 | `i`, the digits and `e`; int() of the digits is the number |
| BencodeEncoder.Encoder.EncodeBytes | decoder.py:42-47 | the decimal length, `:`, and the bytes, which end the encoding |
| BencodeEncoder.Encoder.EncodeList | decoder.py:49-53 | the loop's result is `l`, the joined item encodings and `e`; the first exception among the items propagates, and a None item fails the join |
| BencodeEncoder.Encoder.EncodeEntry | decoder.py:57-64 | one entry: key then value, and RuntimeError('Bad dict') when either is None |
| BencodeEncoder.Encoder.EncodeDict | decoder.py:55-66 | the loop's result is `d`, the entries in order and `e`, or the first exception |
| BencodeEncoder.EncodeValue | decoder.py:17-66 | bytes exactly for the values with no None inside, and they decode back to every canonical value |
| Metainfo.Subscript | parser.py:39 | `v[key]` is the stored value, KeyError for a dict without the key, and TypeError for a non-dict |
| Metainfo.Field | parser.py:53 | `meta_data[b'info'][key]`: the first exception along the way, or the field |
| Metainfo.Contains | parser.py:39 | `key in v` is key membership on a dict, and TypeError on an int or None |
| Metainfo.MultiFile | parser.py:37-39 | on an info dict, multi_file is true exactly when `files` is a key and false exactly when it is not; a failed info lookup propagates |
| Metainfo.SingleFileEntry | parser.py:25-31 | multi-file metadata raises RuntimeError; otherwise the entry is the info dict's `name` bytes and `length`, or the first lookup error |
| Metainfo.TorrentContent.constructor | parser.py:10-12 | a reader over the metadata with an empty file list |
| Metainfo.TorrentContent.GetFilesList | parser.py:25-31 | the single file's entry is appended, or the error is returned and the list is unchanged |
| Metainfo.TorrentContent.AllSize | parser.py:45-49 | RuntimeError for multi-file metadata, IndexError while the list is empty, else the first file's length |
| Metainfo.TorrentContent.Chunks | parser.py:51-61 | the chunks join back to `pieces`, all but the last are 20 bytes, the last is 1 to 20, and there are ceil(len / 20) |
| Metainfo.SplitIsUnique | parser.py:55-61 | those properties determine the chunks: any two splits of the same string are equal |
| Metainfo.SizeOfSingleFile | parser.py:25-49 | on a fresh reader, get_files_list then all_size gives the recorded `length` for single-file metadata and RuntimeError for multi-file metadata |

## Left out

- Sockets and asyncio are left out. This covers `open_connection`, the handshake read-retry loop, `drain`, future cancel/stop and the `__anext__` read loop. Only the buffer append of one read is kept, in `MessageStream.Feed`.
- `BitField.encode` is not modelled. It packs the bit count as a byte count and hands a BitArray to struct, so it states no round trip.
- `protocol.py` keeps the local flags in `my_state`; the flag list is modelled as a value passed through a transition function. The socket write of `send_interested` is left out, and the call of `request_chunk` becomes the `requested` bit.
- Connection.RequestOnlyWhenReady: the `requested` bit records the call of `request_chunk`, not a written Request. `request_chunk` writes a Request only when `next_request` returns a block (protocol.py:112-124), and `next_request` returns None for a peer no BitField has added yet (Piece.py:177-178) or when nothing is left. The 'pending_request' flag is set either way, and only a Piece clears it (Connection.PendingFlagBlocksRequests). After Negotiate and then Unchoke before any BitField, the connection therefore asks for nothing more.
- Wire.EncodePiece requires the frame length `9 + |block|` to fit in 32 bits, and the integer fields of the wire encoders are `u32` values. The struct.error that struct.pack raises for a field out of range or an oversized block (protocol.py:362, 385, 415, 442) is not modelled.
- SHA-1 is a parameter of the piece manager, and equal digests are taken to mean matching data.
- The clock becomes the `now` parameter, in milliseconds.
- `os.open`, `lseek`, `write` and `close` are not modelled. `_write` appends (index * piece_length, data) to the ghost log `written`.
- Logging and printing output are left out.
- `bytes_uploaded` is left out: it always returns 0.
- The module-level reads of `RimWorld.torrent` at decoder.py:155-158 and parser.py:76-77 are left out. So are the `TorrentContent` constructor's file read and its info-hash computation at parser.py:14-18. parser.py:17 calls `encode("utf-8")`, which `Encoder.encode` does not accept.
- `TorrentContent.declare`, `chunk_length`, `export_file`, `PrintTorrentContent` and `__str__` are not modelled. They are single lookups with UTF-8 decoding or printing.
- str values in the encoder are left out. `_encode_string` prefixes the character count, not the byte count, so only ASCII text would round-trip. Values here are int, bytes, list, ordered dict and the None of a stray `e`.
- `ParseInt` accepts an optional minus sign followed by decimal digits. Python's int() also accepts whitespace, `+` and `_` separators; those inputs are not modelled.
- `BencodeDecoder.Decoder.Consume` requires a byte under the cursor. Its callers always have one; the source would move the cursor past the end.
- BencodeDecoder.Decoder.Decode: after an exception, the model does not say where the cursor stops. Python callers never reuse a decoder after an exception.
- Metainfo.TorrentContent.GetFilesList: the file name is kept as raw bytes. UTF-8 decoding, and the UnicodeDecodeError it can raise, are not modelled.
- Metainfo.TorrentContent.Chunks: a list- or dict-valued `pieces` field is reported as TypeError. Python would slice a list into sublists, and would return [] for an empty dict.
- Metainfo.Contains does not state in its contract what `in` gives on a list or on bytes. Its body models element membership and substring search.
- Manager.PieceManager.constructor requires piece_length > 0. The source would divide by zero in `_initiate_pieces`.
- Manager.Has reads a bitfield index past the end as false. bitstring raises IndexError there.
- Manager.PieceManager.RarestFirst returns None when the peer has no missing piece. There, the source's `min()` raises ValueError on an empty dict.
- Manager.PieceManager.RarestFirst calls `next_request_block` and records the block as pending, as Piece.py:246-247 does for ongoing pieces. The source calls `next_request()`, which `Piece` does not define, and records nothing.
- Manager.PieceManager.NextOngoing calls `next_request_block` where Piece.py:244 calls `piece.next_request()`, which `Piece` does not define and which would raise AttributeError. With Piece.py:184 calling it too, the source's `next_request` as written cannot return a block; the model gives the evident intent.
- Manager.PieceManager.ExpiredRequests renews a request by setting its time to `now`. At Piece.py:235 the source assigns `request.added = current` on `PendingRequest`, a namedtuple (Piece.py:84), which raises AttributeError; the model treats the pending request as a mutable record.
- Manager.PieceManager.ResetPiece calls `deleteall`. The source calls `piece.reset()`, which `Piece` does not define.
- Manager.PieceManager.BlockReceived keeps the pending requests of a piece that fails its hash check, as the code does.
- A non-last piece gets ceil(piece_length / 16384) blocks of 16384 bytes each, even when piece_length is not a multiple of 16384. This is what the code does.
- `Piece.is_hash_matching` is modelled inside `StoreOngoing` as the comparison `sha1(data) == hash`.
- The handshake constructor's str-to-bytes conversion is left out. Handshake fields are bytes.
- Peers are identified by byte strings, and the peers dict becomes a map. Dict iteration order does not matter to the count of holders.

## Findings

| source | as written | input that shows it | evidently intended | confidence | as-written member | corrected member |
|---|---|---|---|---|---|---|
| Piece.py:120-123 | the last piece's length is `total_size % piece_length`, which is 0 when the size is a multiple of the piece length | total_size 32768, piece_length 16384: the second piece gets no blocks and is never requested | the last piece is a whole piece_length when nothing is left over | not executed | Pieces.LastPieceEmptyAsWritten | Pieces.LastPieceSum |
| decoder.py:42-53 | `_encode_bytes`, `_encode_list` and `_encode_dict` return a bytearray, which `Decoder` refuses with TypeError | `Encoder([]).encode()` gives bytearray(b'le') | encode() returns `bytes`, as its annotation says, so decoding recovers the value | not executed | Bencode.EncodedContainerRejected | Bencode.RoundTrip |
