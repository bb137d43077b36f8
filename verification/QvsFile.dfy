/** The `.qmv` record of qvs-format: a media description stored as one bencode dictionary. */
module QvsFile {
  import opened Wrappers
  import opened Bytes
  import opened Decimal
  import opened Bencode

  newtype u64 = x: int | 0 <= x < 0x1_0000_0000_0000_0000

  /** Rust strings are their UTF-8 bytes. */
  datatype QvsFile = QvsFile(
    infoHash: bytes,
    filename: bytes,
    fileSize: u64,
    pieceLength: u64,
    pieces: seq<bytes>,
    trackers: seq<bytes>,
    keyframeIndex: Option<bytes>)

  datatype FileError =
    | BadBencode(cause: Error)
    | ExpectedDict
    | MissingInfoHash
    | InfoHashLength
    | MissingFilename
    | FilenameNotUtf8
    | MissingFileSize
    | MissingPieceLength
    | MissingPieces
    | PiecesLength

  /** What the Rust field types say: 20-byte arrays, UTF-8 strings, vectors that fit memory. */
  ghost predicate WellTyped(f: QvsFile) {
    && |f.infoHash| == 20
    && Utf8(f.filename) && |f.filename| <= USIZE_MAX
    && (forall i :: 0 <= i < |f.pieces| ==> |f.pieces[i]| == 20) && 20 * |f.pieces| <= USIZE_MAX
    && (forall i :: 0 <= i < |f.trackers| ==> Utf8(f.trackers[i]) && |f.trackers[i]| <= USIZE_MAX)
    && (f.keyframeIndex.Some? ==> |f.keyframeIndex.value| <= USIZE_MAX)
  }

  // ----- UTF-8 (section 4 of RFC 3629), as `String::from_utf8` checks it -----

  predicate Tail(b: byte) {
    0x80 <= b <= 0xBF
  }

  /** The number of bytes of the well-formed sequence `s` starts with, 0 if it starts with none. */
  function Utf8Char(s: bytes): (n: nat)
    ensures n <= |s|
  {
    if s == [] then 0
    else if s[0] < 0x80 then 1
    else if |s| < 2 || !Tail(s[1]) then 0
    else if 0xC2 <= s[0] <= 0xDF then 2
    else if |s| < 3 || !Tail(s[2]) then 0
    else if s[0] == 0xE0 then if 0xA0 <= s[1] then 3 else 0
    else if s[0] == 0xED then if s[1] <= 0x9F then 3 else 0
    else if 0xE1 <= s[0] <= 0xEF then 3
    else if |s| < 4 || !Tail(s[3]) then 0
    else if s[0] == 0xF0 then if 0x90 <= s[1] then 4 else 0
    else if s[0] == 0xF4 then if s[1] <= 0x8F then 4 else 0
    else if 0xF1 <= s[0] <= 0xF3 then 4
    else 0
  }

  predicate Utf8(s: bytes) {
    s == [] || (Utf8Char(s) > 0 && Utf8(s[Utf8Char(s)..]))
  }

  // ----- Casts and piece lists -----

  /** `n as i64`. */
  function ToI64(n: u64): i64 {
    if n < 0x8000_0000_0000_0000 then n as i64 else (n as int - 0x1_0000_0000_0000_0000) as i64
  }

  /** `i as u64`. */
  function ToU64(i: i64): u64 {
    if i < 0 then (i as int + 0x1_0000_0000_0000_0000) as u64 else i as u64
  }

  function Concat(pieces: seq<bytes>): bytes {
    if pieces == [] then [] else pieces[0] + Concat(pieces[1..])
  }

  /** `chunks_exact(20)`. */
  function Chunks(s: bytes): (pieces: seq<bytes>)
    ensures forall i :: 0 <= i < |pieces| ==> |pieces[i]| == 20
    ensures 20 * |pieces| <= |s|
  {
    if |s| < 20 then [] else [s[..20]] + Chunks(s[20..])
  }

  function Strings(trackers: seq<bytes>): seq<Value> {
    seq(|trackers|, i requires 0 <= i < |trackers| => Str(trackers[i]))
  }

  /** The `filter_map` over the tracker list: anything but a UTF-8 string is dropped. */
  function Utf8Strings(items: seq<Value>): (r: seq<bytes>)
    ensures forall i :: 0 <= i < |r| ==> Utf8(r[i])
  {
    if items == [] then []
    else if items[0].Str? && Utf8(items[0].s) then [items[0].s] + Utf8Strings(items[1..])
    else Utf8Strings(items[1..])
  }

  // ----- Encoding and decoding -----

  function Ascii(s: string): bytes
    requires forall i :: 0 <= i < |s| ==> s[i] < 128 as char
  {
    seq(|s|, i requires 0 <= i < |s| => s[i] as byte)
  }

  const INFO_HASH: bytes := Ascii("info_hash")
  const FILENAME: bytes := Ascii("filename")
  const FILE_SIZE: bytes := Ascii("file_size")
  const PIECE_LENGTH: bytes := Ascii("piece_length")
  const PIECES: bytes := Ascii("pieces")
  const TRACKERS: bytes := Ascii("trackers")
  const KEYFRAME_INDEX: bytes := Ascii("keyframe_index")

  /** The map `encode` fills, insert by insert. */
  function Entries(f: QvsFile): seq<Entry> {
    var d1 := Insert([], INFO_HASH, Str(f.infoHash));
    var d2 := Insert(d1, FILENAME, Str(f.filename));
    var d3 := Insert(d2, FILE_SIZE, Int(ToI64(f.fileSize)));
    var d4 := Insert(d3, PIECE_LENGTH, Int(ToI64(f.pieceLength)));
    var d5 := Insert(d4, PIECES, Str(Concat(f.pieces)));
    var d6 := Insert(d5, TRACKERS, List(Strings(f.trackers)));
    if f.keyframeIndex.Some? then Insert(d6, KEYFRAME_INDEX, Str(f.keyframeIndex.value)) else d6
  }

  /** `QvsFile::encode`. */
  method EncodeFile(f: QvsFile) returns (buf: bytes)
    ensures buf == Encode(Dict(Entries(f)))
  {
    var dict := [];
    dict := Insert(dict, INFO_HASH, Str(f.infoHash));
    dict := Insert(dict, FILENAME, Str(f.filename));
    dict := Insert(dict, FILE_SIZE, Int(ToI64(f.fileSize)));
    dict := Insert(dict, PIECE_LENGTH, Int(ToI64(f.pieceLength)));
    dict := Insert(dict, PIECES, Str(Concat(f.pieces)));
    dict := Insert(dict, TRACKERS, List(Strings(f.trackers)));
    if f.keyframeIndex.Some? {
      dict := Insert(dict, KEYFRAME_INDEX, Str(f.keyframeIndex.value));
    }
    buf := EncodeValue(Dict(dict));
  }

  function GetStr(dict: seq<Entry>, key: bytes, missing: FileError): Result<bytes, FileError> {
    match Lookup(dict, key)
    case Some(Str(s)) => Ok(s)
    case _ => Err(missing)
  }

  function GetInt(dict: seq<Entry>, key: bytes, missing: FileError): Result<i64, FileError> {
    match Lookup(dict, key)
    case Some(Int(i)) => Ok(i)
    case _ => Err(missing)
  }

  /** `QvsFile::decode`. */
  function DecodeFile(data: bytes): Result<QvsFile, FileError> {
    match Decode(data)
    case Err(e) => Err(BadBencode(e))
    case Ok((Dict(dict), _)) => FromEntries(dict)
    case Ok(_) => Err(ExpectedDict)
  }

  function FromEntries(dict: seq<Entry>): Result<QvsFile, FileError> {
    var infoHash :- GetStr(dict, INFO_HASH, MissingInfoHash);
    if |infoHash| != 20 then Err(InfoHashLength)
    else
      var filename :- GetStr(dict, FILENAME, MissingFilename);
      if !Utf8(filename) then Err(FilenameNotUtf8)
      else
        var fileSize :- GetInt(dict, FILE_SIZE, MissingFileSize);
        var pieceLength :- GetInt(dict, PIECE_LENGTH, MissingPieceLength);
        var pieces :- GetStr(dict, PIECES, MissingPieces);
        if |pieces| % 20 != 0 then Err(PiecesLength)
        else
          var trackers :=
            match Lookup(dict, TRACKERS)
            case Some(List(items)) => Utf8Strings(items)
            case _ => [];
          var keyframeIndex :=
            match Lookup(dict, KEYFRAME_INDEX)
            case Some(Str(s)) => Some(s)
            case _ => None;
          Ok(QvsFile(infoHash, filename, ToU64(fileSize), ToU64(pieceLength),
                     Chunks(pieces), trackers, keyframeIndex))
  }

  // ----- Round trip -----

  lemma KeysDistinct()
    ensures INFO_HASH != FILENAME && INFO_HASH != FILE_SIZE && INFO_HASH != PIECE_LENGTH
    ensures INFO_HASH != PIECES && INFO_HASH != TRACKERS && INFO_HASH != KEYFRAME_INDEX
    ensures FILENAME != FILE_SIZE && FILENAME != PIECE_LENGTH && FILENAME != PIECES
    ensures FILENAME != TRACKERS && FILENAME != KEYFRAME_INDEX
    ensures FILE_SIZE != PIECE_LENGTH && FILE_SIZE != PIECES && FILE_SIZE != TRACKERS
    ensures FILE_SIZE != KEYFRAME_INDEX
    ensures PIECE_LENGTH != PIECES && PIECE_LENGTH != TRACKERS && PIECE_LENGTH != KEYFRAME_INDEX
    ensures PIECES != TRACKERS && PIECES != KEYFRAME_INDEX && TRACKERS != KEYFRAME_INDEX
  {
    assert INFO_HASH[0] == 'i' as byte && FILE_SIZE[0] == 'f' as byte;
    assert FILENAME[0] == 'f' as byte && TRACKERS[0] == 't' as byte;
  }

  lemma CastsUndone(n: u64)
    ensures ToU64(ToI64(n)) == n
  {
  }

  lemma {:induction false} ChunksOfConcat(pieces: seq<bytes>)
    requires forall i :: 0 <= i < |pieces| ==> |pieces[i]| == 20
    ensures Chunks(Concat(pieces)) == pieces && |Concat(pieces)| == 20 * |pieces|
  {
    if pieces != [] {
      ChunksOfConcat(pieces[1..]);
      assert Concat(pieces)[20..] == Concat(pieces[1..]);
      assert Concat(pieces)[..20] == pieces[0];
    }
  }

  lemma {:induction false} StringsKept(trackers: seq<bytes>)
    requires forall i :: 0 <= i < |trackers| ==> Utf8(trackers[i])
    ensures Utf8Strings(Strings(trackers)) == trackers
  {
    if trackers != [] {
      assert Strings(trackers)[1..] == Strings(trackers[1..]);
      StringsKept(trackers[1..]);
    }
  }

  lemma Put(dict: seq<Entry>, key: bytes, value: Value)
    requires Valid(Dict(dict)) && |key| <= USIZE_MAX && Valid(value)
    ensures Valid(Dict(Insert(dict, key, value)))
    ensures forall k :: Lookup(Insert(dict, key, value), k) == if k == key then Some(value) else Lookup(dict, k)
  {
    InsertIsUpdate(dict, key, value);
    InsertValid(dict, key, value);
  }

  ghost predicate Describes(dict: seq<Entry>, f: QvsFile) {
    && Lookup(dict, INFO_HASH) == Some(Str(f.infoHash))
    && Lookup(dict, FILENAME) == Some(Str(f.filename))
    && Lookup(dict, FILE_SIZE) == Some(Int(ToI64(f.fileSize)))
    && Lookup(dict, PIECE_LENGTH) == Some(Int(ToI64(f.pieceLength)))
    && Lookup(dict, PIECES) == Some(Str(Concat(f.pieces)))
    && Lookup(dict, TRACKERS) == Some(List(Strings(f.trackers)))
    && Lookup(dict, KEYFRAME_INDEX)
       == if f.keyframeIndex.Some? then Some(Str(f.keyframeIndex.value)) else None
  }

  /** The map holds each field under its key, and the optional key only when the field is there. */
  lemma EntriesLookup(f: QvsFile)
    requires WellTyped(f)
    ensures Valid(Dict(Entries(f))) && Describes(Entries(f), f)
  {
    hide Insert, Concat;
    KeysDistinct();
    ChunksOfConcat(f.pieces);
    var d1 := Insert([], INFO_HASH, Str(f.infoHash));
    var d2 := Insert(d1, FILENAME, Str(f.filename));
    var d3 := Insert(d2, FILE_SIZE, Int(ToI64(f.fileSize)));
    var d4 := Insert(d3, PIECE_LENGTH, Int(ToI64(f.pieceLength)));
    var d5 := Insert(d4, PIECES, Str(Concat(f.pieces)));
    var d6 := Insert(d5, TRACKERS, List(Strings(f.trackers)));
    Put([], INFO_HASH, Str(f.infoHash));
    Put(d1, FILENAME, Str(f.filename));
    Put(d2, FILE_SIZE, Int(ToI64(f.fileSize)));
    Put(d3, PIECE_LENGTH, Int(ToI64(f.pieceLength)));
    Put(d4, PIECES, Str(Concat(f.pieces)));
    Put(d5, TRACKERS, List(Strings(f.trackers)));
    if f.keyframeIndex.Some? {
      Put(d6, KEYFRAME_INDEX, Str(f.keyframeIndex.value));
    }
  }

  /** Every record survives the trip through its file, and bytes after the record do not matter. */
  lemma FileRoundTrip(f: QvsFile, rest: bytes)
    requires WellTyped(f)
    ensures DecodeFile(Encode(Dict(Entries(f))) + rest) == Ok(f)
  {
    EntriesLookup(f);
    RoundTrip(Dict(Entries(f)), rest);
    ReadBack(Entries(f), f);
  }

  lemma ReadBack(dict: seq<Entry>, f: QvsFile)
    requires WellTyped(f) && Describes(dict, f)
    ensures FromEntries(dict) == Ok(f)
  {
    hide Concat, Lookup, Utf8, Ascii, FromEntries;
    StringsKept(f.trackers);
    CastsUndone(f.fileSize);
    CastsUndone(f.pieceLength);
    ReadsFromEntries(dict, f);
  }

  /** What decodes is a record again, so one trip through the encoder normalises any readable file. */
  lemma DecodedFileIsStable(data: bytes)
    requires DecodeFile(data).Ok?
    ensures WellTyped(DecodeFile(data).value)
    ensures DecodeFile(Encode(Dict(Entries(DecodeFile(data).value)))) == DecodeFile(data)
  {
    DecodeSound(data);
    var dict := Decode(data).value.0.entries;
    LookupValid(dict, INFO_HASH);
    LookupValid(dict, FILENAME);
    LookupValid(dict, PIECES);
    LookupValid(dict, TRACKERS);
    LookupValid(dict, KEYFRAME_INDEX);
    if Lookup(dict, TRACKERS).Some? && Lookup(dict, TRACKERS).value.List? {
      Utf8StringsFit(Lookup(dict, TRACKERS).value.items);
    }
    var f := DecodeFile(data).value;
    FileRoundTrip(f, []);
    assert Encode(Dict(Entries(f))) + [] == Encode(Dict(Entries(f)));
  }

  lemma {:induction false} LookupValid(dict: seq<Entry>, key: bytes)
    requires ValidEntries(dict)
    ensures Lookup(dict, key).Some? ==> Valid(Lookup(dict, key).value)
  {
    if dict != [] && dict[0].key != key {
      LookupValid(dict[1..], key);
    }
  }

  lemma {:induction false} Utf8StringsFit(items: seq<Value>)
    requires forall i :: 0 <= i < |items| ==> Valid(items[i])
    ensures forall s <- Utf8Strings(items) :: |s| <= USIZE_MAX
  {
    if items != [] {
      Utf8StringsFit(items[1..]);
    }
  }

  // ----- What is read as a record -----

  lemma {:induction false} ConcatOfChunks(s: bytes)
    requires |s| % 20 == 0
    ensures Concat(Chunks(s)) == s
  {
    if s != [] {
      ConcatOfChunks(s[20..]);
    }
  }

  /** Of the items of a tracker list the UTF-8 strings are kept, in order. */
  lemma {:induction false} TrackersKept(items: seq<Value>, last: Value)
    ensures Utf8Strings(items + [last])
            == if last.Str? && Utf8(last.s) then Utf8Strings(items) + [last.s] else Utf8Strings(items)
  {
    if items == [] {
      assert items + [last] == [last] && [last][1..] == [];
    } else {
      TrackersKept(items[1..], last);
      assert (items + [last])[1..] == items[1..] + [last];
    }
  }

  /** The cast keeps the number modulo 2^64. */
  ghost predicate CastOf(i: i64, n: u64) {
    n as int == i as int || n as int == i as int + 0x1_0000_0000_0000_0000
  }

  lemma CastIs(i: i64, n: u64)
    ensures CastOf(i, n) <==> ToU64(i) == n
  {
  }

  /** The entries hold every field under its key, in its type and length; other entries do not matter. */
  ghost predicate Reads(dict: seq<Entry>, f: QvsFile) {
    && Lookup(dict, INFO_HASH) == Some(Str(f.infoHash)) && |f.infoHash| == 20
    && Lookup(dict, FILENAME) == Some(Str(f.filename)) && Utf8(f.filename)
    && (exists i :: Lookup(dict, FILE_SIZE) == Some(Int(i)) && CastOf(i, f.fileSize))
    && (exists i :: Lookup(dict, PIECE_LENGTH) == Some(Int(i)) && CastOf(i, f.pieceLength))
    && Lookup(dict, PIECES) == Some(Str(Concat(f.pieces))) && (forall p <- f.pieces :: |p| == 20)
    && f.trackers == (match Lookup(dict, TRACKERS) case Some(List(items)) => Utf8Strings(items) case _ => [])
    && f.keyframeIndex == (match Lookup(dict, KEYFRAME_INDEX) case Some(Str(s)) => Some(s) case _ => None)
  }

  /** A file is read as a record exactly if it starts with a dictionary that holds that record. */
  lemma DecodeFileIff(data: bytes, f: QvsFile)
    ensures DecodeFile(data) == Ok(f)
       <==> Decode(data).Ok? && Decode(data).value.0.Dict? && Reads(Decode(data).value.0.entries, f)
  {
    if Decode(data).Ok? && Decode(data).value.0.Dict? {
      var dict := Decode(data).value.0.entries;
      if Reads(dict, f) {
        ReadsFromEntries(dict, f);
      } else if FromEntries(dict) == Ok(f) {
        FromEntriesReads(dict, f);
      }
    }
  }

  lemma FromEntriesReads(dict: seq<Entry>, f: QvsFile)
    requires FromEntries(dict) == Ok(f)
    ensures Reads(dict, f)
  {
    hide Concat, Lookup, Utf8, Utf8Strings, Chunks, Ascii;
    ConcatOfChunks(Lookup(dict, PIECES).value.s);
  }

  /** The record is put together from its fields. */
  lemma Assembled(dict: seq<Entry>, f: QvsFile, size: i64, length: i64)
    requires GetStr(dict, INFO_HASH, MissingInfoHash) == Ok(f.infoHash) && |f.infoHash| == 20
    requires GetStr(dict, FILENAME, MissingFilename) == Ok(f.filename) && Utf8(f.filename)
    requires GetInt(dict, FILE_SIZE, MissingFileSize) == Ok(size) && ToU64(size) == f.fileSize
    requires GetInt(dict, PIECE_LENGTH, MissingPieceLength) == Ok(length) && ToU64(length) == f.pieceLength
    requires GetStr(dict, PIECES, MissingPieces) == Ok(Concat(f.pieces))
    requires |Concat(f.pieces)| % 20 == 0 && Chunks(Concat(f.pieces)) == f.pieces
    requires f.trackers == match Lookup(dict, TRACKERS) case Some(List(items)) => Utf8Strings(items) case _ => []
    requires f.keyframeIndex == match Lookup(dict, KEYFRAME_INDEX) case Some(Str(s)) => Some(s) case _ => None
    ensures FromEntries(dict) == Ok(f)
  {
    hide GetStr, GetInt, ToU64, Utf8, Concat, Chunks, Lookup, Utf8Strings, Ascii;
  }

  lemma ReadsFromEntries(dict: seq<Entry>, f: QvsFile)
    requires Reads(dict, f)
    ensures FromEntries(dict) == Ok(f)
  {
    hide Concat, Lookup, Utf8, Utf8Strings, Chunks, Ascii, CastOf, ToU64, FromEntries;
    var size :| Lookup(dict, FILE_SIZE) == Some(Int(size)) && CastOf(size, f.fileSize);
    var length :| Lookup(dict, PIECE_LENGTH) == Some(Int(length)) && CastOf(length, f.pieceLength);
    CastIs(size, f.fileSize);
    CastIs(length, f.pieceLength);
    ChunksOfConcat(f.pieces);
    Assembled(dict, f, size, length);
  }
}
