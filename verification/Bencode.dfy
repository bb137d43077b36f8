/** The bencode printer and parser of qvs-format (bencoding, BEP 3). */
module Bencode {
  import opened Wrappers
  import opened Bytes
  import opened Decimal

  const INT_TAG: byte := 105  // i
  const LIST_TAG: byte := 108 // l
  const DICT_TAG: byte := 100 // d
  const END_TAG: byte := 101  // e
  const COLON: byte := 58

  /** A `BTreeMap` is the sequence of its entries in key order; `Valid` carries that order. */
  datatype Value = Int(i: i64) | Str(s: bytes) | List(items: seq<Value>) | Dict(entries: seq<Entry>)
  datatype Entry = Entry(key: bytes, value: Value)

  datatype Error =
    | EmptyData
    | UnexpectedByte(b: byte)
    | UnterminatedInt
    | InvalidInt
    | UnterminatedLength
    | InvalidLength
    | Truncated
    | UnterminatedList
    | UnterminatedDict

  type Parsed<+T> = Result<(T, bytes), Error>

  ghost predicate Ascending(entries: seq<Entry>) {
    forall i, j :: 0 <= i < j < |entries| ==> Less(entries[i].key, entries[j].key)
  }

  /** What the Rust types guarantee: byte vectors that fit memory, maps sorted by distinct keys. */
  ghost predicate Valid(v: Value) {
    match v
    case Int(_) => true
    case Str(s) => |s| <= USIZE_MAX
    case List(items) => forall i :: 0 <= i < |items| ==> Valid(items[i])
    case Dict(entries) => Ascending(entries) && ValidEntries(entries)
  }

  ghost predicate ValidEntries(entries: seq<Entry>) {
    forall i :: 0 <= i < |entries| ==> |entries[i].key| <= USIZE_MAX && Valid(entries[i].value)
  }

  /** `BTreeMap::insert`: a present key keeps its place and takes the new value. */
  function Insert(entries: seq<Entry>, key: bytes, value: Value): seq<Entry> {
    if entries == [] || Less(key, entries[0].key) then [Entry(key, value)] + entries
    else if entries[0].key == key then [Entry(key, value)] + entries[1..]
    else [entries[0]] + Insert(entries[1..], key, value)
  }

  /** `BTreeMap::get`. */
  function Lookup(entries: seq<Entry>, key: bytes): Option<Value> {
    if entries == [] then None
    else if entries[0].key == key then Some(entries[0].value)
    else Lookup(entries[1..], key)
  }

  // ----- Printing -----

  function EncodeStr(s: bytes): bytes {
    NatText(|s|) + [COLON] + s
  }

  function Encode(v: Value): bytes {
    match v
    case Int(i) => [INT_TAG] + IntText(i) + [END_TAG]
    case Str(s) => EncodeStr(s)
    case List(items) => [LIST_TAG] + EncodeItems(items) + [END_TAG]
    case Dict(entries) => [DICT_TAG] + EncodeEntries(entries) + [END_TAG]
  }

  function EncodeItems(items: seq<Value>): bytes {
    if items == [] then [] else Encode(items[0]) + EncodeItems(items[1..])
  }

  function EncodeEntries(entries: seq<Entry>): bytes {
    if entries == [] then []
    else EncodeEntry(entries[0]) + EncodeEntries(entries[1..])
  }

  function EncodeEntry(e: Entry): bytes {
    EncodeStr(e.key) + Encode(e.value)
  }

  // ----- The canonical text -----

  function Joined(parts: seq<bytes>): bytes {
    if parts == [] then [] else parts[0] + Joined(parts[1..])
  }

  /** A length without leading zeros, a colon, and the bytes. */
  ghost predicate RendersStr(s: bytes, text: bytes) {
    exists digits: bytes :: CanonicalNat(digits) && Denotes(digits, |s|) && text == digits + [58] + s
  }

  /**
   What BEP 3 says of the text of a value: `i`, a decimal without leading zeros and `e`; a length, a colon and the
   bytes; `l`, the items in order and `e`; `d`, each key with its value in order and `e`.
   */
  ghost predicate Renders(v: Value, text: bytes)
    decreases v
  {
    match v
    case Int(i) =>
      exists digits: bytes ::
        CanonicalInt(digits) && ParseI64(digits) == Some(i) && text == [105] + digits + [101]
    case Str(s) => RendersStr(s, text)
    case List(items) =>
      exists parts: seq<bytes> ::
        && text == [108] + Joined(parts) + [101] && |parts| == |items|
        && forall k :: 0 <= k < |items| ==> Renders(items[k], parts[k])
    case Dict(entries) =>
      exists parts: seq<bytes> ::
        && text == [100] + Joined(parts) + [101] && |parts| == |entries|
        && forall k :: 0 <= k < |entries| ==> RendersEntry(entries[k], parts[k])
  }

  ghost predicate RendersEntry(e: Entry, text: bytes)
    decreases e
  {
    exists key: bytes, value: bytes :: RendersStr(e.key, key) && Renders(e.value, value) && text == key + value
  }

  lemma RendersStrIff(s: bytes, text: bytes)
    ensures RendersStr(s, text) <==> text == EncodeStr(s)
  {
    NatTextIff(|s|, NatText(|s|));
    if digits: bytes :| CanonicalNat(digits) && Denotes(digits, |s|) && text == digits + [58] + s {
      NatTextIff(|s|, digits);
    }
  }

  /** Every value has exactly one such text, the one the printer writes. */
  lemma {:induction false} RendersIff(v: Value, text: bytes)
    ensures Renders(v, text) <==> text == Encode(v)
    decreases v
  {
    match v
    case Int(i) =>
      IntTextIff(i, IntText(i));
      if digits: bytes :| CanonicalInt(digits) && ParseI64(digits) == Some(i) && text == [105] + digits + [101] {
        IntTextIff(i, digits);
      }
    case Str(s) => RendersStrIff(s, text);
    case List(items) =>
      forall k, part | 0 <= k < |items| ensures Renders(items[k], part) <==> part == Encode(items[k]) {
        RendersIff(items[k], part);
      }
      ListIff(items, text);
    case Dict(entries) =>
      forall k, part | 0 <= k < |entries| ensures RendersEntry(entries[k], part) <==> part == EncodeEntry(entries[k])
      {
        EntryIff(entries[k], part);
      }
      DictIff(entries, text);
  }

  lemma {:induction false} EntryIff(e: Entry, text: bytes)
    ensures RendersEntry(e, text) <==> text == EncodeEntry(e)
    decreases e
  {
    hide Renders, RendersStr, Encode;
    RendersStrIff(e.key, EncodeStr(e.key));
    RendersIff(e.value, Encode(e.value));
    if key: bytes, value: bytes :| RendersStr(e.key, key) && Renders(e.value, value) && text == key + value {
      RendersStrIff(e.key, key);
      RendersIff(e.value, value);
    }
  }

  lemma ListIff(items: seq<Value>, text: bytes)
    requires forall k, part | 0 <= k < |items| :: Renders(items[k], part) <==> part == Encode(items[k])
    ensures Renders(List(items), text) <==> text == Encode(List(items))
  {
    hide Encode;
    var own := seq(|items|, k requires 0 <= k < |items| => Encode(items[k]));
    JoinedItems(items, own);
    if parts: seq<bytes> :| text == [108] + Joined(parts) + [101] && |parts| == |items|
                            && forall k :: 0 <= k < |items| ==> Renders(items[k], parts[k]) {
      JoinedItems(items, parts);
    }
  }

  lemma DictIff(entries: seq<Entry>, text: bytes)
    requires forall k, part | 0 <= k < |entries| :: RendersEntry(entries[k], part) <==> part == EncodeEntry(entries[k])
    ensures Renders(Dict(entries), text) <==> text == Encode(Dict(entries))
  {
    hide RendersEntry, Encode, EncodeEntry;
    var own := seq(|entries|, k requires 0 <= k < |entries| => EncodeEntry(entries[k]));
    JoinedEntries(entries, own);
    if parts: seq<bytes> :| text == [100] + Joined(parts) + [101] && |parts| == |entries|
                            && forall k :: 0 <= k < |entries| ==> RendersEntry(entries[k], parts[k]) {
      JoinedEntries(entries, parts);
    }
  }

  lemma {:induction false} JoinedItems(items: seq<Value>, parts: seq<bytes>)
    requires |parts| == |items| && forall k :: 0 <= k < |items| ==> parts[k] == Encode(items[k])
    ensures Joined(parts) == EncodeItems(items)
    ensures Encode(List(items)) == [108] + Joined(parts) + [101]
  {
    if items != [] {
      JoinedItems(items[1..], parts[1..]);
    }
  }

  lemma {:induction false} JoinedEntries(entries: seq<Entry>, parts: seq<bytes>)
    requires |parts| == |entries|
    requires forall k :: 0 <= k < |entries| ==> parts[k] == EncodeEntry(entries[k])
    ensures Joined(parts) == EncodeEntries(entries)
    ensures Encode(Dict(entries)) == [100] + Joined(parts) + [101]
  {
    if entries != [] {
      JoinedEntries(entries[1..], parts[1..]);
    }
  }

  /** `BencodeValue::encode`, pushing into a local buffer. */
  method EncodeValue(v: Value) returns (buf: bytes)
    ensures buf == Encode(v) && Renders(v, buf)
    decreases v
  {
    hide Renders, NatText;
    RendersIff(v, Encode(v));
    match v
    case Int(i) =>
      buf := [INT_TAG];
      buf := buf + IntText(i);
      buf := buf + [END_TAG];
    case Str(s) =>
      buf := NatText(|s|);
      buf := buf + [COLON];
      buf := buf + s;
    case List(items) =>
      buf := [LIST_TAG];
      for k := 0 to |items|
        invariant buf + EncodeItems(items[k..]) == [LIST_TAG] + EncodeItems(items)
      {
        ItemsSplit(buf, items, k);
        var item := EncodeValue(items[k]);
        buf := buf + item;
      }
      buf := buf + [END_TAG];
    case Dict(entries) =>
      buf := [DICT_TAG];
      for k := 0 to |entries|
        invariant buf + EncodeEntries(entries[k..]) == [DICT_TAG] + EncodeEntries(entries)
      {
        EntriesSplit(buf, entries, k);
        var value := EncodeValue(entries[k].value);
        buf := buf + EncodeStr(entries[k].key);
        buf := buf + value;
      }
      buf := buf + [END_TAG];
  }

  lemma ItemsSplit(buf: bytes, items: seq<Value>, k: nat)
    requires k < |items|
    ensures buf + EncodeItems(items[k..]) == (buf + Encode(items[k])) + EncodeItems(items[k + 1..])
  {
    assert items[k..][1..] == items[k + 1..];
  }

  lemma EntriesSplit(buf: bytes, entries: seq<Entry>, k: nat)
    requires k < |entries|
    ensures buf + EncodeEntries(entries[k..])
            == (buf + EncodeStr(entries[k].key) + Encode(entries[k].value)) + EncodeEntries(entries[k + 1..])
  {
    assert entries[k..][1..] == entries[k + 1..];
    Flatten(buf, EncodeStr(entries[k].key), Encode(entries[k].value), EncodeEntries(entries[k + 1..]));
  }

  lemma Flatten(a: bytes, b: bytes, c: bytes, d: bytes)
    ensures a + (b + c + d) == (a + b + c) + d
  {
  }

  // ----- Parsing -----

  function DecodeInt(data: bytes): (r: Parsed<Value>)
    requires data != [] && data[0] == INT_TAG
    ensures r.Ok? ==> IsProperSuffix(r.value.1, data)
  {
    match IndexOf(data[1..], END_TAG)
    case None => Err(UnterminatedInt)
    case Some(p) =>
      match ParseI64(data[1..p + 1])
      case None => Err(InvalidInt)
      case Some(i) => Ok((Int(i), data[p + 2..]))
  }

  /** `decode_str` on its own, as `decode_dict` calls it on a key without looking at its first byte. */
  function DecodeStr(data: bytes): (r: Parsed<bytes>)
    ensures r.Ok? ==> IsProperSuffix(r.value.1, data) && |r.value.0| <= USIZE_MAX
  {
    match IndexOf(data, COLON)
    case None => Err(UnterminatedLength)
    case Some(colon) =>
      match ParseUsize(data[..colon])
      case None => Err(InvalidLength)
      case Some(len) =>
        var start := colon + 1;
        if start + len > |data| then Err(Truncated)
        else Ok((data[start..start + len], data[start + len..]))
  }

  function Decode(data: bytes): (r: Parsed<Value>)
    ensures r.Ok? ==> |r.value.1| < |data|
    decreases |data|, 0
  {
    if data == [] then Err(EmptyData)
    else if data[0] == INT_TAG then DecodeInt(data)
    else if IsDigit(data[0]) then
      var (s, rest) :- DecodeStr(data);
      Ok((Str(s), rest))
    else if data[0] == LIST_TAG then
      var (items, rest) :- DecodeItems(data[1..]);
      Ok((List(items), rest))
    else if data[0] == DICT_TAG then
      var (entries, rest) :- DecodeEntries(data[1..], []);
      Ok((Dict(entries), rest))
    else Err(UnexpectedByte(data[0]))
  }

  /** The rest of a list: values up to the end tag. */
  function DecodeItems(data: bytes): (r: Parsed<seq<Value>>)
    ensures r.Ok? ==> |r.value.1| < |data|
    decreases |data|, 1
  {
    if data == [] then Err(UnterminatedList)
    else if data[0] == END_TAG then Ok(([], data[1..]))
    else
      var (v, rest) :- Decode(data);
      var (items, rest') :- DecodeItems(rest);
      Ok(([v] + items, rest'))
  }

  /** The rest of a dictionary: entries up to the end tag, inserted into `dict` as they come. */
  function DecodeEntries(data: bytes, dict: seq<Entry>): (r: Parsed<seq<Entry>>)
    ensures r.Ok? ==> |r.value.1| < |data|
    decreases |data|, 1
  {
    if data == [] then Err(UnterminatedDict)
    else if data[0] == END_TAG then Ok((dict, data[1..]))
    else
      var (key, rest) :- DecodeStr(data);
      var (v, rest') :- Decode(rest);
      DecodeEntries(rest', Insert(dict, key, v))
  }

  /** `BencodeValue::decode`. */
  method DecodeValue(data: bytes) returns (r: Parsed<Value>)
    ensures r == Decode(data)
    decreases |data|, 1
  {
    if data == [] {
      return Err(EmptyData);
    }
    if data[0] == INT_TAG {
      r := DecodeInt(data);
    } else if IsDigit(data[0]) {
      var str :- DecodeStr(data);
      r := Ok((Str(str.0), str.1));
    } else if data[0] == LIST_TAG {
      r := DecodeList(data);
    } else if data[0] == DICT_TAG {
      r := DecodeDict(data);
    } else {
      r := Err(UnexpectedByte(data[0]));
    }
  }

  ghost function Prepend(items: seq<Value>, r: Parsed<seq<Value>>): Parsed<seq<Value>> {
    match r
    case Ok((more, rest)) => Ok((items + more, rest))
    case Err(e) => Err(e)
  }

  method DecodeList(data: bytes) returns (r: Parsed<Value>)
    requires data != [] && data[0] == LIST_TAG
    ensures r == Decode(data)
    decreases |data|, 0
  {
    var rest := data[1..];
    var items := [];
    assert forall more: seq<Value> :: [] + more == more;
    while rest != [] && rest[0] != END_TAG
      invariant |rest| < |data|
      invariant DecodeItems(data[1..]) == Prepend(items, DecodeItems(rest))
      decreases |rest|
    {
      var val :- DecodeValue(rest);
      assert forall more :: items + ([val.0] + more) == items + [val.0] + more;
      items := items + [val.0];
      rest := val.1;
    }
    if rest == [] {
      return Err(UnterminatedList);
    }
    assert items + [] == items;
    r := Ok((List(items), rest[1..]));
  }

  method DecodeDict(data: bytes) returns (r: Parsed<Value>)
    requires data != [] && data[0] == DICT_TAG
    ensures r == Decode(data)
    decreases |data|, 0
  {
    var rest := data[1..];
    var dict := [];
    while rest != [] && rest[0] != END_TAG
      invariant |rest| < |data|
      invariant DecodeEntries(data[1..], []) == DecodeEntries(rest, dict)
      decreases |rest|
    {
      var key :- DecodeStr(rest);
      var val :- DecodeValue(key.1);
      dict := Insert(dict, key.0, val.0);
      rest := val.1;
    }
    if rest == [] {
      return Err(UnterminatedDict);
    }
    r := Ok((Dict(dict), rest[1..]));
  }

  // ----- Sorted maps -----

  /** Inserting into a sorted map keeps it sorted and is exactly a map update. */
  lemma {:induction false} InsertIsUpdate(entries: seq<Entry>, key: bytes, value: Value)
    requires Ascending(entries)
    ensures Ascending(Insert(entries, key, value))
    ensures forall e <- Insert(entries, key, value) :: e == Entry(key, value) || e in entries
    ensures forall k :: Lookup(Insert(entries, key, value), k)
                        == if k == key then Some(value) else Lookup(entries, k)
  {
    if entries == [] {
    } else if Less(key, entries[0].key) {
      forall j | 0 <= j < |entries| ensures Less(key, entries[j].key) {
        if 0 < j {
          LessTransitive(key, entries[0].key, entries[j].key);
        }
      }
    } else if entries[0].key != key {
      InsertIsUpdate(entries[1..], key, value);
      LessTotal(key, entries[0].key);
      var tail := Insert(entries[1..], key, value);
      forall j | 0 <= j < |tail| ensures Less(entries[0].key, tail[j].key) {
        assert tail[j] in tail;
      }
    }
  }

  lemma InsertValid(entries: seq<Entry>, key: bytes, value: Value)
    requires Ascending(entries) && ValidEntries(entries) && |key| <= USIZE_MAX && Valid(value)
    ensures Ascending(Insert(entries, key, value)) && ValidEntries(Insert(entries, key, value))
  {
    InsertIsUpdate(entries, key, value);
    var entries' := Insert(entries, key, value);
    forall i | 0 <= i < |entries'| ensures |entries'[i].key| <= USIZE_MAX && Valid(entries'[i].value) {
      assert entries'[i] in entries';
    }
  }

  lemma {:induction false} InsertAtEnd(entries: seq<Entry>, key: bytes, value: Value)
    requires forall i :: 0 <= i < |entries| ==> Less(entries[i].key, key)
    ensures Insert(entries, key, value) == entries + [Entry(key, value)]
  {
    if entries != [] {
      LessTotal(entries[0].key, key);
      InsertAtEnd(entries[1..], key, value);
    }
  }

  // ----- Strings and integers -----

  lemma DecodeStrOfText(text: bytes, s: bytes, rest: bytes)
    requires COLON !in text && ParseUsize(text) == Some(|s|)
    ensures DecodeStr(text + [COLON] + s + rest) == Ok((s, rest))
  {
    var data := text + [COLON] + s + rest;
    var start := |text| + 1;
    assert data == text + [COLON] + (s + rest);
    IndexOfDelimiter(text, COLON, s + rest);
    assert data[..|text|] == text;
    assert data[start..start + |s|] == s && data[start + |s|..] == rest;
  }

  lemma IntTextPlain(i: i64)
    ensures END_TAG !in IntText(i)
  {
    hide NatText;
  }

  /** A string is read exactly from a length in decimal, a colon, and that many bytes. */
  lemma DecodeStrIff(data: bytes, s: bytes, rest: bytes)
    ensures DecodeStr(data) == Ok((s, rest))
       <==> exists text: bytes ::
              COLON !in text && ParseUsize(text) == Some(|s|) && data == text + [COLON] + s + rest
  {
    if DecodeStr(data) == Ok((s, rest)) {
      var text := data[..IndexOf(data, COLON).value];
      assert data == text + [COLON] + s + rest;
    }
    if text: bytes :| COLON !in text && ParseUsize(text) == Some(|s|) && data == text + [COLON] + s + rest {
      DecodeStrOfText(text, s, rest);
    }
  }

  lemma IntTextOf(data: bytes, i: i64, rest: bytes) returns (text: bytes)
    requires data != [] && data[0] == INT_TAG && DecodeInt(data) == Ok((Int(i), rest))
    ensures END_TAG !in text && ParseI64(text) == Some(i) && data == [INT_TAG] + (text + [END_TAG] + rest)
  {
    hide ParseI64;
    var p := IndexOf(data[1..], END_TAG).value;
    text := data[1..p + 1];
    assert text == data[1..][..p];
    assert data[1..] == text + [END_TAG] + rest;
  }

  lemma DecodeIntOfText(text: bytes, i: i64, rest: bytes)
    requires END_TAG !in text && ParseI64(text) == Some(i)
    ensures DecodeInt([INT_TAG] + (text + [END_TAG] + rest)) == Ok((Int(i), rest))
  {
    hide ParseI64;
    var data := [INT_TAG] + (text + [END_TAG] + rest);
    assert data[1..] == text + [END_TAG] + rest;
    IndexOfDelimiter(text, END_TAG, rest);
    assert data[1..|text| + 1] == text && data[|text| + 2..] == rest;
  }

  /** An integer is read exactly from its tag, a decimal that fits 64 bits, and the end tag. */
  lemma DecodeIntIff(data: bytes, i: i64, rest: bytes)
    requires data != [] && data[0] == INT_TAG
    ensures DecodeInt(data) == Ok((Int(i), rest))
       <==> exists text: bytes ::
              END_TAG !in text && ParseI64(text) == Some(i) && data == [INT_TAG] + (text + [END_TAG] + rest)
  {
    if DecodeInt(data) == Ok((Int(i), rest)) {
      var text := IntTextOf(data, i, rest);
    }
    if text: bytes :| END_TAG !in text && ParseI64(text) == Some(i)
                      && data == [INT_TAG] + (text + [END_TAG] + rest) {
      DecodeIntOfText(text, i, rest);
    }
  }

  // ----- The texts that are read -----

  /** A length that fits, in decimal, with or without a plus sign or leading zeros; a colon; and the bytes. */
  ghost predicate IsStrText(s: bytes, text: bytes) {
    exists digits: bytes :: COLON !in digits && ParseUsize(digits) == Some(|s|) && text == digits + [58] + s
  }

  /**
   The texts of a value, canonical or not: any decimal of an integer, any length of a string that starts with a
   digit, the texts of the items of a list, and of a dictionary pairs in any order, later ones overwriting.
   */
  ghost predicate IsText(v: Value, text: bytes)
    decreases |text|
  {
    match v
    case Int(i) =>
      exists digits: bytes :: END_TAG !in digits && ParseI64(digits) == Some(i) && text == [105] + digits + [101]
    case Str(s) => text != [] && 48 <= text[0] <= 57 && IsStrText(s, text)
    case List(items) =>
      exists parts: seq<bytes> ::
        text == [108] + Joined(parts) + [101] && |parts| == |items|
        && forall k :: 0 <= k < |parts| ==> |parts[k]| < |text| && IsText(items[k], parts[k])
    case Dict(entries) =>
      exists pairs: seq<Entry>, parts: seq<bytes> ::
        text == [100] + Joined(parts) + [101] && |parts| == |pairs| && entries == InsertAll([], pairs)
        && forall k :: 0 <= k < |parts| ==> |parts[k]| < |text| && IsPairText(pairs[k], parts[k])
  }

  ghost predicate IsPairText(e: Entry, text: bytes)
    decreases |text|
  {
    exists key: bytes, value: bytes ::
      text == key + value && |value| < |text| && IsStrText(e.key, key) && IsText(e.value, value)
  }

  /** The map after these pairs are inserted one after the other. */
  function InsertAll(entries: seq<Entry>, pairs: seq<Entry>): seq<Entry>
    decreases |pairs|
  {
    if pairs == [] then entries else InsertAll(Insert(entries, pairs[0].key, pairs[0].value), pairs[1..])
  }

  lemma StrTextStart(s: bytes, text: bytes)
    requires IsStrText(s, text)
    ensures text != [] && text[0] != END_TAG
  {
    var digits: bytes :| COLON !in digits && ParseUsize(digits) == Some(|s|) && text == digits + [58] + s;
    ParseUsizeIff(digits, |s|);
    assert text[0] == digits[0];
  }

  /** No text of a value starts like the end of a container. */
  lemma TextStart(v: Value, text: bytes)
    requires IsText(v, text)
    ensures text != [] && text[0] != END_TAG
  {
  }

  /** Every text of a value is read as that value, whatever follows it. */
  lemma {:induction false} TextDecodes(v: Value, text: bytes, rest: bytes)
    requires IsText(v, text)
    ensures Decode(text + rest) == Ok((v, rest))
    decreases |text|, 2, 0
  {
    hide Decode, IsStrText, Joined;
    match v
    case Int(i) =>
      var digits: bytes :| END_TAG !in digits && ParseI64(digits) == Some(i) && text == [105] + digits + [101];
      IntDecodes(digits, i, rest);
    case Str(s) => StrDecodes(s, text, rest);
    case List(items) => ListTextDecodes(items, text, rest);
    case Dict(entries) => DictTextDecodes(entries, text, rest);
  }

  lemma {:induction false} ListTextDecodes(items: seq<Value>, text: bytes, rest: bytes)
    requires IsText(List(items), text)
    ensures Decode(text + rest) == Ok((List(items), rest))
    decreases |text|, 1, 0
  {
    hide Decode, Joined, IsPairText;
    var parts: seq<bytes> :| text == [108] + Joined(parts) + [101] && |parts| == |items|
      && forall k :: 0 <= k < |parts| ==> |parts[k]| < |text| && IsText(items[k], parts[k]);
    ItemsDecode(items, parts, rest, |text|);
    ListDecodes(items, Joined(parts), rest);
  }

  lemma {:induction false} DictTextDecodes(entries: seq<Entry>, text: bytes, rest: bytes)
    requires IsText(Dict(entries), text)
    ensures Decode(text + rest) == Ok((Dict(entries), rest))
    decreases |text|, 1, 0
  {
    hide Decode, Joined, IsPairText;
    var pairs: seq<Entry>, parts: seq<bytes> :|
      text == [100] + Joined(parts) + [101] && |parts| == |pairs| && entries == InsertAll([], pairs)
      && forall k :: 0 <= k < |parts| ==> |parts[k]| < |text| && IsPairText(pairs[k], parts[k]);
    PairsDecode(pairs, parts, [], rest, |text|);
    DictDecodes(entries, Joined(parts), rest);
  }

  lemma IntDecodes(digits: bytes, i: i64, rest: bytes)
    requires END_TAG !in digits && ParseI64(digits) == Some(i)
    ensures Decode([105] + digits + [101] + rest) == Ok((Int(i), rest))
  {
    hide ParseI64, DecodeInt;
    DecodeIntOfText(digits, i, rest);
    assert [105] + digits + [101] + rest == [INT_TAG] + (digits + [END_TAG] + rest);
  }

  lemma StrDecodes(s: bytes, text: bytes, rest: bytes)
    requires text != [] && 48 <= text[0] <= 57 && IsStrText(s, text)
    ensures Decode(text + rest) == Ok((Str(s), rest))
  {
    hide DecodeStr, IsStrText;
    StrTextDecodes(s, text, rest);
    assert (text + rest)[0] == text[0];
  }

  lemma ListDecodes(items: seq<Value>, body: bytes, rest: bytes)
    requires DecodeItems(body + [END_TAG] + rest) == Ok((items, rest))
    ensures Decode([108] + body + [101] + rest) == Ok((List(items), rest))
  {
    hide DecodeItems;
    Unwrap(LIST_TAG, body, rest);
  }

  lemma DictDecodes(entries: seq<Entry>, body: bytes, rest: bytes)
    requires DecodeEntries(body + [END_TAG] + rest, []) == Ok((entries, rest))
    ensures Decode([100] + body + [101] + rest) == Ok((Dict(entries), rest))
  {
    hide DecodeEntries;
    Unwrap(DICT_TAG, body, rest);
  }

  lemma Unwrap(tag: byte, body: bytes, rest: bytes)
    ensures ([tag] + body + [END_TAG] + rest)[1..] == body + [END_TAG] + rest
    ensures ([tag] + body + [END_TAG] + rest)[0] == tag
  {
  }

  lemma {:induction false} ItemsDecode(items: seq<Value>, parts: seq<bytes>, rest: bytes, bound: nat)
    requires |parts| == |items|
    requires forall k :: 0 <= k < |parts| ==> |parts[k]| < bound && IsText(items[k], parts[k])
    ensures DecodeItems(Joined(parts) + [END_TAG] + rest) == Ok((items, rest))
    decreases bound, 0, |parts|
  {
    hide Decode, IsText;
    if parts == [] {
      assert Joined(parts) + [END_TAG] + rest == [END_TAG] + rest;
    } else {
      var more := Joined(parts[1..]) + [END_TAG] + rest;
      TextDecodes(items[0], parts[0], more);
      TextStart(items[0], parts[0]);
      ItemsDecode(items[1..], parts[1..], rest, bound);
      JoinedStep(parts, rest);
      ItemsUnfold(parts[0] + more, items[0], more);
      assert items == [items[0]] + items[1..];
    }
  }

  lemma JoinedStep(parts: seq<bytes>, rest: bytes)
    requires parts != []
    ensures Joined(parts) + [END_TAG] + rest == parts[0] + (Joined(parts[1..]) + [END_TAG] + rest)
  {
  }

  lemma ItemsUnfold(data: bytes, v: Value, more: bytes)
    requires data != [] && data[0] != END_TAG && Decode(data) == Ok((v, more))
    ensures DecodeItems(data) == Prepend([v], DecodeItems(more))
  {
  }

  lemma {:induction false} PairsDecode(
    pairs: seq<Entry>, parts: seq<bytes>, dict: seq<Entry>, rest: bytes, bound: nat)
    requires |parts| == |pairs|
    requires forall k :: 0 <= k < |parts| ==> |parts[k]| < bound && IsPairText(pairs[k], parts[k])
    ensures DecodeEntries(Joined(parts) + [END_TAG] + rest, dict) == Ok((InsertAll(dict, pairs), rest))
    decreases bound, 0, |parts|
  {
    hide Decode, DecodeStr, IsText, IsStrText, Insert, Joined;
    if parts == [] {
      NothingJoined(rest);
    } else {
      var e, more := pairs[0], Joined(parts[1..]) + [END_TAG] + rest;
      var key: bytes, value: bytes :|
        parts[0] == key + value && |value| < |parts[0]| && IsStrText(e.key, key) && IsText(e.value, value);
      TextDecodes(e.value, value, more);
      PairDecodes(e, key, value, dict, more);
      PairsDecode(pairs[1..], parts[1..], Insert(dict, e.key, e.value), rest, bound);
      JoinedStep(parts, rest);
    }
  }

  lemma NothingJoined(rest: bytes)
    ensures Joined([]) + [END_TAG] + rest == [END_TAG] + rest && ([END_TAG] + rest)[1..] == rest
  {
  }

  lemma PairDecodes(e: Entry, key: bytes, value: bytes, dict: seq<Entry>, more: bytes)
    requires IsStrText(e.key, key) && Decode(value + more) == Ok((e.value, more))
    ensures DecodeEntries(key + value + more, dict) == DecodeEntries(more, Insert(dict, e.key, e.value))
  {
    hide Decode, DecodeStr, IsStrText, DecodeEntries;
    StrTextDecodes(e.key, key, value + more);
    StrTextStart(e.key, key);
    assert key + value + more == key + (value + more);
    EntriesUnfold(key + (value + more), dict, e, value + more, more);
  }

  lemma StrTextDecodes(s: bytes, text: bytes, rest: bytes)
    requires IsStrText(s, text)
    ensures DecodeStr(text + rest) == Ok((s, rest))
  {
    var digits: bytes :| COLON !in digits && ParseUsize(digits) == Some(|s|) && text == digits + [58] + s;
    DecodeStrOfText(digits, s, rest);
  }

  lemma EntriesUnfold(data: bytes, dict: seq<Entry>, e: Entry, tail: bytes, more: bytes)
    requires data != [] && data[0] != END_TAG
    requires DecodeStr(data) == Ok((e.key, tail)) && Decode(tail) == Ok((e.value, more))
    ensures DecodeEntries(data, dict) == DecodeEntries(more, Insert(dict, e.key, e.value))
  {
  }

  // ----- Round trip -----

  lemma {:induction false} PartFits(parts: seq<bytes>, k: nat)
    requires k < |parts|
    ensures |parts[k]| <= |Joined(parts)|
  {
    if k > 0 {
      PartFits(parts[1..], k - 1);
    }
  }

  lemma {:induction false} InsertAllSorted(dict: seq<Entry>, pairs: seq<Entry>)
    requires Ascending(dict + pairs)
    ensures InsertAll(dict, pairs) == dict + pairs
    decreases |pairs|
  {
    if pairs == [] {
      assert dict + pairs == dict;
    } else {
      var all := dict + pairs;
      assert all[|dict|] == pairs[0];
      assert forall i :: 0 <= i < |dict| ==> all[i] == dict[i] && Less(all[i].key, all[|dict|].key);
      InsertAtEnd(dict, pairs[0].key, pairs[0].value);
      assert all == (dict + [pairs[0]]) + pairs[1..];
      assert pairs[0] == Entry(pairs[0].key, pairs[0].value);
      InsertAllSorted(dict + [pairs[0]], pairs[1..]);
    }
  }

  lemma EncodedStrText(s: bytes)
    requires |s| <= USIZE_MAX
    ensures IsStrText(s, EncodeStr(s)) && IsDigit(EncodeStr(s)[0])
  {
    UsizeRoundTrip(|s|);
    assert EncodeStr(s) == NatText(|s|) + [58] + s;
  }

  /** What is printed for a value is a text of it. */
  lemma {:induction false} EncodedText(v: Value)
    requires Valid(v)
    ensures IsText(v, Encode(v))
    decreases v
  {
    match v
    case Int(i) =>
      IntTextPlain(i);
      I64RoundTrip(i);
    case Str(s) => EncodedStrText(s);
    case List(items) =>
      forall k | 0 <= k < |items| ensures IsText(items[k], Encode(items[k])) {
        EncodedText(items[k]);
      }
      EncodedList(items);
    case Dict(entries) =>
      forall k | 0 <= k < |entries| ensures IsPairText(entries[k], EncodeEntry(entries[k])) {
        EncodedText(entries[k].value);
        EncodedStrText(entries[k].key);
      }
      EncodedDict(entries);
  }

  lemma EncodedList(items: seq<Value>)
    requires forall k :: 0 <= k < |items| ==> IsText(items[k], Encode(items[k]))
    ensures IsText(List(items), Encode(List(items)))
  {
    hide Encode;
    var parts := seq(|items|, k requires 0 <= k < |items| => Encode(items[k]));
    JoinedItems(items, parts);
    forall k | 0 <= k < |parts| ensures |parts[k]| < |Encode(List(items))| {
      PartFits(parts, k);
    }
  }

  lemma EncodedDict(entries: seq<Entry>)
    requires Ascending(entries) && forall k :: 0 <= k < |entries| ==> IsPairText(entries[k], EncodeEntry(entries[k]))
    ensures IsText(Dict(entries), Encode(Dict(entries)))
  {
    hide Encode, EncodeEntry, IsPairText;
    var parts := seq(|entries|, k requires 0 <= k < |entries| => EncodeEntry(entries[k]));
    JoinedEntries(entries, parts);
    forall k | 0 <= k < |parts| ensures |parts[k]| < |Encode(Dict(entries))| {
      PartFits(parts, k);
    }
    assert [] + entries == entries;
    InsertAllSorted([], entries);
  }

  /** Decoding an encoding followed by any bytes gives back the value and those bytes. */
  lemma RoundTrip(v: Value, rest: bytes)
    requires Valid(v)
    ensures Decode(Encode(v) + rest) == Ok((v, rest))
  {
    EncodedText(v);
    TextDecodes(v, Encode(v), rest);
  }

  /** Encodings are injective and prefix-free: equal streams start with the same value. */
  lemma EncodingPrefixFree(a: Value, b: Value, s: bytes, t: bytes)
    requires Valid(a) && Valid(b)
    requires Encode(a) + s == Encode(b) + t
    ensures a == b && s == t
  {
    RoundTrip(a, s);
    RoundTrip(b, t);
  }

  // ----- What the parser returns -----

  /** Every success is a value the Rust types allow, with a proper suffix of the input left. */
  lemma {:induction false} DecodeSound(data: bytes)
    ensures Decode(data).Ok? ==> Valid(Decode(data).value.0) && IsProperSuffix(Decode(data).value.1, data)
    decreases |data|, 0
  {
    if data != [] && data[0] == LIST_TAG {
      DecodeItemsSound(data[1..]);
    } else if data != [] && data[0] == DICT_TAG {
      DecodeEntriesSound(data[1..], []);
    }
  }

  lemma {:induction false} DecodeItemsSound(data: bytes)
    ensures var r := DecodeItems(data);
            r.Ok? ==> IsProperSuffix(r.value.1, data)
                      && forall i :: 0 <= i < |r.value.0| ==> Valid(r.value.0[i])
    decreases |data|, 1
  {
    if data != [] && data[0] != END_TAG && Decode(data).Ok? {
      var (v, rest) := Decode(data).value;
      DecodeSound(data);
      DecodeItemsSound(rest);
      if DecodeItems(rest).Ok? {
        SuffixTransitive(DecodeItems(rest).value.1, rest, data);
      }
    }
  }

  lemma {:induction false} DecodeEntriesSound(data: bytes, dict: seq<Entry>)
    requires Ascending(dict) && ValidEntries(dict)
    ensures var r := DecodeEntries(data, dict);
            r.Ok? ==> IsProperSuffix(r.value.1, data) && Ascending(r.value.0) && ValidEntries(r.value.0)
    decreases |data|, 1
  {
    if data != [] && data[0] != END_TAG && DecodeStr(data).Ok? {
      var (key, rest) := DecodeStr(data).value;
      DecodeSound(rest);
      if Decode(rest).Ok? {
        var (v, rest') := Decode(rest).value;
        var dict' := Insert(dict, key, v);
        InsertValid(dict, key, v);
        DecodeEntriesSound(rest', dict');
        SuffixTransitive(rest', rest, data);
        if DecodeEntries(rest', dict').Ok? {
          SuffixTransitive(DecodeEntries(rest', dict').value.1, rest', data);
        }
      }
    }
  }

  /** Whatever is read was written in one of the texts of the value. */
  lemma {:induction false} DecodedText(data: bytes) returns (text: bytes)
    requires Decode(data).Ok?
    ensures IsText(Decode(data).value.0, text) && data == text + Decode(data).value.1
    decreases |data|, 0
  {
    hide DecodeStr, DecodeInt;
    var (v, rest) := Decode(data).value;
    if data[0] == INT_TAG {
      text := IntTextRead(data);
    } else if IsDigit(data[0]) {
      var digits := StrTextOf(data);
      text := digits + [58] + v.s;
      assert data[0] == text[0];
    } else if data[0] == LIST_TAG {
      var parts := ItemsText(data[1..]);
      text := [108] + Joined(parts) + [101];
      ListText(v.items, parts, text);
      Framed(LIST_TAG, data, Joined(parts), rest);
    } else {
      var pairs, parts := PairsText(data[1..], []);
      text := [100] + Joined(parts) + [101];
      DictText(v.entries, pairs, parts, text);
      Framed(DICT_TAG, data, Joined(parts), rest);
    }
  }

  lemma IntTextRead(data: bytes) returns (text: bytes)
    requires data != [] && data[0] == INT_TAG && Decode(data).Ok?
    ensures IsText(Decode(data).value.0, text) && data == text + Decode(data).value.1
  {
    hide ParseI64;
    var (v, rest) := Decode(data).value;
    var digits := IntTextOf(data, v.i, rest);
    text := [105] + digits + [101];
  }

  lemma StrTextOf(data: bytes) returns (digits: bytes)
    requires DecodeStr(data).Ok?
    ensures COLON !in digits && ParseUsize(digits) == Some(|DecodeStr(data).value.0|) && digits != []
    ensures data == digits + [58] + DecodeStr(data).value.0 + DecodeStr(data).value.1
  {
    digits := data[..IndexOf(data, COLON).value];
  }

  lemma Framed(tag: byte, data: bytes, body: bytes, rest: bytes)
    requires data != [] && data[0] == tag && data[1..] == body + [101] + rest
    ensures data == [tag] + body + [101] + rest
  {
    assert data == [tag] + data[1..];
  }

  lemma ListText(items: seq<Value>, parts: seq<bytes>, text: bytes)
    requires text == [108] + Joined(parts) + [101] && |parts| == |items|
    requires forall k :: 0 <= k < |parts| ==> IsText(items[k], parts[k])
    ensures IsText(List(items), text)
  {
    forall k | 0 <= k < |parts| ensures |parts[k]| < |text| {
      PartFits(parts, k);
    }
  }

  lemma DictText(entries: seq<Entry>, pairs: seq<Entry>, parts: seq<bytes>, text: bytes)
    requires text == [100] + Joined(parts) + [101] && |parts| == |pairs| && entries == InsertAll([], pairs)
    requires forall k :: 0 <= k < |parts| ==> IsPairText(pairs[k], parts[k])
    ensures IsText(Dict(entries), text)
  {
    hide IsPairText;
    forall k | 0 <= k < |parts| ensures |parts[k]| < |text| {
      PartFits(parts, k);
    }
  }

  lemma {:induction false} ItemsText(data: bytes) returns (parts: seq<bytes>)
    requires DecodeItems(data).Ok?
    ensures var (items, rest) := DecodeItems(data).value;
            && data == Joined(parts) + [101] + rest && |parts| == |items|
            && forall k :: 0 <= k < |parts| ==> IsText(items[k], parts[k])
    decreases |data|, 1
  {
    hide Decode, IsText;
    if data[0] == END_TAG {
      parts := [];
      assert data == [101] + data[1..];
    } else {
      var (v, more) := Decode(data).value;
      var first := DecodedText(data);
      var others := ItemsText(more);
      parts := [first] + others;
      JoinedStep(parts, DecodeItems(more).value.1);
    }
  }

  lemma {:induction false} PairsText(data: bytes, dict: seq<Entry>) returns (pairs: seq<Entry>, parts: seq<bytes>)
    requires DecodeEntries(data, dict).Ok?
    ensures var (entries, rest) := DecodeEntries(data, dict).value;
            && data == Joined(parts) + [101] + rest && |parts| == |pairs| && entries == InsertAll(dict, pairs)
            && forall k :: 0 <= k < |parts| ==> IsPairText(pairs[k], parts[k])
    decreases |data|, 1
  {
    hide Decode, DecodeStr, IsText, IsPairText, Insert;
    if data[0] == END_TAG {
      pairs, parts := [], [];
      assert data == [101] + data[1..];
    } else {
      var (key, tail) := DecodeStr(data).value;
      var (v, more) := Decode(tail).value;
      var digits := StrTextOf(data);
      var value := DecodedText(tail);
      var otherPairs, others := PairsText(more, Insert(dict, key, v));
      pairs, parts := [Entry(key, v)] + otherPairs, [digits + [58] + key + value] + others;
      PairText(Entry(key, v), digits, value);
      JoinedStep(parts, DecodeEntries(more, Insert(dict, key, v)).value.1);
      assert data == digits + [58] + key + value + more;
    }
  }

  lemma PairText(e: Entry, digits: bytes, value: bytes)
    requires COLON !in digits && ParseUsize(digits) == Some(|e.key|) && IsText(e.value, value)
    ensures IsPairText(e, digits + [58] + e.key + value)
  {
    hide IsText, ParseUsize;
    assert IsStrText(e.key, digits + [58] + e.key);
  }

  /** Reading succeeds with a value and a rest exactly on the texts of the value followed by the rest. */
  lemma DecodeIff(data: bytes, v: Value, rest: bytes)
    ensures Decode(data) == Ok((v, rest)) <==> exists text: bytes :: IsText(v, text) && data == text + rest
  {
    hide Decode, IsText;
    if Decode(data) == Ok((v, rest)) {
      var text := DecodedText(data);
    }
    if text: bytes :| IsText(v, text) && data == text + rest {
      TextDecodes(v, text, rest);
    }
  }

  /** Whatever was decoded, canonical or not, re-encodes to text that decodes to the same value. */
  lemma ReencodedTextDecodesBack(data: bytes, rest: bytes)
    requires Decode(data).Ok?
    ensures Decode(Encode(Decode(data).value.0) + rest) == Ok((Decode(data).value.0, rest))
  {
    DecodeSound(data);
    RoundTrip(Decode(data).value.0, rest);
  }
}
