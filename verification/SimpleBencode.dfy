/**
 The second, independent bencode parser, in qvs-core. `SimpleBencode` has the shape of `BencodeValue`,
 so both parsers return `Bencode.Value` here.
 */
module SimpleBencode {
  import opened Wrappers
  import opened Bytes
  import opened Decimal
  import opened Bencode

  datatype SimpleError =
    | NoData
    | OpenInt
    | BadInt
    | NoColon
    | BadLength
    | TruncatedString
    | OpenList
    | OpenDict
    | KeyNotString
    | StrayByte(b: byte)

  type SimpleParsed<+T> = Result<(T, bytes), SimpleError>

  function SimpleInt(data: bytes): (r: SimpleParsed<Value>)
    requires data != []
    ensures r.Ok? ==> |r.value.1| < |data|
  {
    match IndexOf(data[1..], END_TAG)
    case None => Err(OpenInt)
    case Some(end) =>
      match ParseI64(data[1..][..end])
      case None => Err(BadInt)
      case Some(i) => Ok((Int(i), data[2 + end..]))
  }

  function SimpleStr(data: bytes): (r: SimpleParsed<Value>)
    ensures r.Ok? ==> |r.value.1| < |data|
  {
    match IndexOf(data, COLON)
    case None => Err(NoColon)
    case Some(colon) =>
      match ParseUsize(data[..colon])
      case None => Err(BadLength)
      case Some(len) =>
        var start := colon + 1;
        if start + len > |data| then Err(TruncatedString)
        else Ok((Str(data[start..start + len]), data[start + len..]))
  }

  function SimpleDecode(data: bytes): (r: SimpleParsed<Value>)
    ensures r.Ok? ==> |r.value.1| < |data|
    decreases |data|, 0
  {
    if data == [] then Err(NoData)
    else if data[0] == INT_TAG then SimpleInt(data)
    else if IsDigit(data[0]) then SimpleStr(data)
    else if data[0] == LIST_TAG then
      var (items, rest) :- SimpleItems(data[1..]);
      Ok((List(items), rest))
    else if data[0] == DICT_TAG then
      var (entries, rest) :- SimpleEntries(data[1..], []);
      Ok((Dict(entries), rest))
    else Err(StrayByte(data[0]))
  }

  function SimpleItems(data: bytes): (r: SimpleParsed<seq<Value>>)
    ensures r.Ok? ==> |r.value.1| < |data|
    decreases |data|, 1
  {
    if data == [] then Err(OpenList)
    else if data[0] == END_TAG then Ok(([], data[1..]))
    else
      var (v, rest) :- SimpleDecode(data);
      var (items, rest') :- SimpleItems(rest);
      Ok(([v] + items, rest'))
  }

  /** Here a key is a whole value that must turn out to be a string. */
  function SimpleEntries(data: bytes, dict: seq<Entry>): (r: SimpleParsed<seq<Entry>>)
    ensures r.Ok? ==> |r.value.1| < |data|
    decreases |data|, 1
  {
    if data == [] then Err(OpenDict)
    else if data[0] == END_TAG then Ok((dict, data[1..]))
    else
      var (key, rest) :- SimpleDecode(data);
      if !key.Str? then Err(KeyNotString)
      else
        var (v, rest') :- SimpleDecode(rest);
        SimpleEntries(rest', Insert(dict, key.s, v))
  }

  ghost function SimplePrepend(items: seq<Value>, r: SimpleParsed<seq<Value>>): SimpleParsed<seq<Value>> {
    match r
    case Ok((more, rest)) => Ok((items + more, rest))
    case Err(e) => Err(e)
  }

  /** `simple_bencode_decode`: one recursive routine with both container loops inline. */
  method DecodeSimple(data: bytes) returns (r: SimpleParsed<Value>)
    ensures r == SimpleDecode(data)
    decreases |data|
  {
    if data == [] {
      return Err(NoData);
    }
    if data[0] == INT_TAG {
      r := SimpleInt(data);
    } else if IsDigit(data[0]) {
      r := SimpleStr(data);
    } else if data[0] == LIST_TAG {
      var rest, items := data[1..], [];
      assert forall more: seq<Value> :: [] + more == more;
      while rest != [] && rest[0] != END_TAG
        invariant |rest| < |data|
        invariant SimpleItems(data[1..]) == SimplePrepend(items, SimpleItems(rest))
        decreases |rest|
      {
        var val :- DecodeSimple(rest);
        assert forall more :: items + ([val.0] + more) == items + [val.0] + more;
        items := items + [val.0];
        rest := val.1;
      }
      if rest == [] {
        return Err(OpenList);
      }
      assert items + [] == items;
      r := Ok((List(items), rest[1..]));
    } else if data[0] == DICT_TAG {
      var rest, dict := data[1..], [];
      while rest != [] && rest[0] != END_TAG
        invariant |rest| < |data|
        invariant SimpleEntries(data[1..], []) == SimpleEntries(rest, dict)
        decreases |rest|
      {
        var key :- DecodeSimple(rest);
        if !key.0.Str? {
          return Err(KeyNotString);
        }
        var val :- DecodeSimple(key.1);
        dict := Insert(dict, key.0.s, val.0);
        rest := val.1;
      }
      if rest == [] {
        return Err(OpenDict);
      }
      r := Ok((Dict(dict), rest[1..]));
    } else {
      r := Err(StrayByte(data[0]));
    }
  }

  // ----- Where the two parsers part -----

  /** Some dictionary key met on the way through `data` has its length written with a plus sign. */
  ghost predicate PlusKey(data: bytes)
    decreases |data|, 0
  {
    data != [] && (
      if data[0] == LIST_TAG then PlusKeyInItems(data[1..])
      else data[0] == DICT_TAG && PlusKeyInEntries(data[1..]))
  }

  ghost predicate PlusKeyInItems(data: bytes)
    decreases |data|, 1
  {
    data != [] && data[0] != END_TAG &&
    (PlusKey(data) || (Decode(data).Ok? && PlusKeyInItems(Decode(data).value.1)))
  }

  ghost predicate PlusKeyInEntries(data: bytes)
    decreases |data|, 1
  {
    data != [] && data[0] != END_TAG &&
    (data[0] == PLUS ||
     (DecodeStr(data).Ok? &&
      var rest := DecodeStr(data).value.1;
      PlusKey(rest) || (Decode(rest).Ok? && PlusKeyInEntries(Decode(rest).value.1))))
  }

  ghost predicate Agree<T>(simple: SimpleParsed<T>, full: Parsed<T>, plus: bool) {
    && (simple.Ok? <==> full.Ok? && !plus)
    && (simple.Ok? ==> simple.value == full.value)
  }

  /**
   The simple parser accepts exactly the inputs the full parser accepts that hold no plus-signed key,
   and then both return the same value and the same remainder.
   */
  lemma {:induction false} ParsersAgree(data: bytes)
    ensures Agree(SimpleDecode(data), Decode(data), PlusKey(data))
    decreases |data|, 0
  {
    if data != [] {
      if data[0] == INT_TAG {
        IntsAgree(data);
      } else if IsDigit(data[0]) {
        StringsAgree(data);
      } else if data[0] == LIST_TAG {
        ItemsAgree(data[1..]);
      } else if data[0] == DICT_TAG {
        EntriesAgree(data[1..], []);
      }
    }
  }

  lemma IntsAgree(data: bytes)
    requires data != [] && data[0] == INT_TAG
    ensures SimpleInt(data).Ok? <==> DecodeInt(data).Ok?
    ensures SimpleInt(data).Ok? ==> SimpleInt(data).value == DecodeInt(data).value
  {
    var end := IndexOf(data[1..], END_TAG);
    if end.Some? {
      assert data[1..][..end.value] == data[1..end.value + 1];
    }
  }

  lemma StringsAgree(data: bytes)
    ensures SimpleStr(data).Ok? <==> DecodeStr(data).Ok?
    ensures SimpleStr(data).Ok? ==>
              SimpleStr(data).value == (Str(DecodeStr(data).value.0), DecodeStr(data).value.1)
  {
  }

  lemma {:induction false} ItemsAgree(data: bytes)
    ensures Agree(SimpleItems(data), DecodeItems(data), PlusKeyInItems(data))
    decreases |data|, 1
  {
    if data != [] && data[0] != END_TAG {
      ParsersAgree(data);
      if Decode(data).Ok? {
        ItemsAgree(Decode(data).value.1);
      }
    }
  }

  lemma {:induction false} EntriesAgree(data: bytes, dict: seq<Entry>)
    ensures Agree(SimpleEntries(data, dict), DecodeEntries(data, dict), PlusKeyInEntries(data))
    decreases |data|, 1
  {
    if data != [] && data[0] != END_TAG {
      KeysAgree(data);
      if DecodeStr(data).Ok? {
        var (key, rest) := DecodeStr(data).value;
        ParsersAgree(rest);
        if Decode(rest).Ok? {
          var (v, rest') := Decode(rest).value;
          EntriesAgree(rest', Insert(dict, key, v));
        }
      }
    }
  }

  /** A key the full parser takes is a value string of the simple parser unless it starts with a plus. */
  lemma KeysAgree(data: bytes)
    requires data != []
    ensures DecodeStr(data).Ok? && data[0] != PLUS <==> SimpleDecode(data).Ok? && SimpleDecode(data).value.0.Str?
    ensures DecodeStr(data).Ok? && data[0] != PLUS ==>
              SimpleDecode(data).value == (Str(DecodeStr(data).value.0), DecodeStr(data).value.1)
  {
    StringsAgree(data);
    if DecodeStr(data).Ok? && data[0] != PLUS {
      var colon := IndexOf(data, COLON).value;
      assert data[..colon] != [];
      assert data[..colon][0] == data[0];
    }
  }

  /** No plus sign anywhere, no disagreement. */
  lemma ParsersAgreeWithoutPlus(data: bytes)
    requires PLUS !in data
    ensures SimpleDecode(data).Ok? <==> Decode(data).Ok?
    ensures SimpleDecode(data).Ok? ==> SimpleDecode(data).value == Decode(data).value
  {
    NoPlusNoPlusKey(data);
    ParsersAgree(data);
  }

  lemma {:induction false} NoPlusNoPlusKey(data: bytes)
    requires PLUS !in data
    ensures !PlusKey(data)
    decreases |data|, 0
  {
    if data != [] && data[0] == LIST_TAG {
      NoPlusInItems(data[1..]);
    } else if data != [] && data[0] == DICT_TAG {
      NoPlusInEntries(data[1..]);
    }
  }

  lemma {:induction false} NoPlusInItems(data: bytes)
    requires PLUS !in data
    ensures !PlusKeyInItems(data)
    decreases |data|, 1
  {
    if data != [] {
      NoPlusNoPlusKey(data);
      if Decode(data).Ok? {
        DecodeSound(data);
        NoPlusInItems(Decode(data).value.1);
      }
    }
  }

  lemma {:induction false} NoPlusInEntries(data: bytes)
    requires PLUS !in data
    ensures !PlusKeyInEntries(data)
    decreases |data|, 1
  {
    if data != [] && DecodeStr(data).Ok? {
      var rest := DecodeStr(data).value.1;
      NoPlusNoPlusKey(rest);
      if Decode(rest).Ok? {
        DecodeSound(rest);
        NoPlusInEntries(Decode(rest).value.1);
      }
    }
  }

  /** The disagreement is real for every key and value: sign the key's length and only one parser takes it. */
  lemma PlusKeySplitsTheParsers(key: bytes, v: Value, rest: bytes)
    requires |key| <= USIZE_MAX && Valid(v)
    ensures var data := [DICT_TAG] + ([PLUS] + (EncodeStr(key) + (Encode(v) + ([END_TAG] + rest))));
            Decode(data) == Ok((Dict([Entry(key, v)]), rest)) && SimpleDecode(data).Err?
  {
    var last := [END_TAG] + rest;
    var tail := Encode(v) + last;
    var entry := [PLUS] + (EncodeStr(key) + tail);
    PlusStr(key, tail);
    RoundTrip(v, last);
    EntriesUnfold(entry, [], Entry(key, v), tail, last);
    EntriesEnd(rest, Insert([], key, v));
    assert Insert([], key, v) == [Entry(key, v)];
    SignedEntry([DICT_TAG] + entry, entry, [Entry(key, v)], rest);
  }

  lemma EntriesEnd(rest: bytes, dict: seq<Entry>)
    ensures DecodeEntries([END_TAG] + rest, dict) == Ok((dict, rest))
  {
  }

  lemma SignedEntry(data: bytes, entry: bytes, dict: seq<Entry>, rest: bytes)
    requires data == [DICT_TAG] + entry && entry != [] && entry[0] == PLUS
    requires DecodeEntries(entry, []) == Ok((dict, rest))
    ensures Decode(data) == Ok((Dict(dict), rest)) && SimpleDecode(data).Err?
  {
    assert data[1..] == entry;
    assert SimpleDecode(entry).Err?;
    assert SimpleEntries(entry, []).Err?;
  }

  lemma PlusStr(s: bytes, rest: bytes)
    requires |s| <= USIZE_MAX
    ensures DecodeStr([PLUS] + (EncodeStr(s) + rest)) == Ok((s, rest))
  {
    hide NatText, DecodeStr;
    var digits := NatText(|s|);
    var text := [PLUS] + digits;
    assert text[1..] == digits;
    assert ParseDigits(digits) == Some(|s|);
    DecodeStrOfText(text, s, rest);
    assert [PLUS] + (EncodeStr(s) + rest) == text + [COLON] + s + rest;
  }
}
