/** Tagged binary serialization of nested objects: the printer, the parser, and how they fit. */
module Serialization {
  import opened Basics
  import opened Endian
  import opened Streams
  import Utf8Strings

  /** A dictionary is a tree map: its entries in the order of their keys. */
  datatype Object =
    | Null
    | String(chars: seq<Byte>)
    | Data(bytes: seq<Byte>)
    | Value(kind: U32, raw: seq<Byte>)
    | Array(items: seq<Object>)
    | Dictionary(entries: seq<Entry>)

  datatype Entry = Entry(key: seq<Byte>, value: Object)

  const NULL_ID: U32 := 0
  const STRING_ID: U32 := 0x197ad112
  const DATA_ID: U32 := 0xf52ee9ce
  const VALUE_ID: U32 := 0x5ee289ef
  const ARRAY_ID: U32 := 0x3e346fc4
  const DICTIONARY_ID: U32 := 0xa563cab6

  /** Bytes in a value of each type, in the order of the enumeration: a byte is stored in eight. */
  function SizeOfType(kind: U32): nat {
    match kind
    case 0 => 8
    case 1 => 1
    case 2 => 8
    case 3 => 2
    case 4 => 4
    case 5 => 8
    case 6 => 4
    case 7 => 8
    case _ => 0
  }

  /** Lengths and counts pass through a signed 32-bit integer. */
  function Truncate32(n: nat): U32 {
    n % 0x1_0000_0000
  }

  function Signed(v: U32): (r: int)
    ensures -0x8000_0000 <= r < 0x8000_0000 && (v - r) % 0x1_0000_0000 == 0
  {
    if v < 0x8000_0000 then v else v - 0x1_0000_0000
  }

  // ----- Keys -----

  /** What strcmp sees of a string: everything before the first zero byte. */
  function CString(s: seq<Byte>): (r: seq<Byte>)
    ensures r <= s && (r != s ==> s[|r|] == 0) && 0 !in r
  {
    if s == [] || s[0] == 0 then [] else [s[0]] + CString(s[1..])
  }

  predicate LessBytes(a: seq<Byte>, b: seq<Byte>) {
    b != [] && (a == [] || a[0] < b[0] || (a[0] == b[0] && LessBytes(a[1..], b[1..])))
  }

  predicate Less(a: seq<Byte>, b: seq<Byte>) {
    LessBytes(CString(a), CString(b))
  }

  /** Sets the value of a key in a tree map; an equal key stays as it was. */
  function Put(entries: seq<Entry>, key: seq<Byte>, value: Object): seq<Entry> {
    if entries == [] || Less(key, entries[0].key) then [Entry(key, value)] + entries
    else if Less(entries[0].key, key) then [entries[0]] + Put(entries[1..], key, value)
    else [Entry(entries[0].key, value)] + entries[1..]
  }

  // ----- The printed form -----

  function Encode(o: Object): seq<Byte>
    decreases o, 1
  {
    match o
    case Null => Store(false, NULL_ID)
    case String(c) => EncodeString(c)
    case Data(b) => Store(false, DATA_ID) + Store(false, Truncate32(|b|)) + b
    case Value(kind, raw) => Store(false, VALUE_ID) + Store(false, kind) + raw
    case Array(items) => Store(false, ARRAY_ID) + Store(false, Truncate32(|items|)) + EncodeItems(items)
    case Dictionary(entries) =>
      Store(false, DICTIONARY_ID) + Store(false, Truncate32(|entries|)) + EncodeEntries(entries)
  }

  function EncodeString(c: seq<Byte>): seq<Byte> {
    Store(false, STRING_ID) + Store(false, Truncate32(|c|)) + c
  }

  function EncodeItems(items: seq<Object>): seq<Byte>
    decreases items, 0
  {
    if items == [] then [] else Encode(items[0]) + EncodeItems(items[1..])
  }

  function EncodeEntry(e: Entry): seq<Byte>
    decreases e, 2
  {
    EncodeString(e.key) + Encode(e.value)
  }

  function EncodeEntries(entries: seq<Entry>): seq<Byte>
    decreases entries, 0
  {
    if entries == [] then [] else EncodeEntry(entries[0]) + EncodeEntries(entries[1..])
  }

  // ----- The parser -----

  datatype Error = EndOfInput | UnknownIdentifier | KeyNotString | Overrun | OutOfMemory

  datatype Parsed<T> = Ok(value: T, rest: seq<Byte>) | Fail(error: Error)

  /** The offset after a number of characters, unless finding it means looking past the buffer. */
  function CharacterOffset(b: seq<Byte>, at: nat, characters: nat): Option<nat>
    decreases characters
  {
    if characters == 0 then Some(at)
    else if at >= |b| then None
    else if b[at] == 0 then Some(at)
    else CharacterOffset(b, at + Utf8Strings.LeadSize(b[at]), characters - 1)
  }

  /** Copying n bytes of a C string: zeros from its end on. */
  function CopyString(b: seq<Byte>, n: nat): (r: seq<Byte>)
    requires n <= |b|
    ensures |r| == n && forall i :: 0 <= i < n ==> r[i] == if 0 in b[..i] then 0 else b[i]
  {
    var c := CString(b[..n]);
    c + seq(n - |c|, i => 0)
  }

  /** The string made of a buffer whose size in bytes is passed as a number of characters. */
  function StringFromBytes(b: seq<Byte>): Option<seq<Byte>> {
    match CharacterOffset(b, 0, |b|)
    case None => None
    case Some(n) => if n <= |b| then Some(CopyString(b, n)) else None
  }

  function ParseInt32(s: seq<Byte>): Parsed<U32> {
    if |s| < 4 then Fail(EndOfInput) else Ok(Load(false, s[..4]), s[4..])
  }

  function ParseBytes(s: seq<Byte>, size: int): Parsed<seq<Byte>> {
    if size < 0 then Fail(OutOfMemory) else if |s| < size then Fail(EndOfInput) else Ok(s[..size], s[size..])
  }

  /** A 32-bit size and that many bytes. */
  function ParseBlock(s: seq<Byte>): (r: Parsed<seq<Byte>>)
    ensures r.Ok? ==> |r.rest| <= |s|
  {
    match ParseInt32(s)
    case Fail(e) => Fail(e)
    case Ok(size, rest) => ParseBytes(rest, Signed(size))
  }

  function ParseString(s: seq<Byte>): (r: Parsed<Object>)
    ensures r.Ok? ==> |r.rest| <= |s|
  {
    match ParseBlock(s)
    case Fail(e) => Fail(e)
    case Ok(bytes, rest) =>
      match StringFromBytes(bytes)
      case None => Fail(Overrun)
      case Some(c) => Ok(String(c), rest)
  }

  function ParseData(s: seq<Byte>): (r: Parsed<Object>)
    ensures r.Ok? ==> |r.rest| <= |s|
  {
    match ParseBlock(s)
    case Fail(e) => Fail(e)
    case Ok(bytes, rest) => Ok(Data(bytes), rest)
  }

  function ParseValue(s: seq<Byte>): (r: Parsed<Object>)
    ensures r.Ok? ==> |r.rest| <= |s|
  {
    match ParseInt32(s)
    case Fail(e) => Fail(e)
    case Ok(kind, rest) =>
      match ParseBytes(rest, SizeOfType(kind))
      case Fail(e) => Fail(e)
      case Ok(raw, rest') => Ok(Value(kind, raw), rest')
  }

  function Parse(s: seq<Byte>): (r: Parsed<Object>)
    ensures r.Ok? ==> |r.rest| < |s|
    decreases |s|, 0
  {
    match ParseInt32(s)
    case Fail(e) => Fail(e)
    case Ok(id, rest) =>
      if id == DICTIONARY_ID then
        match ParseInt32(rest)
        case Fail(e) => Fail(e)
        case Ok(count, rest') => ParseEntries(Signed(count), rest', [])
      else if id == ARRAY_ID then
        match ParseInt32(rest)
        case Fail(e) => Fail(e)
        case Ok(count, rest') => ParseItems(Signed(count), rest', [])
      else if id == STRING_ID then ParseString(rest)
      else if id == VALUE_ID then ParseValue(rest)
      else if id == DATA_ID then ParseData(rest)
      else if id == NULL_ID then Ok(Null, rest)
      else Fail(UnknownIdentifier)
  }

  /** The loop over the items still to come, with those read so far. */
  function ParseItems(count: int, s: seq<Byte>, read: seq<Object>): (r: Parsed<Object>)
    ensures r.Ok? ==> |r.rest| <= |s|
    decreases |s|, 1, count
  {
    if count <= 0 then Ok(Array(read), s)
    else
      match Parse(s)
      case Fail(e) => Fail(e)
      case Ok(item, rest) => ParseItems(count - 1, rest, read + [item])
  }

  /** The loop over the entries still to come, with the dictionary filled so far. */
  function ParseEntries(count: int, s: seq<Byte>, read: seq<Entry>): (r: Parsed<Object>)
    ensures r.Ok? ==> |r.rest| <= |s|
    decreases |s|, 1, count
  {
    if count <= 0 then Ok(Dictionary(read), s)
    else
      match Parse(s)
      case Fail(e) => Fail(e)
      case Ok(key, rest) =>
        if !key.String? then Fail(KeyNotString)
        else
          match Parse(rest)
          case Fail(e) => Fail(e)
          case Ok(value, rest') => ParseEntries(count - 1, rest', Put(read, key.chars, value))
  }

  // ----- The serializer itself -----

  method Serialize(writer: MemoryStream, littleMachine: bool, o: Object)
    requires writer.Valid()
    modifies writer
    ensures writer.Valid()
    ensures writer.data == Overwrite(old(writer.data), old(writer.position), Encode(o))
    ensures writer.position == old(writer.position) + |Encode(o)|
    decreases o, 1
  {
    hide Overwrite, Store, Truncate32;
    ghost var data, position := writer.data, writer.position;
    match o
    case Null =>
      writer.WriteInt32(littleMachine, NULL_ID);
    case String(c) =>
      SerializeString(writer, littleMachine, c);
    case Data(b) =>
      writer.WriteInt32(littleMachine, DATA_ID);
      OverwriteTwice(data, position, Store(false, DATA_ID), Store(false, Truncate32(|b|)));
      writer.WriteInt32(littleMachine, Truncate32(|b|));
      OverwriteTwice(data, position, Store(false, DATA_ID) + Store(false, Truncate32(|b|)), b);
      writer.Write(b);
    case Value(kind, raw) =>
      writer.WriteInt32(littleMachine, VALUE_ID);
      OverwriteTwice(data, position, Store(false, VALUE_ID), Store(false, kind));
      writer.WriteInt32(littleMachine, kind);
      OverwriteTwice(data, position, Store(false, VALUE_ID) + Store(false, kind), raw);
      writer.Write(raw);
    case Array(items) =>
      var count := Truncate32(|items|);
      writer.WriteInt32(littleMachine, ARRAY_ID);
      OverwriteTwice(data, position, Store(false, ARRAY_ID), Store(false, count));
      writer.WriteInt32(littleMachine, count);
      OverwriteTwice(data, position, Store(false, ARRAY_ID) + Store(false, count), EncodeItems(items));
      SerializeItems(writer, littleMachine, items);
    case Dictionary(entries) =>
      var count := Truncate32(|entries|);
      writer.WriteInt32(littleMachine, DICTIONARY_ID);
      OverwriteTwice(data, position, Store(false, DICTIONARY_ID), Store(false, count));
      writer.WriteInt32(littleMachine, count);
      OverwriteTwice(data, position, Store(false, DICTIONARY_ID) + Store(false, count), EncodeEntries(entries));
      SerializeEntries(writer, littleMachine, entries);
  }

  method SerializeString(writer: MemoryStream, littleMachine: bool, c: seq<Byte>)
    requires writer.Valid()
    modifies writer
    ensures writer.Valid()
    ensures writer.data == Overwrite(old(writer.data), old(writer.position), EncodeString(c))
    ensures writer.position == old(writer.position) + |EncodeString(c)|
  {
    ghost var data, position := writer.data, writer.position;
    writer.WriteInt32(littleMachine, STRING_ID);
    OverwriteTwice(data, position, Store(false, STRING_ID), Store(false, Truncate32(|c|)));
    writer.WriteInt32(littleMachine, Truncate32(|c|));
    OverwriteTwice(data, position, Store(false, STRING_ID) + Store(false, Truncate32(|c|)), c);
    writer.Write(c);
  }

  method SerializeItems(writer: MemoryStream, littleMachine: bool, items: seq<Object>)
    requires writer.Valid()
    modifies writer
    ensures writer.Valid()
    ensures writer.data == Overwrite(old(writer.data), old(writer.position), EncodeItems(items))
    ensures writer.position == old(writer.position) + |EncodeItems(items)|
    decreases items, 0
  {
    hide Overwrite, Encode;
    OverwriteNothing(writer.data, writer.position);
    ghost var data, position := writer.data, writer.position;
    var i := 0;
    while i < |items|
      invariant 0 <= i <= |items| && writer.Valid()
      invariant writer.data == Overwrite(data, position, EncodeItems(items[..i]))
      invariant writer.position == position + |EncodeItems(items[..i])|
    {
      OverwriteTwice(data, position, EncodeItems(items[..i]), Encode(items[i]));
      EncodeItemsLast(items[..i], items[i]);
      assert items[..i + 1] == items[..i] + [items[i]];
      Serialize(writer, littleMachine, items[i]);
      i := i + 1;
    }
    assert items[..i] == items;
  }

  method SerializeEntries(writer: MemoryStream, littleMachine: bool, entries: seq<Entry>)
    requires writer.Valid()
    modifies writer
    ensures writer.Valid()
    ensures writer.data == Overwrite(old(writer.data), old(writer.position), EncodeEntries(entries))
    ensures writer.position == old(writer.position) + |EncodeEntries(entries)|
    decreases entries, 0
  {
    hide Overwrite, Encode, EncodeString;
    OverwriteNothing(writer.data, writer.position);
    ghost var data, position := writer.data, writer.position;
    var i := 0;
    while i < |entries|
      invariant 0 <= i <= |entries| && writer.Valid()
      invariant writer.data == Overwrite(data, position, EncodeEntries(entries[..i]))
      invariant writer.position == position + |EncodeEntries(entries[..i])|
    {
      ghost var before := EncodeEntries(entries[..i]);
      var e := entries[i];
      OverwriteTwice(data, position, before, EncodeString(e.key));
      SerializeString(writer, littleMachine, e.key);
      OverwriteTwice(data, position, before + EncodeString(e.key), Encode(e.value));
      Serialize(writer, littleMachine, e.value);
      EncodeEntriesLast(entries[..i], e);
      assert entries[..i + 1] == entries[..i] + [e];
      assert before + EncodeString(e.key) + Encode(e.value) == before + EncodeEntry(e);
      i := i + 1;
    }
    assert entries[..i] == entries;
  }

  lemma {:induction false} EncodeItemsLast(items: seq<Object>, item: Object)
    ensures EncodeItems(items + [item]) == EncodeItems(items) + Encode(item)
    decreases |items|
  {
    if items == [] {
      assert EncodeItems([item]) == Encode(item) + EncodeItems([]);
    } else {
      assert (items + [item])[1..] == items[1..] + [item];
      EncodeItemsLast(items[1..], item);
    }
  }

  lemma {:induction false} EncodeEntriesLast(entries: seq<Entry>, e: Entry)
    ensures EncodeEntries(entries + [e]) == EncodeEntries(entries) + EncodeEntry(e)
    decreases |entries|
  {
    if entries == [] {
      assert EncodeEntries([e]) == EncodeEntry(e) + EncodeEntries([]);
    } else {
      assert (entries + [e])[1..] == entries[1..] + [e];
      EncodeEntriesLast(entries[1..], e);
    }
  }

  datatype Outcome = Done(o: Object) | Thrown(error: Error)

  /** The outcome of a call that found the given input, and where it left the stream if it returned. */
  ghost predicate Delivers(outcome: Outcome, remaining: seq<Byte>, parsed: Parsed<Object>) {
    match parsed
    case Ok(value, rest) => outcome == Done(value) && remaining == rest
    case Fail(error) => outcome == Thrown(error)
  }

  method Deserialize(reader: MemoryStream, littleMachine: bool) returns (r: Outcome)
    requires reader.Valid()
    modifies reader`position
    ensures reader.Valid() && Delivers(r, reader.Remaining(), Parse(old(reader.Remaining())))
    decreases |reader.Remaining()|, 0
  {
    var id := reader.ReadInt32(littleMachine);
    if id.EndOfStream? {
      return Thrown(EndOfInput);
    }
    if id.value == DICTIONARY_ID {
      r := DeserializeDictionary(reader, littleMachine);
    } else if id.value == ARRAY_ID {
      r := DeserializeArray(reader, littleMachine);
    } else if id.value == STRING_ID {
      var block := ReadBlock(reader, littleMachine);
      if block.Fail? {
        return Thrown(block.error);
      }
      var chars := StringFromBytes(block.value);
      r := if chars.None? then Thrown(Overrun) else Done(String(chars.value));
    } else if id.value == VALUE_ID {
      var kind := reader.ReadInt32(littleMachine);
      if kind.EndOfStream? {
        return Thrown(EndOfInput);
      }
      var raw := reader.ReadBytes(SizeOfType(kind.value));
      r := if raw.EndOfStream? then Thrown(EndOfInput) else Done(Value(kind.value, raw.value));
    } else if id.value == DATA_ID {
      var block := ReadBlock(reader, littleMachine);
      r := if block.Fail? then Thrown(block.error) else Done(Data(block.value));
    } else if id.value == NULL_ID {
      r := Done(Null);
    } else {
      r := Thrown(UnknownIdentifier);
    }
  }

  method ReadBlock(reader: MemoryStream, littleMachine: bool) returns (r: Parsed<seq<Byte>>)
    requires reader.Valid()
    modifies reader`position
    ensures reader.Valid()
    ensures match ParseBlock(old(reader.Remaining()))
      case Ok(bytes, rest) => r == Ok(bytes, rest) && reader.Remaining() == rest
      case Fail(error) => r == Fail(error)
  {
    var size := reader.ReadInt32(littleMachine);
    if size.EndOfStream? {
      return Fail(EndOfInput);
    }
    if Signed(size.value) < 0 {
      return Fail(OutOfMemory);
    }
    var bytes := reader.ReadBytes(Signed(size.value));
    if bytes.EndOfStream? {
      return Fail(EndOfInput);
    }
    r := Ok(bytes.value, reader.data[reader.position..]);
  }

  method DeserializeArray(reader: MemoryStream, littleMachine: bool) returns (r: Outcome)
    requires reader.Valid()
    modifies reader`position
    ensures reader.Valid()
    ensures match ParseInt32(old(reader.Remaining()))
      case Fail(e) => r == Thrown(e)
      case Ok(count, rest) => Delivers(r, reader.Remaining(), ParseItems(Signed(count), rest, []))
    decreases |reader.Remaining()|, 1
  {
    hide Load, Store, Signed, Parse;
    var count := reader.ReadInt32(littleMachine);
    if count.EndOfStream? {
      return Thrown(EndOfInput);
    }
    var n := Signed(count.value);
    var items := [];
    var i := 0;
    ghost var parsed := ParseItems(n, reader.Remaining(), []);
    ghost var bound := |reader.Remaining()|;
    while i < n
      invariant 0 <= i && (n >= 0 ==> i <= n) && (n < 0 ==> i == 0) && reader.Valid()
      invariant |reader.Remaining()| <= bound
      invariant ParseItems(n - i, reader.Remaining(), items) == parsed
    {
      var item := Deserialize(reader, littleMachine);
      if item.Thrown? {
        return item;
      }
      items := items + [item.o];
      i := i + 1;
    }
    r := Done(Array(items));
  }

  method DeserializeDictionary(reader: MemoryStream, littleMachine: bool) returns (r: Outcome)
    requires reader.Valid()
    modifies reader`position
    ensures reader.Valid()
    ensures match ParseInt32(old(reader.Remaining()))
      case Fail(e) => r == Thrown(e)
      case Ok(count, rest) => Delivers(r, reader.Remaining(), ParseEntries(Signed(count), rest, []))
    decreases |reader.Remaining()|, 1
  {
    hide Load, Store, Signed, Parse, Put;
    var count := reader.ReadInt32(littleMachine);
    if count.EndOfStream? {
      return Thrown(EndOfInput);
    }
    var n := Signed(count.value);
    var entries := [];
    var i := 0;
    ghost var parsed := ParseEntries(n, reader.Remaining(), []);
    ghost var bound := |reader.Remaining()|;
    while i < n
      invariant 0 <= i && (n >= 0 ==> i <= n) && (n < 0 ==> i == 0) && reader.Valid()
      invariant |reader.Remaining()| <= bound
      invariant ParseEntries(n - i, reader.Remaining(), entries) == parsed
    {
      var key := Deserialize(reader, littleMachine);
      if key.Thrown? {
        return key;
      }
      if !key.o.String? {
        return Thrown(KeyNotString);
      }
      var value := Deserialize(reader, littleMachine);
      if value.Thrown? {
        return value;
      }
      entries := Put(entries, key.o.chars, value.o);
      i := i + 1;
    }
    r := Done(Dictionary(entries));
  }

  // ----- What is read back -----

  /** Sizes that fit the signed 32-bit fields, and values as large as their type says. */
  predicate Fits(o: Object) {
    match o
    case Null => true
    case String(c) => |c| < 0x8000_0000
    case Data(b) => |b| < 0x8000_0000
    case Value(kind, raw) => |raw| == SizeOfType(kind)
    case Array(items) => |items| < 0x8000_0000 && forall i :: 0 <= i < |items| ==> Fits(items[i])
    case Dictionary(entries) =>
      |entries| < 0x8000_0000
      && forall i :: 0 <= i < |entries| ==> |entries[i].key| < 0x8000_0000 && Fits(entries[i].value)
  }

  /** Every dictionary lists its keys in strictly increasing order, as a tree map does. */
  predicate Sorted(o: Object) {
    match o
    case Array(items) => forall i :: 0 <= i < |items| ==> Sorted(items[i])
    case Dictionary(entries) =>
      && (forall i, j :: 0 <= i < j < |entries| ==> Less(entries[i].key, entries[j].key))
      && forall i :: 0 <= i < |entries| ==> Sorted(entries[i].value)
    case _ => true
  }

  predicate IsAscii(c: seq<Byte>) {
    forall i :: 0 <= i < |c| ==> 1 <= c[i] <= 0x7f
  }

  predicate AllAscii(o: Object) {
    match o
    case String(c) => IsAscii(c)
    case Array(items) => forall i :: 0 <= i < |items| ==> AllAscii(items[i])
    case Dictionary(entries) =>
      forall i :: 0 <= i < |entries| ==> IsAscii(entries[i].key) && AllAscii(entries[i].value)
    case _ => true
  }

  /** The object that comes back when o is printed and parsed, or nothing if parsing overruns a string. */
  function Readback(o: Object): Option<Object>
    decreases o, 1
  {
    match o
    case String(c) => (match StringFromBytes(c) case None => None case Some(d) => Some(String(d)))
    case Array(items) => ReadbackItems(items, [])
    case Dictionary(entries) => ReadbackEntries(entries, [])
    case _ => Some(o)
  }

  function ReadbackItems(items: seq<Object>, read: seq<Object>): Option<Object>
    decreases items, 0
  {
    if items == [] then Some(Array(read))
    else
      match Readback(items[0])
      case None => None
      case Some(item) => ReadbackItems(items[1..], read + [item])
  }

  function ReadbackEntries(entries: seq<Entry>, read: seq<Entry>): Option<Object>
    decreases entries, 0
  {
    if entries == [] then Some(Dictionary(read))
    else
      match StringFromBytes(entries[0].key)
      case None => None
      case Some(key) =>
        match Readback(entries[0].value)
        case None => None
        case Some(value) => ReadbackEntries(entries[1..], Put(read, key, value))
  }

  ghost predicate Reads(parsed: Parsed<Object>, back: Option<Object>, rest: seq<Byte>) {
    match back
    case None => parsed == Fail(Overrun)
    case Some(o) => parsed == Ok(o, rest)
  }

  lemma ParseInt32Stored(v: U32, rest: seq<Byte>)
    ensures ParseInt32(Store(false, v) + rest) == Ok(v, rest)
  {
    BigEndianEverywhere(false, v);
    assert (Store(false, v) + rest)[..4] == Store(false, v);
  }

  lemma SmallSize(n: nat)
    requires n < 0x8000_0000
    ensures Signed(Truncate32(n)) == n
  {}

  lemma ParseBlockStored(b: seq<Byte>, rest: seq<Byte>)
    requires |b| < 0x8000_0000
    ensures ParseBlock(Store(false, Truncate32(|b|)) + b + rest) == Ok(b, rest)
  {
    hide Store, Load, Truncate32, Signed;
    SmallSize(|b|);
    var size := Store(false, Truncate32(|b|));
    assert size + b + rest == size + (b + rest);
    ParseInt32Stored(Truncate32(|b|), b + rest);
    assert (b + rest)[..|b|] == b && (b + rest)[|b|..] == rest;
  }

  lemma ParseEncodedString(c: seq<Byte>, rest: seq<Byte>)
    requires |c| < 0x8000_0000
    ensures Reads(Parse(EncodeString(c) + rest), Readback(String(c)), rest)
  {
    var size := Store(false, Truncate32(|c|));
    assert EncodeString(c) + rest == Store(false, STRING_ID) + (size + c + rest);
    ParseInt32Stored(STRING_ID, size + c + rest);
    ParseBlockStored(c, rest);
  }

  /** Parsing a printed object and anything after it gives its readback and leaves what was after it. */
  lemma {:induction false} ParseEncoded(o: Object, rest: seq<Byte>)
    requires Fits(o)
    ensures Reads(Parse(Encode(o) + rest), Readback(o), rest)
    decreases o, 1
  {
    hide Store, Load, Truncate32, Signed, ParseInt32, ParseItems, ParseEntries, EncodeItems, EncodeEntries;
    match o
    case Null =>
      ParseInt32Stored(NULL_ID, rest);
    case String(c) =>
      ParseEncodedString(c, rest);
    case Data(b) =>
      var size := Store(false, Truncate32(|b|));
      assert Encode(o) + rest == Store(false, DATA_ID) + (size + b + rest);
      ParseInt32Stored(DATA_ID, size + b + rest);
      ParseBlockStored(b, rest);
    case Value(kind, raw) =>
      assert Encode(o) + rest == Store(false, VALUE_ID) + (Store(false, kind) + (raw + rest));
      ParseInt32Stored(VALUE_ID, Store(false, kind) + (raw + rest));
      ParseInt32Stored(kind, raw + rest);
      assert (raw + rest)[..|raw|] == raw && (raw + rest)[|raw|..] == rest;
    case Array(items) =>
      ArrayHeader(items, rest);
      ParseEncodedItems(items, [], rest);
    case Dictionary(entries) =>
      DictionaryHeader(entries, rest);
      ParseEncodedEntries(entries, [], rest);
  }

  lemma ArrayHeader(items: seq<Object>, rest: seq<Byte>)
    requires |items| < 0x8000_0000
    ensures Parse(Encode(Array(items)) + rest) == ParseItems(|items|, EncodeItems(items) + rest, [])
  {
    hide Store, Load, Truncate32, Signed, ParseInt32, ParseItems, ParseEntries, EncodeItems, EncodeEntries;
    SmallSize(|items|);
    var count := Store(false, Truncate32(|items|));
    assert Encode(Array(items)) + rest == Store(false, ARRAY_ID) + (count + (EncodeItems(items) + rest));
    ParseInt32Stored(ARRAY_ID, count + (EncodeItems(items) + rest));
    ParseInt32Stored(Truncate32(|items|), EncodeItems(items) + rest);
  }

  lemma DictionaryHeader(entries: seq<Entry>, rest: seq<Byte>)
    requires |entries| < 0x8000_0000
    ensures Parse(Encode(Dictionary(entries)) + rest) == ParseEntries(|entries|, EncodeEntries(entries) + rest, [])
  {
    hide Store, Load, Truncate32, Signed, ParseInt32, ParseItems, ParseEntries, EncodeItems, EncodeEntries;
    SmallSize(|entries|);
    var count := Store(false, Truncate32(|entries|));
    assert Encode(Dictionary(entries)) + rest
      == Store(false, DICTIONARY_ID) + (count + (EncodeEntries(entries) + rest));
    ParseInt32Stored(DICTIONARY_ID, count + (EncodeEntries(entries) + rest));
    ParseInt32Stored(Truncate32(|entries|), EncodeEntries(entries) + rest);
  }

  lemma {:induction false} ParseEncodedItems(items: seq<Object>, read: seq<Object>, rest: seq<Byte>)
    requires forall i :: 0 <= i < |items| ==> Fits(items[i])
    ensures Reads(ParseItems(|items|, EncodeItems(items) + rest, read), ReadbackItems(items, read), rest)
    decreases items, 0
  {
    hide Encode, Parse, Readback, Fits;
    if items == [] {
      assert EncodeItems(items) + rest == rest;
    } else {
      assert EncodeItems(items) + rest == Encode(items[0]) + (EncodeItems(items[1..]) + rest);
      ParseEncoded(items[0], EncodeItems(items[1..]) + rest);
      match Readback(items[0])
      case None =>
      case Some(item) => ParseEncodedItems(items[1..], read + [item], rest);
    }
  }

  lemma {:induction false} ParseEncodedEntries(entries: seq<Entry>, read: seq<Entry>, rest: seq<Byte>)
    requires forall i :: 0 <= i < |entries| ==> |entries[i].key| < 0x8000_0000 && Fits(entries[i].value)
    ensures Reads(ParseEntries(|entries|, EncodeEntries(entries) + rest, read), ReadbackEntries(entries, read), rest)
    decreases entries, 0
  {
    hide Encode, EncodeString, Parse, StringFromBytes;
    if entries == [] {
      assert EncodeEntries(entries) + rest == rest;
    } else {
      var e := entries[0];
      var tail := EncodeEntries(entries[1..]) + rest;
      assert EncodeEntries(entries) + rest == EncodeString(e.key) + (Encode(e.value) + tail);
      ParseEncodedString(e.key, Encode(e.value) + tail);
      match StringFromBytes(e.key)
      case None =>
      case Some(key) =>
        ParseEncoded(e.value, tail);
        match Readback(e.value)
        case None =>
        case Some(value) => ParseEncodedEntries(entries[1..], Put(read, key, value), rest);
    }
  }

  /** Which objects are meant: any of the kinds, of sizes below 2^31, dictionaries in the strict order of their keys. */
  lemma Meant(b: seq<Byte>, kind: U32, items: seq<Object>, entries: seq<Entry>)
    ensures Fits(Null) && Sorted(Null) && AllAscii(Null)
    ensures Sorted(String(b)) && Sorted(Data(b)) && Sorted(Value(kind, b))
    ensures AllAscii(Data(b)) && AllAscii(Value(kind, b))
    ensures Fits(String(b)) == Fits(Data(b)) == (|b| < 0x8000_0000)
    ensures AllAscii(String(b)) <==> forall i :: 0 <= i < |b| ==> 1 <= b[i] <= 0x7f
    ensures Fits(Value(kind, b)) <==> |b| == SizeOfType(kind)
    ensures Fits(Array(items)) <==> |items| < 0x8000_0000 && forall i :: 0 <= i < |items| ==> Fits(items[i])
    ensures Sorted(Array(items)) <==> forall i :: 0 <= i < |items| ==> Sorted(items[i])
    ensures AllAscii(Array(items)) <==> forall i :: 0 <= i < |items| ==> AllAscii(items[i])
    ensures Fits(Dictionary(entries)) <==>
      |entries| < 0x8000_0000 && forall e <- entries :: |e.key| < 0x8000_0000 && Fits(e.value)
    ensures Sorted(Dictionary(entries)) <==>
      (forall i, j :: 0 <= i < j < |entries| ==> Less(entries[i].key, entries[j].key))
      && forall e <- entries :: Sorted(e.value)
    ensures AllAscii(Dictionary(entries)) <==> forall e <- entries :: IsAscii(e.key) && AllAscii(e.value)
  {}

  // ----- The printed form, byte by byte -----

  lemma Identifiers()
    ensures Store(false, NULL_ID) == [0, 0, 0, 0]
    ensures Store(false, STRING_ID) == [0x19, 0x7a, 0xd1, 0x12]
    ensures Store(false, DATA_ID) == [0xf5, 0x2e, 0xe9, 0xce]
    ensures Store(false, VALUE_ID) == [0x5e, 0xe2, 0x89, 0xef]
    ensures Store(false, ARRAY_ID) == [0x3e, 0x34, 0x6f, 0xc4]
    ensures Store(false, DICTIONARY_ID) == [0xa5, 0x63, 0xca, 0xb6]
  {}

  /** Objects of every kind with their tags, big-endian sizes and contents. */
  lemma PrintedForms(n: Byte, raw: seq<Byte>, item: Object, key: seq<Byte>)
    requires n < 0x80 && |key| == n as int
    ensures Encode(Null) == [0, 0, 0, 0]
    ensures Encode(String(key)) == [0x19, 0x7a, 0xd1, 0x12, 0, 0, 0, n] + key
    ensures Encode(Data(key)) == [0xf5, 0x2e, 0xe9, 0xce, 0, 0, 0, n] + key
    ensures Encode(Value(n, raw)) == [0x5e, 0xe2, 0x89, 0xef, 0, 0, 0, n] + raw
    ensures Encode(Array([item, item])) == [0x3e, 0x34, 0x6f, 0xc4, 0, 0, 0, 2] + Encode(item) + Encode(item)
    ensures Encode(Dictionary([Entry(key, item)])) ==
      [0xa5, 0x63, 0xca, 0xb6, 0, 0, 0, 1] + Encode(String(key)) + Encode(item)
  {
    hide Store, Truncate32;
    Identifiers();
    SmallStored(n);
    TwoItems(item);
    OneEntry(key, item);
  }

  lemma TwoItems(item: Object)
    ensures Encode(Array([item, item])) == [0x3e, 0x34, 0x6f, 0xc4, 0, 0, 0, 2] + Encode(item) + Encode(item)
  {
    hide Store, Truncate32;
    Identifiers();
    SmallStored(2);
    var items := [item, item];
    assert items[1..] == [item] && [item][1..] == [];
    assert EncodeItems(items) == Encode(item) + (Encode(item) + EncodeItems([]));
  }

  lemma OneEntry(key: seq<Byte>, item: Object)
    ensures Encode(Dictionary([Entry(key, item)])) ==
      [0xa5, 0x63, 0xca, 0xb6, 0, 0, 0, 1] + Encode(String(key)) + Encode(item)
  {
    hide Store, Truncate32;
    Identifiers();
    SmallStored(1);
    var entries := [Entry(key, item)];
    assert entries[1..] == [];
    assert EncodeEntries(entries) == EncodeEntry(Entry(key, item)) + EncodeEntries([]);
  }

  lemma LargeStored(a: Byte, b: Byte, c: Byte, d: Byte)
    requires a >= 0x80
    ensures var n := [a, b, c, d]; Store(false, Load(false, n)) == n && Signed(Load(false, n)) < 0
  {
    DigitsOfDigits(d, c, b, a);
  }

  /** Sizes and counts from 0x80000000 on are negative: no memory for so many bytes, and no items at all. */
  lemma NegativeSizes(a: Byte, b: Byte, c: Byte, d: Byte, rest: seq<Byte>)
    requires a >= 0x80
    ensures Parse([0xf5, 0x2e, 0xe9, 0xce, a, b, c, d] + rest) == Fail(OutOfMemory)
    ensures Parse([0x3e, 0x34, 0x6f, 0xc4, a, b, c, d] + rest) == Ok(Array([]), rest)
    ensures Parse([0xa5, 0x63, 0xca, 0xb6, a, b, c, d] + rest) == Ok(Dictionary([]), rest)
  {
    hide Store, Load, ParseInt32;
    Identifiers();
    LargeStored(a, b, c, d);
    var n := [a, b, c, d];
    var v := Load(false, n);
    ParseInt32Stored(DATA_ID, n + rest);
    ParseInt32Stored(ARRAY_ID, n + rest);
    ParseInt32Stored(DICTIONARY_ID, n + rest);
    ParseInt32Stored(v, rest);
    assert [0xf5, 0x2e, 0xe9, 0xce, a, b, c, d] + rest == Store(false, DATA_ID) + (n + rest);
    assert [0x3e, 0x34, 0x6f, 0xc4, a, b, c, d] + rest == Store(false, ARRAY_ID) + (n + rest);
    assert [0xa5, 0x63, 0xca, 0xb6, a, b, c, d] + rest == Store(false, DICTIONARY_ID) + (n + rest);
  }

  lemma SmallStored(n: Byte)
    ensures Truncate32(n) == n && Store(false, n) == [0, 0, 0, n]
  {}

  /** The sizes that tagged values are read with. */
  lemma ValueSizes(kind: U32)
    ensures SizeOfType(kind) == (if kind in {0, 2, 5, 7} then 8 else if kind in {4, 6} then 4
      else if kind == 3 then 2 else if kind == 1 then 1 else 0)
  {}

  // ----- Which objects come back equal -----

  lemma {:induction false} OffsetIsEndIffAscii(b: seq<Byte>, at: nat, characters: nat)
    requires at + characters >= |b|
    ensures CharacterOffset(b, at, characters) == Some(|b|) <==>
      at + characters == |b| && forall i :: at <= i < |b| ==> 1 <= b[i] <= 0x7f
    decreases characters
  {
    if characters > 0 && at < |b| && b[at] != 0 {
      OffsetIsEndIffAscii(b, at + Utf8Strings.LeadSize(b[at]), characters - 1);
    }
  }

  /** A string survives exactly if it is all ASCII; one that only gets through shrinks. */
  lemma StringReadbackExact(b: seq<Byte>)
    ensures StringFromBytes(b) == Some(b) <==> IsAscii(b)
    ensures StringFromBytes(b).Some? ==> |StringFromBytes(b).value| <= |b|
    ensures StringFromBytes(b).Some? && !IsAscii(b) ==> |StringFromBytes(b).value| < |b|
  {
    OffsetIsEndIffAscii(b, 0, |b|);
    assert b[..|b|] == b;
    if IsAscii(b) {
      assert CString(b) == b;
      assert CopyString(b, |b|) == b;
    }
  }

  /** U+00E9 on its own: two bytes taken for two characters reach past the buffer. */
  lemma TwoBytesOverrun()
    ensures Parse(Encode(String([0xc3, 0xa9]))) == Fail(Overrun)
  {
    hide Parse, EncodeString;
    var b: seq<Byte> := [0xc3, 0xa9];
    assert CharacterOffset(b, 0, 2) == CharacterOffset(b, 2, 1) == None;
    ParseEncodedString(b, []);
    assert Encode(String(b)) == EncodeString(b) == EncodeString(b) + [];
  }

  lemma {:induction false} LessBytesAsymmetric(a: seq<Byte>, b: seq<Byte>)
    requires LessBytes(a, b)
    ensures !LessBytes(b, a)
    decreases |a|
  {
    if a != [] && a[0] == b[0] {
      LessBytesAsymmetric(a[1..], b[1..]);
    }
  }

  /** The order is that of strcmp: the first difference decides, and a beginning comes before the whole. */
  lemma {:induction false} LessMeans(a: seq<Byte>, b: seq<Byte>)
    ensures LessBytes(a, b) <==>
      (a <= b && a != b) || exists k :: 0 <= k < |a| && k < |b| && a[..k] == b[..k] && a[k] < b[k]
    decreases |a|
  {
    if a != [] && b != [] && a[0] == b[0] {
      LessMeans(a[1..], b[1..]);
      var x, y := a[1..], b[1..];
      assert a == [a[0]] + x && b == [a[0]] + y;
      if k :| 0 <= k < |x| && k < |y| && x[..k] == y[..k] && x[k] < y[k] {
        assert a[..k + 1] == [a[0]] + x[..k] && b[..k + 1] == [a[0]] + y[..k] && a[k + 1] < b[k + 1];
      }
      if k :| 0 <= k < |a| && k < |b| && a[..k] == b[..k] && a[k] < b[k] {
        assert k > 0 && x[..k - 1] == a[..k][1..] && y[..k - 1] == b[..k][1..] && x[k - 1] < y[k - 1];
      }
    } else if a != [] && b != [] {
      if a[0] < b[0] {
        assert a[..0] == b[..0];
      }
      FirstDiffers(a, b);
    }
  }

  lemma FirstDiffers(a: seq<Byte>, b: seq<Byte>)
    requires a != [] && b != []
    ensures forall k :: 0 < k < |a| && k < |b| && a[..k] == b[..k] ==> a[0] == b[0]
  {
    assert forall k :: 0 < k < |a| ==> a[..k][0] == a[0];
    assert forall k :: 0 < k < |b| ==> b[..k][0] == b[0];
  }

  lemma {:induction false} LessBytesTotal(a: seq<Byte>, b: seq<Byte>)
    ensures LessBytes(a, b) || LessBytes(b, a) || a == b
    decreases |a|
  {
    if a != [] && b != [] && a[0] == b[0] {
      LessBytesTotal(a[1..], b[1..]);
      assert a[1..] == b[1..] ==> a == [a[0]] + a[1..] == b;
    }
  }

  lemma {:induction false} LessBytesTransitive(a: seq<Byte>, b: seq<Byte>, c: seq<Byte>)
    requires LessBytes(a, b) && LessBytes(b, c)
    ensures LessBytes(a, c)
    decreases |a|
  {
    if a != [] && a[0] == b[0] == c[0] {
      LessBytesTransitive(a[1..], b[1..], c[1..]);
    }
  }

  /** The value of a key: keys are the same if they are up to their first zero byte. */
  function Find(entries: seq<Entry>, key: seq<Byte>): Option<Object> {
    if entries == [] then None
    else if CString(entries[0].key) == CString(key) then Some(entries[0].value)
    else Find(entries[1..], key)
  }

  lemma {:induction false} FindNone(entries: seq<Entry>, key: seq<Byte>)
    requires forall i :: 0 <= i < |entries| ==> Less(key, entries[i].key)
    ensures Find(entries, key) == None
  {
    if entries != [] {
      if CString(entries[0].key) == CString(key) {
        LessBytesAsymmetric(CString(key), CString(entries[0].key));
      }
      FindNone(entries[1..], key);
    }
  }

  lemma FirstLess(entries: seq<Entry>, key: seq<Byte>)
    requires KeysIncrease(entries) && entries != [] && Less(key, entries[0].key)
    ensures forall i :: 0 <= i < |entries| ==> Less(key, entries[i].key)
  {
    forall i | 0 < i < |entries| ensures Less(key, entries[i].key) {
      LessBytesTransitive(CString(key), CString(entries[0].key), CString(entries[i].key));
    }
  }

  /** Adding a key sets its value and no other, and a key that was there stays as it was spelt. */
  lemma {:induction false} PutFinds(entries: seq<Entry>, key: seq<Byte>, value: Object, other: seq<Byte>)
    requires KeysIncrease(entries)
    ensures Find(Put(entries, key, value), other) ==
      if CString(other) == CString(key) then Some(value) else Find(entries, other)
    ensures |Put(entries, key, value)| == |entries| + if Find(entries, key) == None then 1 else 0
    ensures Find(entries, key) != None ==>
      forall i :: 0 <= i < |entries| ==> Put(entries, key, value)[i].key == entries[i].key
  {
    if entries != [] {
      var k, first := CString(key), CString(entries[0].key);
      if Less(key, entries[0].key) {
        FirstLess(entries, key);
        FindNone(entries, key);
      } else if Less(entries[0].key, key) {
        LessBytesAsymmetric(first, k);
        PutFinds(entries[1..], key, value, other);
      } else {
        LessBytesTotal(first, k);
      }
    }
  }

  lemma {:induction false} PutLast(entries: seq<Entry>, key: seq<Byte>, value: Object)
    requires forall i :: 0 <= i < |entries| ==> Less(entries[i].key, key)
    ensures Put(entries, key, value) == entries + [Entry(key, value)]
    decreases |entries|
  {
    if entries != [] {
      LessBytesAsymmetric(CString(entries[0].key), CString(key));
      PutLast(entries[1..], key, value);
    }
  }

  function KeySize(entries: seq<Entry>): nat {
    if entries == [] then 0 else |entries[0].key| + KeySize(entries[1..])
  }

  lemma {:induction false} PutKeySize(entries: seq<Entry>, key: seq<Byte>, value: Object)
    ensures KeySize(Put(entries, key, value)) <= KeySize(entries) + |key|
    decreases |entries|
  {
    hide Less;
    if entries == [] || Less(key, entries[0].key) {
      assert ([Entry(key, value)] + entries)[1..] == entries;
    } else if Less(entries[0].key, key) {
      PutKeySize(entries[1..], key, value);
      assert Put(entries, key, value)[1..] == Put(entries[1..], key, value);
    } else {
      assert ([Entry(entries[0].key, value)] + entries[1..])[1..] == entries[1..];
    }
  }

  /** No key grows on the way back, and one that is not ASCII shrinks. */
  lemma {:induction false} KeysShrink(entries: seq<Entry>, read: seq<Entry>)
    requires ReadbackEntries(entries, read).Some?
    ensures var back := ReadbackEntries(entries, read).value;
      && back.Dictionary?
      && KeySize(back.entries) <= KeySize(read) + KeySize(entries)
      && (KeySize(back.entries) == KeySize(read) + KeySize(entries) ==>
          forall i :: 0 <= i < |entries| ==> IsAscii(entries[i].key))
    decreases |entries|
  {
    hide StringFromBytes, Readback, Put, IsAscii;
    if entries != [] {
      var key := StringFromBytes(entries[0].key).value;
      var value := Readback(entries[0].value).value;
      StringReadbackExact(entries[0].key);
      PutKeySize(read, key, value);
      KeysShrink(entries[1..], Put(read, key, value));
    }
  }

  lemma {:induction false} ItemsBack(items: seq<Object>, read: seq<Object>)
    requires forall i :: 0 <= i < |items| ==> Sorted(items[i])
    ensures ReadbackItems(items, read).Some? ==>
      ReadbackItems(items, read).value.Array? && read <= ReadbackItems(items, read).value.items
    ensures ReadbackItems(items, read) == Some(Array(read + items)) <==>
      forall i :: 0 <= i < |items| ==> AllAscii(items[i])
    decreases items, 0
  {
    hide Readback, AllAscii, Sorted;
    if items == [] {
      assert read + items == read;
    } else {
      ReadbackExact(items[0]);
      match Readback(items[0])
      case None =>
      case Some(item) =>
        ItemsBack(items[1..], read + [item]);
        assert read + items == read + [items[0]] + items[1..];
        assert (read + items)[|read|] == items[0] && (read + [item])[|read|] == item;
    }
  }

  ghost predicate KeysIncrease(entries: seq<Entry>) {
    forall i, j :: 0 <= i < j < |entries| ==> Less(entries[i].key, entries[j].key)
  }

  lemma {:induction false} EntriesBack(entries: seq<Entry>, read: seq<Entry>)
    requires KeysIncrease(read + entries)
    requires forall i :: 0 <= i < |entries| ==> IsAscii(entries[i].key) && Sorted(entries[i].value)
    ensures ReadbackEntries(entries, read).Some? ==>
      ReadbackEntries(entries, read).value.Dictionary? && read <= ReadbackEntries(entries, read).value.entries
    ensures ReadbackEntries(entries, read) == Some(Dictionary(read + entries)) <==>
      forall i :: 0 <= i < |entries| ==> AllAscii(entries[i].value)
    decreases entries, 0
  {
    hide Readback, AllAscii, Sorted, Less, IsAscii, StringFromBytes;
    if entries == [] {
      assert read + entries == read;
    } else {
      var e := entries[0];
      StringReadbackExact(e.key);
      ReadbackExact(e.value);
      match Readback(e.value)
      case None =>
      case Some(value) =>
        var next := Entry(e.key, value);
        forall i | 0 <= i < |read| ensures Less(read[i].key, e.key) {
          assert (read + entries)[i] == read[i] && (read + entries)[|read|] == e;
        }
        PutLast(read, e.key, value);
        NextKeysIncrease(read, entries, value);
        EntriesBack(entries[1..], read + [next]);
        assert read + entries == read + [e] + entries[1..];
        assert (read + entries)[|read|] == e && (read + [next])[|read|] == next;
    }
  }

  lemma NextKeysIncrease(read: seq<Entry>, entries: seq<Entry>, value: Object)
    requires entries != [] && KeysIncrease(read + entries)
    ensures KeysIncrease(read + [Entry(entries[0].key, value)] + entries[1..])
  {
    hide Less;
    var old_ := read + entries;
    var new_ := read + [Entry(entries[0].key, value)] + entries[1..];
    assert forall i :: 0 <= i < |new_| ==> new_[i].key == old_[i].key;
  }

  lemma {:induction false} ReadbackExact(o: Object)
    requires Sorted(o)
    ensures Readback(o) == Some(o) <==> AllAscii(o)
    decreases o, 1
  {
    match o
    case String(c) => StringReadbackExact(c);
    case Array(items) =>
      ItemsBack(items, []);
      assert [] + items == items;
    case Dictionary(entries) =>
      assert [] + entries == entries;
      if Readback(o) == Some(o) {
        KeysShrink(entries, []);
      }
      if forall i :: 0 <= i < |entries| ==> IsAscii(entries[i].key) {
        EntriesBack(entries, []);
      }
    case _ =>
  }

  /** The round trip, with anything following: it holds exactly when every string is ASCII. */
  lemma RoundTrip(o: Object, rest: seq<Byte>)
    requires Fits(o) && Sorted(o)
    ensures Parse(Encode(o) + rest) == Ok(o, rest) <==> AllAscii(o)
  {
    hide Parse, Encode, Readback, AllAscii, Sorted, Fits;
    ParseEncoded(o, rest);
    ReadbackExact(o);
  }

  /** No printed form is a prefix of another, so objects printed one after another come apart again. */
  lemma PrefixFree(a: Object, b: Object, s: seq<Byte>, t: seq<Byte>)
    requires Fits(a) && Sorted(a) && AllAscii(a)
    requires Fits(b) && Sorted(b) && AllAscii(b)
    requires Encode(a) + s == Encode(b) + t
    ensures a == b && s == t
  {
    hide Parse, Encode, AllAscii, Sorted, Fits;
    RoundTrip(a, s);
    RoundTrip(b, t);
  }

  /** Serializing and then deserializing through a stream, for the object and whatever follows it. */
  method Through(o: Object, rest: seq<Byte>, littleWriter: bool, littleReader: bool)
    returns (r: Outcome, remaining: seq<Byte>)
    requires Fits(o) && Sorted(o)
    ensures AllAscii(o) ==> r == Done(o) && remaining == rest
  {
    hide Parse, Encode, AllAscii, Sorted, Fits;
    var stream := new MemoryStream([]);
    Serialize(stream, littleWriter, o);
    OverwriteTwice([], 0, Encode(o), rest);
    stream.Write(rest);
    assert stream.data == Encode(o) + rest;
    stream.position := 0;
    assert stream.Remaining() == Encode(o) + rest;
    r := Deserialize(stream, littleReader);
    RoundTrip(o, rest);
    remaining := stream.data[stream.position..];
  }
}
