/** The MIDI file reader: variable-length integers, running status, and moving between tracks. */
module MidiReaders {
  import opened Basics
  import opened Endian
  import opened Streams

  // ----- Variable-length integers -----

  datatype Number = Number(value: U32, rest: seq<Byte>)

  /**
   * Reads to the first byte below 0x80, shifting a 32-bit integer. Without such a byte there is no
   * result: the byte read at the end of the stream is -1, whose top bit is set.
   */
  function ReadNumber(b: seq<Byte>, sum: U32): Option<Number> {
    if b == [] then None else
      var next := Shifted(sum, b[0]);
      if b[0] < 0x80 then Some(Number(next, b[1..])) else ReadNumber(b[1..], next)
  }

  /** The bytes before the last, each with its top bit set. */
  function Leading(n: nat): seq<Byte> {
    if n == 0 then [] else Leading(n / 0x80) + [0x80 + n % 0x80]
  }

  /** The shortest form: seven bits a byte, the highest first. */
  function WriteNumber(n: nat): seq<Byte> {
    Leading(n / 0x80) + [n % 0x80]
  }

  function Shifted(sum: U32, b: Byte): U32 {
    (sum * 0x80 + b % 0x80) % 0x1_0000_0000
  }

  lemma ShiftedBack(n: U32)
    ensures Shifted(n / 0x80, 0x80 + n % 0x80) == n && Shifted(n / 0x80, n % 0x80) == n
  {
    var low := n % 0x80;
    assert (0x80 + low) % 0x80 == low;
    assert n / 0x80 * 0x80 + low == n;
  }

  lemma ReadFirst(b: Byte, sum: U32, rest: seq<Byte>)
    ensures ReadNumber([b] + rest, sum) ==
      if b < 0x80 then Some(Number(Shifted(sum, b), rest)) else ReadNumber(rest, Shifted(sum, b))
  {
    assert ([b] + rest)[1..] == rest;
  }

  lemma {:induction false} ReadLeading(n: U32, rest: seq<Byte>)
    ensures ReadNumber(Leading(n) + rest, 0) == ReadNumber(rest, n)
    decreases n
  {
    hide ReadNumber, Shifted;
    if n == 0 {
      assert Leading(0) + rest == rest;
    } else {
      ReadLeading(n / 0x80, [0x80 + n % 0x80] + rest);
      assert Leading(n) + rest == Leading(n / 0x80) + ([0x80 + n % 0x80] + rest);
      ReadFirst(0x80 + n % 0x80, n / 0x80, rest);
      ShiftedBack(n);
    }
  }

  /** Every 32-bit integer comes back; the standard uses those below 2^28. */
  lemma NumberReadBack(n: U32, rest: seq<Byte>)
    ensures ReadNumber(WriteNumber(n) + rest, 0) == Some(Number(n, rest))
  {
    hide ReadNumber, Leading, Shifted;
    ReadLeading(n / 0x80, [n % 0x80] + rest);
    assert WriteNumber(n) + rest == Leading(n / 0x80) + ([n % 0x80] + rest);
    ReadFirst(n % 0x80, n / 0x80, rest);
    ShiftedBack(n);
  }

  lemma {:induction false} LeadingSize(n: nat, k: nat, bound: nat)
    requires n < bound && bound == Power128(k)
    ensures |Leading(n)| <= k
  {
    if n > 0 {
      assert k > 0;
      LeadingSize(n / 0x80, k - 1, Power128(k - 1));
    }
  }

  function Power128(k: nat): nat {
    if k == 0 then 1 else 0x80 * Power128(k - 1)
  }

  /** The standard's numbers take one to four bytes. */
  lemma NumberSize(n: nat)
    requires n < 0x1000_0000
    ensures 1 <= |WriteNumber(n)| <= 4
  {
    assert Power128(3) == 0x20_0000;
    LeadingSize(n / 0x80, 3, 0x20_0000);
  }

  // ----- Events -----

  datatype Event =
    | Meta(delta: U32, kind: Byte, data: seq<Byte>)
    | Channel(delta: U32, kind: Byte, channel: Byte, parameter1: Byte, parameter2: Byte)

  /** What reading an event comes to: the event with the status byte to remember, or a failure. */
  datatype EventResult =
    | Read(event: Event, status: Byte, rest: seq<Byte>)
    | NeverEnds
    | EndOfStream
    | NotImplemented
    | InvalidOperation

  /** Program changes and channel aftertouch have one parameter. */
  predicate TwoParameters(kind: int) {
    kind != 0x0c && kind != 0x0d
  }

  function ReadMeta(delta: U32, previous: Byte, b: seq<Byte>): EventResult {
    if b == [] then EventResult.EndOfStream else
      match ReadNumber(b[1..], 0)
      case None => NeverEnds
      case Some(n) =>
        if n.value > |n.rest| then EventResult.EndOfStream
        else Read(Meta(delta, b[0], n.rest[..n.value]), previous, n.rest[n.value..])
  }

  function ReadSecond(delta: U32, status: Byte, parameter1: Byte, b: seq<Byte>): EventResult {
    if !TwoParameters(status / 0x10) then
      Read(Channel(delta, status / 0x10, status % 0x10, parameter1, 0), status, b)
    else if b == [] then EventResult.EndOfStream
    else Read(Channel(delta, status / 0x10, status % 0x10, parameter1, b[0]), status, b[1..])
  }

  function ReadIdentified(delta: U32, previous: Byte, b: seq<Byte>): EventResult {
    if b == [] then EventResult.EndOfStream
    else if b[0] == 0xff then ReadMeta(delta, previous, b[1..])
    else if b[0] == 0xf0 || b[0] == 0xf7 then NotImplemented
    else if b[0] < 0x80 then ReadSecond(delta, previous, b[0], b[1..])
    else if |b| == 1 then EventResult.EndOfStream
    else ReadSecond(delta, b[0], b[1], b[2..])
  }

  /** Reads one event, given the last status byte of a channel event. */
  function ReadOne(previous: Byte, b: seq<Byte>): EventResult {
    match ReadNumber(b, 0)
    case None => NeverEnds
    case Some(n) => ReadIdentified(n.value, previous, n.rest)
  }

  /** The events of the standard, system exclusive ones left out. */
  predicate WellFormed(e: Event) {
    if e.Meta? then |e.data| < 0x1_0000_0000
    else 8 <= e.kind <= 14 && e.channel < 0x10 && e.parameter1 < 0x80 && (TwoParameters(e.kind) || e.parameter2 == 0)
  }

  /** Which events are meant: all meta events, and those of status bytes 0x80 to 0xEF with data bytes below 0x80. */
  lemma WellFormedEvents(delta: U32, kind: Byte, channel: Byte, first: Byte, second: Byte, data: seq<Byte>)
    ensures |data| < 0x1_0000_0000 ==> WellFormed(Meta(delta, kind, data))
    ensures channel < 0x10 && first < 0x80 && kind in {8, 9, 10, 11, 14} ==>
      WellFormed(Channel(delta, kind, channel, first, second))
    ensures channel < 0x10 && first < 0x80 && kind in {12, 13} ==> WellFormed(Channel(delta, kind, channel, first, 0))
  {}

  function Status(e: Event): Byte
    requires WellFormed(e) && e.Channel?
  {
    (e.kind as int) * 0x10 + (e.channel as int)
  }

  /** A writer may omit the status byte if it is that of the last channel event. */
  function WriteStatus(previous: Byte, e: Event, omit: bool): seq<Byte>
    requires WellFormed(e) && e.Channel?
  {
    if omit && previous == Status(e) then [] else [Status(e)]
  }

  function WriteSecond(e: Event): seq<Byte>
    requires e.Channel?
  {
    if TwoParameters(e.kind) then [e.parameter2] else []
  }

  function WriteBody(previous: Byte, e: Event, omit: bool): seq<Byte>
    requires WellFormed(e)
  {
    if e.Meta? then [0xff, e.kind] + WriteNumber(|e.data|) + e.data
    else WriteStatus(previous, e, omit) + [e.parameter1] + WriteSecond(e)
  }

  function WriteOne(previous: Byte, e: Event, omit: bool): seq<Byte>
    requires WellFormed(e)
  {
    WriteNumber(e.delta) + WriteBody(previous, e, omit)
  }

  /** Under running status there is no status byte; without it there is that of kind and channel. */
  lemma StatusBytes(e: Event, previous: Byte)
    requires WellFormed(e) && e.Channel?
    ensures Status(e) == 0x10 * (e.kind as int) + (e.channel as int)
    ensures WriteStatus(Status(e), e, true) == []
    ensures previous != Status(e) ==> WriteStatus(previous, e, true) == [Status(e)]
    ensures WriteStatus(previous, e, false) == [Status(e)]
  {}

  function Remembered(previous: Byte, e: Event): Byte
    requires WellFormed(e)
  {
    if e.Meta? then previous else Status(e)
  }

  lemma MetaReadBack(previous: Byte, e: Event, rest: seq<Byte>)
    requires WellFormed(e) && e.Meta?
    ensures ReadIdentified(e.delta, previous, [0xff, e.kind] + WriteNumber(|e.data|) + e.data + rest)
      == Read(e, previous, rest)
  {
    var b := [0xff, e.kind] + WriteNumber(|e.data|) + e.data + rest;
    assert b[1..] == [e.kind] + (WriteNumber(|e.data|) + (e.data + rest));
    assert b[1..][1..] == WriteNumber(|e.data|) + (e.data + rest);
    NumberReadBack(|e.data|, e.data + rest);
    assert (e.data + rest)[..|e.data|] == e.data && (e.data + rest)[|e.data|..] == rest;
  }

  lemma ChannelReadBack(previous: Byte, e: Event, omit: bool, rest: seq<Byte>)
    requires WellFormed(e) && e.Channel?
    ensures ReadIdentified(e.delta, previous, WriteStatus(previous, e, omit) + [e.parameter1] + WriteSecond(e) + rest)
      == Read(e, Status(e), rest)
  {
    var status, second := WriteStatus(previous, e, omit), WriteSecond(e);
    var b := status + [e.parameter1] + second + rest;
    assert Status(e) / 0x10 == e.kind && Status(e) % 0x10 == e.channel;
    assert b[|status| + 1..] == second + rest;
    assert second != [] ==> (second + rest)[1..] == rest;
    assert second == [] ==> second + rest == rest;
  }

  /** An event comes back, its status byte written or omitted. */
  lemma EventReadBack(previous: Byte, e: Event, omit: bool, rest: seq<Byte>)
    requires WellFormed(e)
    ensures ReadOne(previous, WriteOne(previous, e, omit) + rest) == Read(e, Remembered(previous, e), rest)
  {
    hide ReadNumber, ReadIdentified, WriteNumber;
    var body := WriteBody(previous, e, omit);
    assert WriteOne(previous, e, omit) + rest == WriteNumber(e.delta) + (body + rest);
    NumberReadBack(e.delta, body + rest);
    if e.Meta? {
      MetaReadBack(previous, e, rest);
    } else {
      ChannelReadBack(previous, e, omit, rest);
    }
  }

  // ----- Events byte by byte -----

  lemma Shifting(sum: U32, x: Byte)
    requires x < 0x80 && 0x80 * sum + x < 0x1_0000_0000
    ensures Shifted(sum, 0x80 + x) == Shifted(sum, x) == 0x80 * sum + x
  {
    assert (0x80 + x) % 0x80 == x;
  }

  lemma ReadMore(sum: U32, x: Byte, rest: seq<Byte>)
    requires x < 0x80 && 0x80 * sum + x < 0x1_0000_0000
    ensures ReadNumber([0x80 + x] + rest, sum) == ReadNumber(rest, 0x80 * sum + x)
    ensures ReadNumber([x] + rest, sum) == Some(Number(0x80 * sum + x, rest))
  {
    hide ReadNumber, Shifted;
    Shifting(sum, x);
    ReadFirst(0x80 + x, sum, rest);
    ReadFirst(x, sum, rest);
  }

  /** The numbers of one to four bytes, digit by digit to base 128. */
  lemma NumberDigits(x: Byte, y: Byte, z: Byte, w: Byte, rest: seq<Byte>)
    requires x < 0x80 && y < 0x80 && z < 0x80 && w < 0x80
    ensures ReadNumber([w] + rest, 0) == Some(Number(w, rest))
    ensures ReadNumber([0x80 + z, w] + rest, 0) == Some(Number(0x80 * z + w, rest))
    ensures ReadNumber([0x80 + y, 0x80 + z, w] + rest, 0) == Some(Number(0x4000 * y + 0x80 * z + w, rest))
    ensures ReadNumber([0x80 + x, 0x80 + y, 0x80 + z, w] + rest, 0)
      == Some(Number(0x20_0000 * x + 0x4000 * y + 0x80 * z + w, rest))
  {
    hide ReadNumber;
    var one, two, three := [w] + rest, [0x80 + z, w] + rest, [0x80 + y, 0x80 + z, w] + rest;
    assert two == [0x80 + z] + one && three == [0x80 + y] + two;
    assert [0x80 + x, 0x80 + y, 0x80 + z, w] + rest == [0x80 + x] + three;
    ReadMore(0, w, rest);
    ReadMore(0, z, one);
    ReadMore(z, w, rest);
    ReadMore(0, y, two);
    ReadMore(y, z, one);
    ReadMore(0x80 * y + z, w, rest);
    ReadMore(0, x, three);
    ReadMore(x, y, two);
    ReadMore(0x80 * x + y, z, one);
    ReadMore(0x4000 * x + 0x80 * y + z, w, rest);
  }

  lemma AfterDelta(delta: Byte, previous: Byte, body: seq<Byte>)
    requires delta < 0x80
    ensures ReadOne(previous, [delta] + body) == ReadIdentified(delta, previous, body)
  {
    hide ReadNumber, ReadIdentified;
    ReadMore(0, delta, body);
  }

  /** Program changes and channel aftertouch have one parameter, after a status byte and under running status. */
  lemma OneParameterEvent(delta: Byte, previous: Byte, status: Byte, parameter: Byte, rest: seq<Byte>)
    requires delta < 0x80 && 0xc0 <= status <= 0xdf
    ensures var e := Channel(delta, status / 0x10, status % 0x10, parameter, 0);
      && ReadOne(previous, [delta, status, parameter] + rest) == Read(e, status, rest)
      && (parameter < 0x80 ==> ReadOne(status, [delta, parameter] + rest) == Read(e, status, rest))
  {
    hide ReadNumber, ReadOne;
    AfterDelta(delta, previous, [status, parameter] + rest);
    AfterDelta(delta, status, [parameter] + rest);
    assert [delta, status, parameter] + rest == [delta] + ([status, parameter] + rest);
    assert [delta, parameter] + rest == [delta] + ([parameter] + rest);
    assert ([status, parameter] + rest)[2..] == rest && ([parameter] + rest)[1..] == rest;
  }

  /** The other channel events have two. */
  lemma TwoParameterEvent(delta: Byte, previous: Byte, status: Byte, first: Byte, second: Byte, rest: seq<Byte>)
    requires delta < 0x80 && (0x80 <= status <= 0xbf || 0xe0 <= status <= 0xef)
    ensures var e := Channel(delta, status / 0x10, status % 0x10, first, second);
      && ReadOne(previous, [delta, status, first, second] + rest) == Read(e, status, rest)
      && (first < 0x80 ==> ReadOne(status, [delta, first, second] + rest) == Read(e, status, rest))
  {
    hide ReadNumber, ReadOne;
    var after := [second] + rest;
    AfterDelta(delta, previous, [status, first] + after);
    AfterDelta(delta, status, [first] + after);
    assert [delta, status, first, second] + rest == [delta] + ([status, first] + after);
    assert [delta, first, second] + rest == [delta] + ([first] + after);
    assert ([status, first] + after)[2..] == after && ([first] + after)[1..] == after && after[1..] == rest;
  }

  /** A meta event has a kind, a length and as many bytes, and leaves the running status alone. */
  lemma MetaEvent(delta: Byte, previous: Byte, kind: Byte, data: seq<Byte>, rest: seq<Byte>)
    requires delta < 0x80 && |data| < 0x80
    ensures ReadOne(previous, [delta, 0xff, kind, |data|] + data + rest)
      == Read(Meta(delta, kind, data), previous, rest)
  {
    hide ReadNumber, ReadOne;
    var after := data + rest;
    var body := [kind, |data|] + after;
    AfterDelta(delta, previous, [0xff] + body);
    ReadMore(0, |data|, after);
    assert [delta, 0xff, kind, |data|] + data + rest == [delta] + ([0xff] + body);
    assert ([0xff] + body)[1..] == body && body[1..] == [|data|] + after;
    assert after[..|data|] == data && after[|data|..] == rest;
  }

  /** System exclusive events are refused, and numbers and events that are cut short fail. */
  lemma RefusedEvents(delta: Byte, previous: Byte, rest: seq<Byte>)
    requires delta < 0x80
    ensures ReadOne(previous, [delta, 0xf0] + rest) == ReadOne(previous, [delta, 0xf7] + rest) == NotImplemented
    ensures ReadOne(previous, [delta]) == EventResult.EndOfStream && ReadOne(previous, [0x80 + delta]) == NeverEnds
  {
    AfterDelta(delta, previous, [0xf0] + rest);
    AfterDelta(delta, previous, [0xf7] + rest);
    AfterDelta(delta, previous, []);
    ReadFirst(0x80 + delta, 0, []);
    assert [0x80 + delta] + [] == [0x80 + delta];
    assert [delta, 0xf0] + rest == [delta] + ([0xf0] + rest) && [delta, 0xf7] + rest == [delta] + ([0xf7] + rest);
    assert [delta] + [] == [delta];
  }

  // ----- Tracks of events -----

  datatype Written = Written(event: Event, omit: bool)

  ghost predicate AllWellFormed(ws: seq<Written>) {
    forall i :: 0 <= i < |ws| ==> WellFormed(ws[i].event)
  }

  ghost function WriteEvents(previous: Byte, ws: seq<Written>): seq<Byte>
    requires AllWellFormed(ws)
    decreases |ws|
  {
    if ws == [] then [] else
      WriteOne(previous, ws[0].event, ws[0].omit) + WriteEvents(Remembered(previous, ws[0].event), ws[1..])
  }

  function EventsOf(ws: seq<Written>): seq<Event> {
    if ws == [] then [] else [ws[0].event] + EventsOf(ws[1..])
  }

  // ----- Places of tracks -----

  datatype Error = Format | Truncated | InvalidArgument

  /** Where the data of a track begins, and its size; or why there is no such track. */
  datatype Place = Track(position: nat, size: U32) | Bad(error: Error)

  function Rest(data: seq<Byte>, position: nat): seq<Byte> {
    if position <= |data| then data[position..] else []
  }

  const TRACK_MAGIC: U32 := 0x4d54_726b

  /** Where the first track is, behind the header. */
  const FIRST_TRACK: nat := 14

  function TrackAt(data: seq<Byte>, position: nat): (p: Place)
    ensures p.Bad? ==> p.error == Format || p.error == Truncated
  {
    var b := Rest(data, position);
    if |b| < 4 then Bad(Truncated)
    else if Load(false, b[..4]) != TRACK_MAGIC then Bad(Format)
    else if |b| < 8 then Bad(Truncated)
    else Track(position + 8, Load(false, b[4..][..4]))
  }

  /** Tracks follow one another. */
  function TrackPlace(data: seq<Byte>, index: nat): Place {
    if index == 0 then TrackAt(data, FIRST_TRACK) else
      match TrackPlace(data, index - 1)
      case Track(position, size) => TrackAt(data, position + size)
      case Bad(e) => Bad(e)
  }

  lemma {:induction false} BadStays(data: seq<Byte>, i: nat, j: nat)
    requires i <= j && TrackPlace(data, i).Bad?
    ensures TrackPlace(data, j) == TrackPlace(data, i)
    decreases j
  {
    if i < j {
      BadStays(data, i, j - 1);
    }
  }

  lemma FirstPlace(data: seq<Byte>)
    ensures TrackPlace(data, 0) == TrackAt(data, FIRST_TRACK)
  {}

  /** A track header is "MTrk" and a big-endian size; the first comes behind fourteen bytes. */
  lemma TrackHeaderBytes(before: seq<Byte>, size: Byte, behind: seq<Byte>)
    ensures TrackAt(before + [0x4d, 0x54, 0x72, 0x6b, 0, 0, 0, size] + behind, |before|) == Track(|before| + 8, size)
    ensures |before| == 14 ==>
      TrackPlace(before + [0x4d, 0x54, 0x72, 0x6b, 0, 0, 0, size] + behind, 0) == Track(22, size)
  {
    var data := before + [0x4d, 0x54, 0x72, 0x6b, 0, 0, 0, size] + behind;
    assert data[|before|..] == [0x4d, 0x54, 0x72, 0x6b, 0, 0, 0, size] + behind;
    assert Rest(data, |before|)[..4] == [0x4d, 0x54, 0x72, 0x6b];
    assert Rest(data, |before|)[4..][..4] == [0, 0, 0, size];
  }

  /** Looking behind the last track found gives the next track, or the failure already met. */
  lemma NextPlace(data: seq<Byte>, last: nat, index: nat, position: nat, size: U32)
    requires TrackPlace(data, last) == Track(position, size)
    requires last <= index && (last < index ==> TrackPlace(data, last + 1).Bad?)
    ensures TrackPlace(data, index + 1) == TrackAt(data, position + size) == TrackPlace(data, last + 1)
  {
    hide TrackAt;
    if last < index {
      BadStays(data, last + 1, index + 1);
    }
  }

  // ----- The reader -----

  /** A seekable stream; positions past the end are allowed, and nothing is read from there. */
  class FileStream {
    const data: seq<Byte>
    var position: nat

    constructor (data: seq<Byte>)
      ensures this.data == data && position == 0
    {
      this.data := data;
      position := 0;
    }

    method SetPosition(p: nat)
      modifies this
      ensures position == p
    {
      position := p;
    }

    /** The bytes, if there are enough of them. */
    method ReadBytes(size: nat) returns (bytes: Option<seq<Byte>>)
      modifies this
      ensures old(position) <= |data| ==> position <= |data|
      ensures var rest := Rest(data, old(position));
        if size <= |rest| then
          bytes == Some(rest[..size]) && position == old(position) + size && Rest(data, position) == rest[size..]
        else bytes == None
    {
      var available := if position <= |data| then |data| - position else 0;
      if size > available {
        position := position + available;
        return None;
      }
      if size == 0 && position > |data| {
        return Some([]);
      }
      ghost var rest := Rest(data, position);
      assert rest[..size] == data[position..position + size] && rest[size..] == data[position + size..];
      bytes := Some(data[position..position + size]);
      position := position + size;
    }

    method ReadByte() returns (b: Option<Byte>)
      modifies this
      ensures old(position) <= |data| ==> position <= |data|
      ensures var rest := Rest(data, old(position));
        if rest != [] then b == Some(rest[0]) && position == old(position) + 1 && Rest(data, position) == rest[1..]
        else b == None
    {
      var bytes := ReadBytes(1);
      b := if bytes == None then None else Some(bytes.value[0]);
    }

    method ReadInt16() returns (n: Option<nat>)
      modifies this
      ensures old(position) <= |data| ==> position <= |data|
      ensures n.Some? ==> n.value < 0x1_0000
      ensures var rest := Rest(data, old(position));
        if 2 <= |rest| then n == Some((rest[0] as int) * 0x100 + (rest[1] as int)) && position == old(position) + 2
        else n == None
    {
      var bytes := ReadBytes(2);
      n := if bytes == None then None else Some((bytes.value[0] as int) * 0x100 + (bytes.value[1] as int));
    }

    method ReadInt32(littleMachine: bool) returns (n: Option<U32>)
      modifies this
      ensures old(position) <= |data| ==> position <= |data|
      ensures var rest := Rest(data, old(position));
        if 4 <= |rest| then
          n == Some(Load(false, rest[..4])) && position == old(position) + 4 && Rest(data, position) == rest[4..]
        else n == None
    {
      var bytes := ReadBytes(4);
      if bytes == None {
        return None;
      }
      BigEndianLoad(littleMachine, bytes.value);
      n := Some(ReadBE32(littleMachine, bytes.value));
    }

    /** The loop over the bytes of an integer; None is where it would not end. */
    method ReadInteger() returns (n: Option<U32>)
      modifies this
      ensures old(position) <= |data| ==> position <= |data|
      ensures match ReadNumber(Rest(data, old(position)), 0)
        case None => n == None
        case Some(number) => n == Some(number.value) && Rest(data, position) == number.rest && position > old(position)
    {
      var sum: U32 := 0;
      var more := true;
      while more
        invariant position >= old(position) && (old(position) <= |data| ==> position <= |data|)
        invariant more ==> ReadNumber(Rest(data, old(position)), 0) == ReadNumber(Rest(data, position), sum)
        invariant !more ==> ReadNumber(Rest(data, old(position)), 0) == Some(Number(sum, Rest(data, position)))
        invariant !more ==> position > old(position)
        decreases more, |Rest(data, position)|
      {
        var b := ReadByte();
        if b == None {
          return None;
        }
        sum := Shifted(sum, b.value);
        more := b.value >= 0x80;
      }
      n := Some(sum);
    }
  }

  datatype Outcome = Done | Failed(error: Error)

  type U16 = x: int | 0 <= x < 0x1_0000

  /** How delta times are to be understood: frames of a second, divided further, or parts of a beat. */
  datatype Division =
    | FramesPerSecond(framesPerSecond: nat, ticksPerFrame: nat)
    | TicksPerBeat(ticksPerBeat: nat)

  function DivisionOf(division: U16): Division {
    if division >= 0x8000 then FramesPerSecond(division / 0x100 % 0x80, division % 0x100)
    else TicksPerBeat(division)
  }

  /** The field that each kind of division is written to. */
  function DivisionField(d: Division): nat {
    if d.FramesPerSecond? then 0x8000 + d.framesPerSecond * 0x100 + d.ticksPerFrame else d.ticksPerBeat
  }

  lemma DivisionBack(division: U16)
    ensures division < 0x8000 ==> DivisionOf(division) == TicksPerBeat(division)
    ensures division >= 0x8000 ==>
      var d := DivisionOf(division); d.FramesPerSecond? && d.framesPerSecond < 0x80 && d.ticksPerFrame < 0x100
    ensures DivisionField(DivisionOf(division)) == division
  {}

  class MidiReader {
    const stream: FileStream
    const littleMachine: bool
    const midiType: U16
    const division: Division
    const trackCount: U16
    var trackIndex: U16
    var trackSize: U32
    var trackPosition: nat
    var previousIdentifier: Byte

    constructor Make(stream: FileStream, littleMachine: bool, midiType: U16, trackCount: U16, division: U16)
      ensures this.stream == stream && this.trackCount == trackCount && trackIndex == 0
      ensures this.midiType == midiType && this.division == DivisionOf(division)
    {
      this.stream, this.littleMachine, this.trackCount := stream, littleMachine, trackCount;
      this.midiType, this.division := midiType, DivisionOf(division);
      trackIndex, trackSize, trackPosition, previousIdentifier := 0, 0, 0, 0;
    }

    /** At the beginning of a track that is where it should be. */
    ghost predicate AtStart(index: nat)
      reads this, stream
    {
      && trackIndex == index && TrackPlace(stream.data, index) == Track(trackPosition, trackSize)
      && stream.position == trackPosition && previousIdentifier == 0
    }

    /** The last track found, which is the current one unless the next could not be read. */
    ghost predicate Located(last: nat)
      reads this
    {
      && last <= trackIndex && TrackPlace(stream.data, last) == Track(trackPosition, trackSize)
      && (last < trackIndex ==> TrackPlace(stream.data, last + 1).Bad?)
    }

    ghost predicate Valid()
      reads this
    {
      trackIndex < trackCount ==> exists last :: Located(last)
    }

    method EndOfFile() returns (end: bool)
      ensures end <==> trackIndex >= trackCount
    {
      end := trackIndex >= trackCount;
    }

    method EndOfTrack() returns (end: bool)
      ensures end <==> stream.position >= trackPosition + trackSize
    {
      end := stream.position >= trackPosition + trackSize;
    }

    method ReadTrack() returns (r: Outcome)
      modifies this`trackSize, this`trackPosition, this`previousIdentifier, stream
      ensures match TrackAt(stream.data, old(stream.position))
        case Track(p, n) =>
          r == Done && trackPosition == p == stream.position && trackSize == n && previousIdentifier == 0
        case Bad(e) => r == Failed(e) && trackPosition == old(trackPosition) && trackSize == old(trackSize)
    {
      var magic := stream.ReadInt32(littleMachine);
      if magic == None {
        return Failed(Truncated);
      }
      if magic.value != TRACK_MAGIC {
        return Failed(Format);
      }
      var size := stream.ReadInt32(littleMachine);
      if size == None {
        return Failed(Truncated);
      }
      trackSize := size.value;
      trackPosition := stream.position;
      previousIdentifier := 0;
      r := Done;
    }

    /**
     * Wherever in the current track the stream is, and even after a failure: the next track, or the
     * failure that a reader coming from the first track meets. The index is a 16-bit counter: a reader
     * taken beyond the end of the file so often that it wraps goes on from where the stream is.
     */
    method NextTrack() returns (r: Outcome)
      requires Valid()
      modifies this, stream
      ensures trackIndex == (old(trackIndex) + 1) % 0x1_0000
      ensures trackIndex < trackCount ==>
        match TrackAt(stream.data, old(trackPosition) + old(trackSize))
        case Track(p, n) =>
          r == Done && trackPosition == p == stream.position && trackSize == n && previousIdentifier == 0
        case Bad(e) => r == Failed(e) && trackPosition == old(trackPosition) && trackSize == old(trackSize)
      ensures trackIndex >= trackCount ==>
        r == Done && stream.position == old(stream.position) == trackPosition && trackSize == 0
      ensures old(trackIndex) < 0xffff ==> Valid()
      ensures old(trackIndex) < 0xffff && trackIndex < trackCount ==>
        match TrackPlace(stream.data, trackIndex)
        case Track(_, _) => r == Done && AtStart(trackIndex)
        case Bad(e) => r == Failed(e)
    {
      hide TrackAt, TrackPlace;
      ghost var known := trackIndex < trackCount;
      ghost var last := if known then (var l: nat :| Located(l); l) else 0;
      if known {
        NextPlace(stream.data, last, trackIndex, trackPosition, trackSize);
      }
      trackIndex := (trackIndex + 1) % 0x1_0000;
      var end := EndOfFile();
      if end {
        trackSize := 0;
        trackPosition := stream.position;
        r := Done;
      } else {
        stream.SetPosition(trackPosition + trackSize);
        r := ReadTrack();
        assert known && trackIndex > 0 ==> Located(if r.Done? then trackIndex else last);
      }
    }

    /**
     * Afterwards the reader is as a new one is after that many steps to the next track. Seeking back starts
     * over, so even a reader whose index has wrapped around gets there.
     */
    method SeekTrack(index: U32) returns (r: Outcome)
      requires (Valid() || index <= trackIndex) && TrackPlace(stream.data, 0).Track?
      modifies this, stream
      ensures index < trackCount || old(Valid()) ==> Valid()
      ensures index >= trackCount ==> r == Failed(InvalidArgument) && unchanged(this, stream)
      ensures index < trackCount ==>
        match TrackPlace(stream.data, index)
        case Track(_, _) => r == Done && AtStart(index)
        case Bad(e) => r == Failed(e)
    {
      hide TrackAt, TrackPlace;
      FirstPlace(stream.data);
      if index >= trackCount {
        return Failed(InvalidArgument);
      }
      r := Done;
      if index <= trackIndex {
        stream.SetPosition(FIRST_TRACK);
        trackIndex := 0;
        r := ReadTrack();
        assert Located(0);
      }
      while trackIndex < index
        invariant Valid() && trackIndex <= index && r == Done
        invariant trackIndex == index ==> AtStart(index)
        decreases index - trackIndex
      {
        r := NextTrack();
        if r.Failed? {
          BadStays(stream.data, trackIndex, index);
          return;
        }
      }
    }

    method ReadEvent() returns (r: EventResult)
      modifies this`previousIdentifier, stream
      ensures old(stream.position) <= |stream.data| ==> stream.position <= |stream.data|
      ensures old(stream.position) >= trackPosition + trackSize ==> r == InvalidOperation && unchanged(this, stream)
      ensures old(stream.position) < trackPosition + trackSize ==>
        match ReadOne(old(previousIdentifier), Rest(stream.data, old(stream.position)))
        case Read(e, status, rest) =>
          r == Read(e, status, rest) && previousIdentifier == status && Rest(stream.data, stream.position) == rest
        case other => r == other
    {
      var end := EndOfTrack();
      if end {
        return InvalidOperation;
      }
      var delta := stream.ReadInteger();
      if delta == None {
        return NeverEnds;
      }
      var identifier := stream.ReadByte();
      if identifier == None {
        return EventResult.EndOfStream;
      }
      if identifier.value == 0xff {
        r := ReadMetaEvent(delta.value);
      } else if identifier.value == 0xf0 || identifier.value == 0xf7 {
        r := NotImplemented;
      } else {
        r := ReadChannelEvent(delta.value, identifier.value);
      }
    }

    method ReadMetaEvent(delta: U32) returns (r: EventResult)
      modifies stream
      ensures old(stream.position) <= |stream.data| ==> stream.position <= |stream.data|
      ensures r == ReadMeta(delta, previousIdentifier, Rest(stream.data, old(stream.position)))
      ensures r.Read? ==> Rest(stream.data, stream.position) == r.rest
    {
      var kind := stream.ReadByte();
      if kind == None {
        return EventResult.EndOfStream;
      }
      var length := stream.ReadInteger();
      if length == None {
        return NeverEnds;
      }
      var bytes := stream.ReadBytes(length.value);
      if bytes == None {
        return EventResult.EndOfStream;
      }
      r := Read(Meta(delta, kind.value, bytes.value), previousIdentifier, Rest(stream.data, stream.position));
    }

    method ReadChannelEvent(delta: U32, identifier: Byte) returns (r: EventResult)
      modifies this`previousIdentifier, stream
      ensures old(stream.position) <= |stream.data| ==> stream.position <= |stream.data|
      ensures var b := Rest(stream.data, old(stream.position));
        if identifier < 0x80 then r == ReadSecond(delta, old(previousIdentifier), identifier, b)
        else if b == [] then r == EventResult.EndOfStream
        else r == ReadSecond(delta, identifier, b[0], b[1..])
      ensures r.Read? ==> Rest(stream.data, stream.position) == r.rest && previousIdentifier == r.status
    {
      var status, parameter1 := previousIdentifier, identifier;
      if identifier >= 0x80 {
        previousIdentifier := identifier;
        status := identifier;
        var first := stream.ReadByte();
        if first == None {
          return EventResult.EndOfStream;
        }
        parameter1 := first.value;
      }
      var parameter2: Byte := 0;
      if TwoParameters(status / 0x10) {
        var second := stream.ReadByte();
        if second == None {
          return EventResult.EndOfStream;
        }
        parameter2 := second.value;
      }
      r := Read(Channel(delta, status / 0x10, status % 0x10, parameter1, parameter2), status,
        Rest(stream.data, stream.position));
    }

    /** The loop over a track: exactly the events written to it, and no further. */
    method ReadEvents(ghost ws: seq<Written>, ghost behind: seq<Byte>) returns (events: seq<Event>)
      requires AllWellFormed(ws) && stream.position <= |stream.data|
      requires Rest(stream.data, stream.position) == WriteEvents(previousIdentifier, ws) + behind
      requires trackPosition + trackSize == stream.position + |WriteEvents(previousIdentifier, ws)|
      modifies this`previousIdentifier, stream
      ensures events == EventsOf(ws)
      ensures stream.position == trackPosition + trackSize && Rest(stream.data, stream.position) == behind
    {
      hide ReadOne, WriteOne, Rest, Remembered;
      events := [];
      ghost var left := ws;
      WriteEventsSize(previousIdentifier, ws);
      var end := EndOfTrack();
      while !end
        invariant AllWellFormed(left) && stream.position <= |stream.data|
        invariant Rest(stream.data, stream.position) == WriteEvents(previousIdentifier, left) + behind
        invariant trackPosition + trackSize == stream.position + |WriteEvents(previousIdentifier, left)|
        invariant events + EventsOf(left) == EventsOf(ws)
        invariant end <==> left == []
        decreases |left|
      {
        ghost var w, rest, here := left[0], Rest(stream.data, stream.position), stream.position;
        WriteOneSize(previousIdentifier, w);
        FirstReadBack(previousIdentifier, left, behind);
        var r := ReadEvent();
        RestSize(stream.data, here);
        RestSize(stream.data, stream.position);
        events := events + [r.event];
        left := left[1..];
        WriteEventsSize(previousIdentifier, left);
        end := EndOfTrack();
      }
    }
  }

  lemma RestSize(data: seq<Byte>, position: nat)
    requires position <= |data|
    ensures |Rest(data, position)| == |data| - position
  {}

  lemma WriteOneSize(previous: Byte, w: Written)
    requires WellFormed(w.event)
    ensures |WriteOne(previous, w.event, w.omit)| > 0
  {}

  lemma WriteEventsSize(previous: Byte, ws: seq<Written>)
    requires AllWellFormed(ws)
    ensures |WriteEvents(previous, ws)| == 0 <==> ws == []
  {
    if ws != [] {
      WriteOneSize(previous, ws[0]);
    }
  }

  lemma FirstReadBack(previous: Byte, ws: seq<Written>, behind: seq<Byte>)
    requires AllWellFormed(ws) && ws != []
    ensures var after := Remembered(previous, ws[0].event); var rest := WriteEvents(after, ws[1..]) + behind;
      ReadOne(previous, WriteEvents(previous, ws) + behind) == Read(ws[0].event, after, rest)
  {
    var w := ws[0];
    var rest := WriteEvents(Remembered(previous, w.event), ws[1..]) + behind;
    assert WriteEvents(previous, ws) + behind == WriteOne(previous, w.event, w.omit) + rest;
    EventReadBack(previous, w.event, w.omit, rest);
  }

  // ----- Files of tracks -----

  ghost predicate Writable(tracks: seq<seq<Written>>) {
    forall i :: 0 <= i < |tracks| ==> AllWellFormed(tracks[i]) && |WriteEvents(0, tracks[i])| < 0x1_0000_0000
  }

  ghost function WriteTracks(tracks: seq<seq<Written>>): seq<Byte>
    requires Writable(tracks)
  {
    if tracks == [] then [] else
      var body := WriteEvents(0, tracks[0]);
      Store(false, TRACK_MAGIC) + Store(false, |body|) + body + WriteTracks(tracks[1..])
  }

  lemma TrackHeader(data: seq<Byte>, position: nat, size: U32, behind: seq<Byte>)
    requires position <= |data| && data[position..] == Store(false, TRACK_MAGIC) + Store(false, size) + behind
    ensures TrackAt(data, position) == Track(position + 8, size)
    ensures Rest(data, position + 8) == behind
  {
    hide Store, Load;
    var b := data[position..];
    assert b[..4] == Store(false, TRACK_MAGIC) && b[4..][..4] == Store(false, size) && b[8..] == behind;
    StoreLoad(TRACK_MAGIC);
    StoreLoad(size);
    assert data[position + 8..] == b[8..];
  }

  lemma StoreLoad(v: U32)
    ensures Load(false, Store(false, v)) == v
  {
    BigEndianEverywhere(false, v);
  }

  lemma FirstWritten(tracks: seq<seq<Written>>)
    requires Writable(tracks) && tracks != []
    ensures var body := WriteEvents(0, tracks[0]);
      WriteTracks(tracks) == Store(false, TRACK_MAGIC) + Store(false, |body|) + body + WriteTracks(tracks[1..])
  {}

  /** A track where the next is to be found. */
  lemma TrackThere(data: seq<Byte>, start: nat, tracks: seq<seq<Written>>, behind: seq<Byte>)
    requires Writable(tracks) && tracks != [] && start <= |data| && data[start..] == WriteTracks(tracks) + behind
    ensures var body, after := WriteEvents(0, tracks[0]), WriteTracks(tracks[1..]) + behind;
      && TrackAt(data, start) == Track(start + 8, |body|) && Rest(data, start + 8) == body + after
      && start + 8 + |body| <= |data| && data[start + 8 + |body|..] == after
  {
    hide WriteEvents, TrackAt, Store, WriteTracks, Rest;
    FirstWritten(tracks);
    var body, after := WriteEvents(0, tracks[0]), WriteTracks(tracks[1..]) + behind;
    assert data[start..] == Store(false, TRACK_MAGIC) + Store(false, |body|) + (body + after);
    TrackHeader(data, start, |body|, body + after);
    Behind(data, start + 8, body, after);
  }

  lemma Behind(data: seq<Byte>, position: nat, body: seq<Byte>, after: seq<Byte>)
    requires position <= |data| && Rest(data, position) == body + after
    ensures position + |body| <= |data| && data[position + |body|..] == after
  {
    RestSize(data, position);
    assert data[position + |body|..] == data[position..][|body|..];
  }

  /** Each track is found, with its events from there on, and the other tracks behind it. */
  lemma {:induction false} TracksFound(data: seq<Byte>, tracks: seq<seq<Written>>, behind: seq<Byte>, i: nat)
    requires Writable(tracks) && i < |tracks|
    requires |data| >= FIRST_TRACK && data[FIRST_TRACK..] == WriteTracks(tracks) + behind
    ensures TrackPlace(data, i).Track?
    ensures var Track(position, size) := TrackPlace(data, i); var after := WriteTracks(tracks[i + 1..]) + behind;
      && size == |WriteEvents(0, tracks[i])| && Rest(data, position) == WriteEvents(0, tracks[i]) + after
      && position + size <= |data| && data[position + size..] == after
  {
    hide WriteEvents, TrackAt, Rest, WriteTracks;
    if i == 0 {
      TrackThere(data, FIRST_TRACK, tracks, behind);
    } else {
      TracksFound(data, tracks, behind, i - 1);
      var Track(position, size) := TrackPlace(data, i - 1);
      assert tracks[i..][1..] == tracks[i + 1..];
      TrackThere(data, position + size, tracks[i..], behind);
    }
  }

  /** The first header: two magic numbers, the kind of file, the number of tracks and the time division. */
  predicate HasHeader(data: seq<Byte>) {
    && |data| >= FIRST_TRACK
    && Load(false, data[..4]) == 0x4d54_6864 && Load(false, data[4..8]) == 6
  }

  /** One of the 16-bit fields of the header: the kind of file, the number of tracks, the division. */
  function HeaderField(data: seq<Byte>, offset: nat): U16
    requires HasHeader(data) && 8 <= offset <= 12
  {
    (data[offset] as int) * 0x100 + (data[offset + 1] as int)
  }

  method Expect(stream: FileStream, littleMachine: bool, magic: U32) returns (r: Outcome)
    modifies stream
    ensures var rest := Rest(stream.data, old(stream.position));
      r == if |rest| < 4 then Failed(Truncated) else if Load(false, rest[..4]) != magic then Failed(Format) else Done
    ensures r == Done ==> stream.position == old(stream.position) + 4
  {
    var n := stream.ReadInt32(littleMachine);
    r := if n == None then Failed(Truncated) else if n.value != magic then Failed(Format) else Done;
  }

  /** Checks the headers and finds the first track. */
  method Open(stream: FileStream, littleMachine: bool) returns (reader: MidiReader, r: Outcome)
    requires stream.position == 0
    modifies stream
    ensures fresh(reader) && reader.stream == stream
    ensures r == Done <==> HasHeader(stream.data) && TrackPlace(stream.data, 0).Track?
    ensures r == Done ==> reader.Valid() && reader.AtStart(0)
    ensures r == Done ==> reader.midiType == HeaderField(stream.data, 8)
    ensures r == Done ==> reader.trackCount == HeaderField(stream.data, 10)
    ensures r == Done ==> DivisionField(reader.division) == HeaderField(stream.data, 12)
    ensures r == Failed(Format) || r == Failed(Truncated) || r == Done
  {
    hide Load, TrackAt, TrackPlace, DivisionOf, DivisionField;
    FirstPlace(stream.data);
    assert |stream.data| >= 8 ==> Rest(stream.data, 4)[..4] == stream.data[4..8];
    reader := new MidiReader.Make(stream, littleMachine, 0, 0, 0);
    r := Expect(stream, littleMachine, 0x4d54_6864);
    if r.Failed? {
      return;
    }
    r := Expect(stream, littleMachine, 6);
    if r.Failed? {
      return;
    }
    var kind := stream.ReadInt16();
    if kind == None {
      return reader, Failed(Truncated);
    }
    var count := stream.ReadInt16();
    if count == None {
      return reader, Failed(Truncated);
    }
    var division := stream.ReadInt16();
    if division == None {
      return reader, Failed(Truncated);
    }
    reader := new MidiReader.Make(stream, littleMachine, kind.value, count.value, division.value);
    DivisionBack(division.value);
    r := reader.ReadTrack();
    assert r == Done ==> reader.Located(0);
  }

  /** All events of a file, track by track. */
  method ReadFile(reader: MidiReader, ghost tracks: seq<seq<Written>>, ghost behind: seq<Byte>)
      returns (events: seq<seq<Event>>)
    requires reader.Valid() && reader.AtStart(0) && Writable(tracks) && reader.trackCount == |tracks|
    requires var data := reader.stream.data;
      |data| >= FIRST_TRACK && data[FIRST_TRACK..] == WriteTracks(tracks) + behind
    modifies reader, reader.stream
    ensures |events| == |tracks| && forall i :: 0 <= i < |events| ==> events[i] == EventsOf(tracks[i])
  {
    hide WriteEvents, WriteTracks, TrackPlace, TrackAt, EventsOf;
    events := [];
    var end := reader.EndOfFile();
    while !end
      invariant reader.Valid() && reader.trackIndex == |events| && (end <==> |events| == |tracks|)
      invariant |events| <= |tracks| && (!end ==> reader.AtStart(|events|))
      invariant forall i :: 0 <= i < |events| ==> events[i] == EventsOf(tracks[i])
      decreases |tracks| - |events|
    {
      var track := ReadAndLeave(reader, tracks, behind, |events|);
      events := events + [track];
      end := reader.EndOfFile();
    }
  }

  /** The events of one track, and on to the next. */
  method ReadAndLeave(reader: MidiReader, ghost tracks: seq<seq<Written>>, ghost behind: seq<Byte>, ghost i: nat)
      returns (events: seq<Event>)
    requires reader.AtStart(i) && Writable(tracks) && i < |tracks| == reader.trackCount
    requires var data := reader.stream.data;
      |data| >= FIRST_TRACK && data[FIRST_TRACK..] == WriteTracks(tracks) + behind
    modifies reader, reader.stream
    ensures events == EventsOf(tracks[i]) && reader.Valid() && reader.trackIndex == i + 1
    ensures i + 1 < |tracks| ==> reader.AtStart(i + 1)
  {
    hide WriteEvents, WriteTracks, TrackPlace, TrackAt, EventsOf, Rest;
    TracksFound(reader.stream.data, tracks, behind, i);
    events := reader.ReadEvents(tracks[i], WriteTracks(tracks[i + 1..]) + behind);
    if i + 1 < |tracks| {
      TracksFound(reader.stream.data, tracks, behind, i + 1);
    }
    assert reader.Located(i);
    var r := reader.NextTrack();
  }
}
