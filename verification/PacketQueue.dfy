/** The decoder's packet demultiplexer: packets read past on the way to another stream wait in a queue. */
module PacketQueues {
  import opened Basics

  datatype Packet = Packet(stream: nat, dts: int, data: seq<int>)
  // ----- Sequences of packets -----

  /** A negative index asks for any stream. */
  predicate Matches(p: Packet, stream: int) {
    stream < 0 || p.stream == stream
  }

  /** The index of the first packet asked for, or the length. */
  function First(s: seq<Packet>, stream: int): (i: nat)
    ensures i <= |s| && (i < |s| ==> Matches(s[i], stream))
    ensures forall j :: 0 <= j < i ==> !Matches(s[j], stream)
  {
    if s == [] || Matches(s[0], stream) then 0 else 1 + First(s[1..], stream)
  }

  function Of(s: seq<Packet>, stream: nat): seq<Packet> {
    if s == [] then [] else OfOne(s[0], stream) + Of(s[1..], stream)
  }

  predicate IsOpen(open: seq<int>, stream: nat) {
    stream in open
  }

  /** The packets of open streams. */
  function Opened(s: seq<Packet>, open: seq<int>): seq<Packet> {
    if s == [] then [] else (if IsOpen(open, s[0].stream) then [s[0]] else []) + Opened(s[1..], open)
  }

  function OfOne(p: Packet, stream: nat): seq<Packet> {
    if p.stream == stream then [p] else []
  }

  lemma OfFirst(s: seq<Packet>, stream: nat)
    ensures s == [] ==> Of(s, stream) == []
    ensures s != [] ==> Of(s, stream) == OfOne(s[0], stream) + Of(s[1..], stream)
  {}

  lemma {:induction false} OfConcat(a: seq<Packet>, b: seq<Packet>, stream: nat)
    ensures Of(a + b, stream) == Of(a, stream) + Of(b, stream)
  {
    hide Of, OfOne;
    OfFirst(a, stream);
    if a == [] {
      assert a + b == b;
    } else {
      OfConcat(a[1..], b, stream);
      OfFirst(a + b, stream);
      assert (a + b)[0] == a[0] && (a + b)[1..] == a[1..] + b;
    }
  }

  lemma OpenedNone(open: seq<int>)
    ensures Opened([], open) == []
  {}

  lemma {:induction false} OfOpened(s: seq<Packet>, open: seq<int>, stream: nat)
    ensures Of(Opened(s, open), stream) == if IsOpen(open, stream) then Of(s, stream) else []
  {
    hide IsOpen;
    if s != [] {
      OfOpened(s[1..], open, stream);
      OfConcat(if IsOpen(open, s[0].stream) then [s[0]] else [], Opened(s[1..], open), stream);
    }
  }

  lemma {:induction false} OfNone(s: seq<Packet>, stream: nat)
    requires forall i :: 0 <= i < |s| ==> s[i].stream != stream
    ensures Of(s, stream) == []
  {
    if s != [] {
      OfNone(s[1..], stream);
    }
  }

  /** Splitting a sequence at a packet splits the packets of each stream. */
  lemma OfAround(s: seq<Packet>, i: nat, stream: nat)
    requires i < |s|
    ensures Of(s, stream) == Of(s[..i], stream) + Of([s[i]], stream) + Of(s[i + 1..], stream)
    ensures Of(DropAt(s, i), stream) == Of(s[..i], stream) + Of(s[i + 1..], stream)
  {
    assert s == s[..i] + ([s[i]] + s[i + 1..]);
    OfConcat(s[..i], [s[i]] + s[i + 1..], stream);
    OfConcat([s[i]], s[i + 1..], stream);
    OfConcat(s[..i], s[i + 1..], stream);
  }

  // ----- The demultiplexer as a function -----

  datatype State = State(
    unread: seq<Packet>, queue: seq<Packet>, open: seq<int>,
    timeKnown: bool, time: int, delivered: seq<Packet>)

  /** Takes from the queue if it can; otherwise reads on, queueing what belongs to other open streams. */
  function Read(s: State, stream: int): State {
    var i := First(s.queue, stream);
    if i < |s.queue| then
      s.(queue := DropAt(s.queue, i), delivered := s.delivered + [s.queue[i]])
    else
      var k := First(s.unread, stream);
      if k < |s.unread| then
        s.(unread := s.unread[k + 1..], queue := s.queue + Opened(s.unread[..k], s.open),
          timeKnown := true, time := s.unread[k].dts, delivered := s.delivered + [s.unread[k]])
      else if k == 0 then s
      else
        s.(unread := [], queue := s.queue + Opened(s.unread, s.open), timeKnown := true, time := s.unread[k - 1].dts)
  }

  /** What has been read is gone, and the time is that of the last packet read. */
  lemma ReadTime(s: State, stream: int)
    ensures var r := Read(s, stream);
      && |r.unread| <= |s.unread| && r.unread == s.unread[|s.unread| - |r.unread|..]
      && (|r.unread| < |s.unread| ==> r.timeKnown && r.time == s.unread[|s.unread| - |r.unread| - 1].dts)
      && (|r.unread| == |s.unread| ==> r.timeKnown == s.timeKnown && r.time == s.time)
  {
    hide First, Opened;
    OpenedNone(s.open);
  }

  predicate Found(s: State, stream: int) {
    First(s.queue, stream) < |s.queue| || First(s.unread, stream) < |s.unread|
  }

  lemma FirstSplit(s: seq<Packet>, stream: int)
    requires s != []
    ensures First(s, stream) == if Matches(s[0], stream) then 0 else 1 + First(s[1..], stream)
  {}

  lemma FirstOfMore(s: seq<Packet>, p: Packet, stream: int)
    requires First(s, stream) == |s| && !Matches(p, stream)
    ensures First(s + [p], stream) == |s| + 1
  {}

  lemma OpenedSplit(s: seq<Packet>, k: nat, open: seq<int>)
    requires k < |s|
    ensures Opened(s[..k + 1], open) == (if IsOpen(open, s[0].stream) then [s[0]] else []) + Opened(s[1..][..k], open)
  {
    assert s[..k + 1][1..] == s[1..][..k];
  }

  /** Reading on by one packet: it is delivered, or queued for an open stream, or dropped. */
  lemma ReadStep(s: State, stream: int)
    requires s.unread != [] && First(s.queue, stream) == |s.queue|
    ensures var p := s.unread[0];
      var next := s.(unread := s.unread[1..], timeKnown := true, time := p.dts);
      if Matches(p, stream) then Found(s, stream) && Read(s, stream) == next.(delivered := s.delivered + [p])
      else
        var after := if IsOpen(s.open, p.stream) then next.(queue := s.queue + [p]) else next;
        && First(after.queue, stream) == |after.queue|
        && Found(after, stream) == Found(s, stream) && Read(after, stream) == Read(s, stream)
  {
    hide First, Opened, IsOpen;
    var rest := s.unread[1..];
    var k := First(rest, stream);
    OpenedNone(s.open);
    FirstSplit(s.unread, stream);
    if Matches(s.unread[0], stream) {
      assert s.unread[..0] == [];
    } else {
      FirstOfMore(s.queue, s.unread[0], stream);
      OpenedSplit(s.unread, k, s.open);
      var more := if IsOpen(s.open, s.unread[0].stream) then [s.unread[0]] else [];
      assert s.queue + (more + Opened(rest[..k], s.open)) == s.queue + more + Opened(rest[..k], s.open);
      if k == |rest| {
        assert s.unread[..k + 1] == s.unread && rest[..k] == rest;
      }
    }
  }

  lemma ReadNothing(s: State, stream: int)
    requires s.unread == [] && First(s.queue, stream) == |s.queue|
    ensures Read(s, stream) == s && !Found(s, stream)
  {}

  /** Asking for the time may move one packet to the queue. */
  function Peek(s: State): State {
    if s.timeKnown then s
    else if s.queue != [] then s.(timeKnown := true, time := s.queue[0].dts)
    else if s.unread != [] then
      s.(unread := s.unread[1..], queue := [s.unread[0]], timeKnown := true, time := s.unread[0].dts)
    else s
  }

  function Closed(open: seq<int>, stream: int): seq<int> {
    if open == [] then [] else if open[0] == stream then open[1..] else [open[0]] + Closed(open[1..], stream)
  }

  lemma ClosedStep(open: seq<int>, i: nat, stream: int)
    requires i < |open| && open[i] != stream
    ensures open[..i] + Closed(open[i..], stream) == open[..i + 1] + Closed(open[i + 1..], stream)
  {
    assert open[i..][1..] == open[i + 1..];
  }

  lemma ClosedAt(open: seq<int>, i: nat, stream: int)
    requires i <= |open|
    ensures i == |open| ==> open[..i] + Closed(open[i..], stream) == open
    ensures i < |open| && open[i] == stream ==> open[..i] + Closed(open[i..], stream) == open[..i] + open[i + 1..]
  {
    if i < |open| {
      assert open[i..][1..] == open[i + 1..];
    }
  }

  datatype Request = ReadPacket(asked: int) | GetFrameTime | Open(stream: nat) | Close(closed: int) | ResetTime

  function Step(s: State, r: Request): State {
    match r
    case ReadPacket(asked) => Read(s, asked)
    case GetFrameTime => Peek(s)
    case Open(stream) => s.(open := s.open + [stream])
    case Close(closed) => s.(open := Closed(s.open, closed))
    case ResetTime => s.(timeKnown := false)
  }

  function Run(s: State, requests: seq<Request>): State
    decreases |requests|
  {
    if requests == [] then s else Run(Step(s, requests[0]), requests[1..])
  }

  /** All packets of a stream that are still accounted for, in the order of their delivery. */
  function Account(s: State, stream: nat): seq<Packet> {
    Of(s.delivered, stream) + Of(s.queue, stream) + Of(s.unread, stream)
  }

  /** What a read goes past. */
  function Passed(s: State, stream: int): seq<Packet> {
    if First(s.queue, stream) < |s.queue| then [] else s.unread[..First(s.unread, stream)]
  }

  lemma ReadQueued(s: State, asked: int, stream: nat)
    requires First(s.queue, asked) < |s.queue|
    ensures Account(Read(s, asked), stream) == Account(s, stream)
  {
    hide First, Of;
    var i := First(s.queue, asked);
    OfAround(s.queue, i, stream);
    OfConcat(s.delivered, [s.queue[i]], stream);
    if s.queue[i].stream == stream {
      OfNone(s.queue[..i], stream);
    } else {
      OfNone([s.queue[i]], stream);
    }
  }

  lemma ReadToTheEnd(s: State, asked: int, stream: nat)
    requires First(s.queue, asked) == |s.queue| && First(s.unread, asked) == |s.unread|
    ensures Account(Read(s, asked), stream) == Account(s, stream) <==>
      stream in s.open || Of(Passed(s, asked), stream) == []
  {
    hide First, Of, Opened;
    OfOpened(s.unread, s.open, stream);
    OfConcat(s.queue, Opened(s.unread, s.open), stream);
    OfNone([], stream);
    assert s.unread[..|s.unread|] == s.unread;
    if Of(s.unread, stream) != [] {
      assert |Account(s, stream)| > |Of(s.delivered, stream) + Of(s.queue, stream)|;
    }
  }

  lemma ReadFound(s: State, asked: int)
    requires First(s.queue, asked) == |s.queue| && First(s.unread, asked) < |s.unread|
    ensures var k := First(s.unread, asked); var t := Read(s, asked);
      && t.unread == s.unread[k + 1..] && t.queue == s.queue + Opened(s.unread[..k], s.open)
      && t.delivered == s.delivered + [s.unread[k]] && Passed(s, asked) == s.unread[..k]
  {
    hide First, Opened;
  }

  /** How the two accounts compare when a packet is found behind others. */
  lemma ReadUnread(s: State, asked: int, stream: nat)
    requires First(s.queue, asked) == |s.queue| && First(s.unread, asked) < |s.unread|
    ensures Account(Read(s, asked), stream) == Account(s, stream) <==>
      stream in s.open || Of(Passed(s, asked), stream) == []
  {
    hide First, Of, Opened, Read, Passed;
    ReadFound(s, asked);
    var k := First(s.unread, asked);
    var p, passed, rest := s.unread[k], s.unread[..k], s.unread[k + 1..];
    OfOpened(passed, s.open, stream);
    OfConcat(s.queue, Opened(passed, s.open), stream);
    OfAround(s.unread, k, stream);
    OfConcat(s.delivered, [p], stream);
    if p.stream == stream {
      OfNone(passed, stream);
      OfNone(s.queue, stream);
    } else {
      OfNone([p], stream);
      PassedOver(Of(s.delivered, stream), Of(s.queue, stream), Of(passed, stream), Of(rest, stream));
    }
  }

  /** What is passed over can be put into the queue, but not left out. */
  lemma PassedOver(d: seq<Packet>, q: seq<Packet>, passed: seq<Packet>, rest: seq<Packet>)
    ensures d + (q + passed) + rest == d + q + (passed + [] + rest)
    ensures d + (q + []) + rest == d + q + (passed + [] + rest) <==> passed == []
  {
    if passed != [] {
      assert |d + (q + []) + rest| < |d + q + (passed + [] + rest)|;
    }
  }

  /** A read keeps the account of a stream exactly if the stream is open, or none of its packets are read past. */
  lemma ReadKeepsAccount(s: State, asked: int, stream: nat)
    ensures Account(Read(s, asked), stream) == Account(s, stream) <==>
      stream in s.open || Of(Passed(s, asked), stream) == []
  {
    if First(s.queue, asked) < |s.queue| {
      ReadQueued(s, asked, stream);
    } else if First(s.unread, asked) < |s.unread| {
      ReadUnread(s, asked, stream);
    } else {
      ReadToTheEnd(s, asked, stream);
    }
  }

  lemma PeekKeepsAccount(s: State, stream: nat)
    ensures Account(Peek(s), stream) == Account(s, stream)
  {
    if !s.timeKnown && s.queue == [] && s.unread != [] {
      OfConcat([s.unread[0]], s.unread[1..], stream);
      assert s.unread == [s.unread[0]] + s.unread[1..];
    }
  }

  ghost predicate OpenThroughout(s: State, requests: seq<Request>, stream: nat) {
    forall i :: 0 <= i <= |requests| ==> stream in Run(s, requests[..i]).open
  }

  lemma OpenAfter(s: State, requests: seq<Request>, stream: nat)
    requires OpenThroughout(s, requests, stream) && requests != []
    ensures stream in s.open && OpenThroughout(Step(s, requests[0]), requests[1..], stream)
  {
    hide Step;
    var r, rest := requests[0], requests[1..];
    assert requests[..0] == [] && Run(s, []) == s;
    forall i | 0 <= i <= |rest| ensures stream in Run(Step(s, r), rest[..i]).open {
      assert requests[..i + 1][0] == r && requests[..i + 1][1..] == rest[..i];
      assert Run(s, requests[..i + 1]) == Run(Step(s, r), rest[..i]);
    }
  }

  lemma StepKeepsAccount(s: State, r: Request, stream: nat)
    requires stream in s.open
    ensures Account(Step(s, r), stream) == Account(s, stream)
  {
    hide Read, Peek, Passed, Of;
    match r
    case ReadPacket(asked) => ReadKeepsAccount(s, asked, stream);
    case GetFrameTime => PeekKeepsAccount(s, stream);
    case _ =>
  }

  lemma {:induction false} RunKeepsAccount(s: State, requests: seq<Request>, stream: nat)
    requires OpenThroughout(s, requests, stream)
    ensures Account(Run(s, requests), stream) == Account(s, stream)
    decreases |requests|
  {
    hide OpenThroughout, Step, Account;
    if requests != [] {
      OpenAfter(s, requests, stream);
      StepKeepsAccount(s, requests[0], stream);
      RunKeepsAccount(Step(s, requests[0]), requests[1..], stream);
    }
  }

  function Fresh(source: seq<Packet>, open: seq<int>): State {
    State(source, [], open, false, 0, [])
  }

  /**
   * None of the packets of a stream that stays open is lost, duplicated or reordered, whatever else is
   * read, peeked at, opened or closed; and a read that fails has found all of them delivered.
   */
  lemma DeliveredInOrder(source: seq<Packet>, open: seq<int>, requests: seq<Request>, stream: nat)
    requires OpenThroughout(Fresh(source, open), requests, stream)
    ensures var s := Run(Fresh(source, open), requests);
      && Of(s.delivered, stream) + Of(s.queue, stream) + Of(s.unread, stream) == Of(source, stream)
      && (!Found(s, stream) ==> Of(s.delivered, stream) == Of(source, stream))
  {
    hide Run, OpenThroughout, First, Of;
    OfNone([], stream);
    RunKeepsAccount(Fresh(source, open), requests, stream);
    var s := Run(Fresh(source, open), requests);
    if !Found(s, stream) {
      OfNone(s.queue, stream);
      OfNone(s.unread, stream);
    }
  }

  /** Two packets of a closed stream: reading another stream loses the first, peeking at the time saves it. */
  lemma ClosedStreamsLose(a: Packet, b: Packet, open: seq<int>)
    requires a.stream == 0 && b.stream == 1 && 0 !in open
    ensures Account(Run(Fresh([a, b], open), [ReadPacket(1)]), 0) == []
    ensures Account(Run(Fresh([a, b], open), [GetFrameTime, ReadPacket(1)]), 0) == [a]
  {
    var s := Fresh([a, b], open);
    assert First(s.unread, 1) == 1;
    assert s.unread[..1] == [a] && Opened([a], open) == [];
    assert Read(s, 1) == State([], [], open, true, b.dts, [b]);
    var t := Peek(s);
    assert t.queue == [a] && t.unread == [b];
    assert [ReadPacket(1)][1..] == [];
    assert Run(s, [ReadPacket(1)]) == Read(s, 1);
    assert [GetFrameTime, ReadPacket(1)][1..] == [ReadPacket(1)];
    assert Run(s, [GetFrameTime, ReadPacket(1)]) == Run(t, [ReadPacket(1)]) == Read(t, 1);
  }

  // ----- The demultiplexer as an object -----

  class FFmpegDecoder {
    /** The library's cursor, as the packets that it will still return. */
    var unread: seq<Packet>
    const streamCount: nat
    const duration: int
    var packetQueue: seq<Packet>
    var openStreams: seq<int>
    var currentTimeKnown: bool
    var currentTime: int
    ghost var delivered: seq<Packet>

    ghost function Abstract(): State
      reads this
    {
      State(unread, packetQueue, openStreams, currentTimeKnown, currentTime, delivered)
    }

    constructor (source: seq<Packet>, streamCount: nat, duration: int)
      ensures Abstract() == Fresh(source, []) && this.streamCount == streamCount && this.duration == duration
    {
      unread := source;
      this.streamCount := streamCount;
      this.duration := duration;
      packetQueue, openStreams := [], [];
      currentTimeKnown, currentTime := false, 0;
      delivered := [];
    }

    /** A stream that does not exist, or whose codec the library cannot open, stays closed. */
    method OpenStream(stream: int, codecOpens: bool) returns (ok: bool)
      modifies this`openStreams
      ensures ok <==> 0 <= stream < streamCount && codecOpens
      ensures Abstract() == if ok then Step(old(Abstract()), Open(stream)) else old(Abstract())
    {
      ok := 0 <= stream < streamCount && codecOpens;
      if ok {
        openStreams := openStreams + [stream];
      }
    }

    method CloseStream(stream: int)
      modifies this`openStreams
      ensures Abstract() == Step(old(Abstract()), Request.Close(stream))
    {
      hide Closed;
      var i := 0;
      assert openStreams[..0] == [] && openStreams[0..] == openStreams;
      while i < |openStreams| && openStreams[i] != stream
        invariant 0 <= i <= |openStreams| && openStreams == old(openStreams)
        invariant Closed(openStreams, stream) == openStreams[..i] + Closed(openStreams[i..], stream)
      {
        ClosedStep(openStreams, i, stream);
        i := i + 1;
      }
      ClosedAt(openStreams, i, stream);
      if i < |openStreams| {
        openStreams := openStreams[..i] + openStreams[i + 1..];
      }
    }

    method QueuePacket(p: Packet)
      modifies this`packetQueue
      ensures packetQueue == old(packetQueue) + [p]
    {
      packetQueue := packetQueue + [p];
    }

    method DequeuePacket(stream: int) returns (packet: Option<Packet>)
      modifies this`packetQueue
      ensures var i := First(old(packetQueue), stream);
        if i < |old(packetQueue)|
        then packet == Some(old(packetQueue)[i]) && packetQueue == old(packetQueue)[..i] + old(packetQueue)[i + 1..]
        else packet == None && packetQueue == old(packetQueue)
    {
      var i := 0;
      while i < |packetQueue|
        invariant 0 <= i <= |packetQueue| && packetQueue == old(packetQueue)
        invariant forall j :: 0 <= j < i ==> !Matches(packetQueue[j], stream)
      {
        if Matches(packetQueue[i], stream) {
          packet := Some(packetQueue[i]);
          packetQueue := DropAt(packetQueue, i);
          return;
        }
        i := i + 1;
      }
      packet := None;
    }

    method ReadPacket(stream: int) returns (packet: Option<Packet>)
      modifies this
      ensures packet.Some? ==> stream < 0 || packet.value.stream == stream
      ensures packet.Some? <==> Found(old(Abstract()), stream)
      ensures Abstract() == Read(old(Abstract()), stream)
      ensures |unread| <= |old(unread)| && unread == old(unread)[|old(unread)| - |unread|..]
      ensures var read := |old(unread)| - |unread|;
        if read > 0 then currentTimeKnown && currentTime == old(unread)[read - 1].dts
        else currentTimeKnown == old(currentTimeKnown) && currentTime == old(currentTime)
      ensures packet.Some? ==> delivered == old(delivered) + [packet.value]
    {
      hide First, Opened;
      ghost var start := Abstract();
      ReadTime(start, stream);
      packet := DequeuePacket(stream);
      if packet.Some? {
        delivered := delivered + [packet.value];
        return;
      }
      while unread != []
        invariant delivered == old(delivered) && First(packetQueue, stream) == |packetQueue|
        invariant Read(Abstract(), stream) == Read(start, stream) && Found(Abstract(), stream) == Found(start, stream)
        decreases |unread|
      {
        ReadStep(Abstract(), stream);
        var p := unread[0];
        unread := unread[1..];
        currentTimeKnown, currentTime := true, p.dts;
        if Matches(p, stream) {
          packet := Some(p);
          delivered := delivered + [p];
          return;
        }
        if p.stream in openStreams {
          QueuePacket(p);
        }
      }
      ReadNothing(Abstract(), stream);
    }

    /** The time of the last packet read, or of the next to come, or the duration at the end. */
    method GetFrameTime() returns (time: int)
      modifies this
      ensures old(currentTimeKnown) ==> time == old(currentTime)
      ensures !old(currentTimeKnown) ==>
        time == if old(packetQueue + unread) == [] then duration else old(packetQueue + unread)[0].dts
      ensures Abstract() == Peek(old(Abstract()))
    {
      if !currentTimeKnown {
        if |packetQueue| > 0 {
          currentTimeKnown := true;
          currentTime := packetQueue[0].dts;
        } else {
          ghost var before := delivered;
          var packet := ReadPacket(-1);
          if packet == None {
            return duration;
          }
          assert First(old(unread), -1) == 0 && old(unread)[..0] == [] && packetQueue == [];
          assert delivered[|before|] == packet.value == old(unread)[0];
          delivered := before;
          QueuePacket(packet.value);
        }
      }
      return currentTime;
    }

    method ResetFrameTime()
      modifies this`currentTimeKnown
      ensures Abstract() == Step(old(Abstract()), ResetTime)
    {
      currentTimeKnown := false;
    }
  }
}
