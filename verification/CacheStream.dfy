/** A read and write cache in front of a stream, and the sessions in which nobody can tell it is there. */
module CacheStreams {
  import opened Basics
  import opened Endian
  import opened Streams

  /** The stream behind the cache. Reads may come up short, but not empty while there is data. */
  class Stream {
    var content: seq<Byte>
    var position: nat

    constructor (content: seq<Byte>, position: nat)
      ensures this.content == content && this.position == position
    {
      this.content, this.position := content, position;
    }

    method Read(buffer: array<Byte>, size: nat) returns (n: nat)
      requires size <= buffer.Length
      modifies this`position, buffer
      ensures n <= size && position == old(position) + n
      ensures n > 0 ==> position <= |content| && buffer[..n] == content[old(position)..position]
      ensures n == 0 <==> size == 0 || old(position) >= |content|
    {
      var available := if position <= |content| then |content| - position else 0;
      var most := if size <= available then size else available;
      n :| 0 <= n <= most && (most > 0 ==> n > 0);
      forall i | 0 <= i < n {
        buffer[i] := content[position + i];
      }
      position := position + n;
    }

    method Write(buffer: array<Byte>, size: nat)
      requires size <= buffer.Length && position <= |content|
      modifies this
      ensures content == Overwrite(old(content), old(position), buffer[..size])
      ensures position == old(position) + size
      ensures |content| == if position <= |old(content)| then |old(content)| else position
      ensures forall i :: 0 <= i < size ==> content[old(position) + i] == buffer[i]
      ensures forall i :: 0 <= i < |old(content)| && !(old(position) <= i < position) ==> content[i] == old(content)[i]
    {
      content := Overwrite(content, position, buffer[..size]);
      position := position + size;
    }

    method SetPosition(value: nat)
      modifies this`position
      ensures position == value
    {
      position := value;
    }
  }

  // ----- Pieces of buffers -----

  function Slice(s: seq<Byte>, from: nat, n: nat): seq<Byte>
    requires from + n <= |s|
  {
    s[from..from + n]
  }

  /** Outside one piece nothing has changed. */
  predicate Untouched(before: seq<Byte>, after: seq<Byte>, start: nat, n: nat) {
    && |before| == |after| && start + n <= |before|
    && after[..start] == before[..start] && after[start + n..] == before[start + n..]
  }

  lemma NothingTouched(buffer: seq<Byte>, start: nat)
    requires start <= |buffer|
    ensures Untouched(buffer, buffer, start, 0)
  {}

  lemma WindowSlice(window: seq<Byte>, content: seq<Byte>, position: nat, from: nat, n: nat)
    requires position + |window| <= |content| && window == Slice(content, position, |window|)
    requires from + n <= |window|
    ensures Slice(window, from, n) == Slice(content, position + from, n)
  {
    assert forall i :: from <= i < from + n ==> window[i] == content[position + i];
  }

  /** What a read delivers: some bytes from a window that stands elsewhere, and the rest from the position. */
  function Expected(view: seq<Byte>, readPoint: nat, at: nat, served: nat, size: nat): seq<Byte>
    requires readPoint + served <= |view| && at + size <= |view| && served <= size
  {
    Slice(view, readPoint, served) + Slice(view, at + served, size - served)
  }

  lemma ExpectedServed(view: seq<Byte>, readPoint: nat, at: nat, size: nat)
    requires readPoint + size <= |view| && at + size <= |view|
    ensures Expected(view, readPoint, at, size, size) == Slice(view, readPoint, size)
  {}

  lemma ExpectedInStep(view: seq<Byte>, at: nat, served: nat, size: nat)
    requires at + size <= |view| && served <= size
    ensures Expected(view, at, at, served, size) == Slice(view, at, size)
  {}

  lemma ExpectedJoined(view: seq<Byte>, readPoint: nat, at: nat, served: nat, size: nat)
    requires readPoint + served <= |view| && at + size <= |view| && served <= size
    ensures Expected(view, readPoint, at, served, size) ==
      Slice(view, readPoint, served) + Slice(view, at + served, size - served)
    ensures Expected(view, at, at, served, size) == Slice(view, at, size)
  {
    ExpectedInStep(view, at, served, size);
  }

  lemma PrefixSlice(s: seq<Byte>, m: nat, from: nat, n: nat)
    requires from + n <= m <= |s|
    ensures Slice(s[..m], from, n) == Slice(s, from, n)
  {}

  lemma PrefixExtended(before: seq<Byte>, after: seq<Byte>, at: nat, n: nat)
    requires Untouched(before, after, at, n)
    ensures after[..at + n] == before[..at] + Slice(after, at, n)
  {}

  lemma EmptySlice(s: seq<Byte>, from: nat)
    requires from <= |s|
    ensures Slice(s, from, 0) == []
  {}

  lemma WholeSlice(s: seq<Byte>)
    ensures Slice(s, 0, |s|) == s
  {}

  lemma SliceJoined(s: seq<Byte>, from: nat, m: nat, n: nat)
    requires m <= n && from + n <= |s|
    ensures Slice(s, from, m) + Slice(s, from + m, n - m) == Slice(s, from, n)
  {}

  /** A read is right exactly if the window's bytes happen to be those at the position. */
  lemma ExpectedRightIff(view: seq<Byte>, readPoint: nat, at: nat, served: nat, size: nat)
    requires readPoint + served <= |view| && at + size <= |view| && served <= size
    ensures Expected(view, readPoint, at, served, size) == Slice(view, at, size) <==>
      Slice(view, readPoint, served) == Slice(view, at, served)
  {
    ExpectedInStep(view, at, served, size);
    assert Expected(view, readPoint, at, served, size)[..served] == Slice(view, readPoint, served);
    assert Expected(view, at, at, served, size)[..served] == Slice(view, at, served);
  }

  /** Filling a region of a buffer piece by piece leaves the first piece and everything outside alone. */
  lemma Spliced(before: seq<Byte>, between: seq<Byte>, after: seq<Byte>, start: nat, length: nat, size: nat)
    requires length <= size && start + size <= |before|
    requires Untouched(before, between, start, length) && Untouched(between, after, start + length, size - length)
    ensures Untouched(before, after, start, size)
    ensures Slice(after, start, size) == Slice(between, start, length) + Slice(after, start + length, size - length)
  {
    assert after[..start] == after[..start + length][..start] && between[..start] == between[..start + length][..start];
    assert after[start..start + length] == after[..start + length][start..];
    assert between[start..start + length] == between[..start + length][start..];
    assert before[start + size..] == before[start + length..][size - length..];
    assert between[start + size..] == between[start + length..][size - length..];
    SliceJoined(after, start, length, size);
  }

  /** memcpy between different buffers. */
  method CopyBytes(dest: array<Byte>, at: nat, source: array<Byte>, from: nat, n: nat)
    requires dest != source && at + n <= dest.Length && from + n <= source.Length
    modifies dest
    ensures Slice(dest[..], at, n) == Slice(source[..], from, n)
    ensures Untouched(old(dest[..]), dest[..], at, n)
  {
    forall i | 0 <= i < n {
      dest[at + i] := source[from + i];
    }
    assert Slice(dest[..], at, n) == Slice(source[..], from, n);
  }

  class CacheStream {
    const stream: Stream
    const cache: array<Byte>
    var position: nat
    var cacheDirty: bool
    var cacheOffset: nat
    var cacheLength: nat
    var cachePosition: nat

    ghost predicate Valid()
      reads this, stream, cache
    {
      && cacheOffset <= cacheLength <= cache.Length
      && stream.position <= |stream.content|
      && (cacheDirty ==> cacheLength == cacheOffset)
      && (!cacheDirty && cacheLength > 0 ==>
        && cachePosition + cacheLength == stream.position
        && cache[..cacheLength] == Slice(stream.content, cachePosition, cacheLength))
    }

    /** The stream stands where the cache takes it to be; a wrap at position 0 starts like that. */
    predicate Synced()
      reads this, stream
    {
      stream.position == cachePosition + (if cacheDirty then 0 else cacheLength)
    }

    /** With the position there, the next refill starts at it: out of step, one place is wrong. */
    predicate InStepAt(p: nat)
      reads this, stream
    {
      Synced() || p != cachePosition + cacheLength
    }

    /** Bytes are pending, and there is room for more behind them. */
    predicate HasRoom(size: nat)
      reads this
    {
      cacheDirty && size <= cache.Length - cacheOffset
    }

    /** How much of a read the window serves. */
    function Served(size: nat): nat
      requires cacheOffset <= cacheLength
      reads this
    {
      if Serves() then Min(size, cacheLength - cacheOffset) else 0
    }

    /** The contents that the pending bytes will make. */
    ghost function View(): seq<Byte>
      requires Valid()
      reads this, stream, cache
    {
      if cacheDirty then Overwrite(stream.content, stream.position, cache[..cacheOffset]) else stream.content
    }

    /** Whether the next read is served from the window. */
    predicate Serves()
      reads this
    {
      !cacheDirty && cachePosition <= position < cachePosition + cacheLength && cacheOffset < cacheLength
    }

    /** Where the next byte read comes from: a window that serves ignores the position inside it. */
    function ReadPoint(): nat
      reads this
    {
      if Serves() then cachePosition + cacheOffset else position
    }

    /** Where the next byte written will end up: the position plays no part in it. */
    function WritePoint(): nat
      reads this, stream
    {
      stream.position + (if cacheDirty then cacheOffset else 0)
    }

    constructor (stream: Stream, cacheSize: nat)
      requires stream.position <= |stream.content|
      ensures this.stream == stream && fresh(cache) && cache.Length == cacheSize
      ensures Valid() && cacheDirty && cacheOffset == cacheLength == cachePosition == 0
      ensures Synced() <==> stream.position == 0
      ensures forall p :: InStepAt(p) <==> p != 0 || stream.position == 0
      ensures View() == stream.content && position == stream.position
    {
      this.stream := stream;
      cache := new Byte[cacheSize];
      cacheDirty, cacheOffset, cacheLength, cachePosition := true, 0, 0, 0;
      position := stream.position;
      new;
      OverwriteNothing(stream.content, stream.position);
    }

    method FlushCache()
      requires Valid()
      modifies this`cachePosition, this`cacheDirty, this`cacheOffset, this`cacheLength, stream
      ensures !cacheDirty && cacheOffset == cacheLength == 0
      ensures stream.content == old(View())
      ensures stream.position == old(stream.position) + (if old(cacheDirty) then old(cacheOffset) else 0)
      ensures cachePosition == old(cachePosition) + old(cacheLength)
      ensures Valid() && Synced() == old(Synced())
    {
      if cacheDirty {
        if cacheOffset > 0 {
          stream.Write(cache, cacheOffset);
        } else {
          OverwriteNothing(stream.content, stream.position);
        }
      }
      cachePosition := cachePosition + cacheLength;
      cacheDirty := false;
      cacheOffset := 0;
      cacheLength := 0;
    }

    /** Forgets the window; the stream behind stays where reading ahead has left it. */
    method DirtyCache()
      modifies this`cachePosition, this`cacheDirty, this`cacheOffset, this`cacheLength
      ensures !cacheDirty && cacheOffset == cacheLength == 0 && cachePosition == position
    {
      cacheDirty := false;
      cachePosition := position;
      cacheOffset := 0;
      cacheLength := 0;
    }

    /**
     * Fills the window from the position, unless that seems to be where the stream is: then from where
     * the stream is. It ends up empty, and changes nothing when repeated, exactly at the end of the data.
     */
    method FillCache()
      requires Valid() && !cacheDirty && cache.Length > 0
      requires position == cachePosition + cacheOffset ==> cacheOffset == cacheLength
      requires position <= |stream.content|
      modifies this`cachePosition, this`cacheDirty, this`cacheOffset, this`cacheLength, stream`position, cache
      ensures !cacheDirty && cachePosition == position && cacheOffset == 0 && cacheLength <= cache.Length
      ensures var from := if old(InStepAt(position)) then position else old(stream.position);
        && stream.position == from + cacheLength <= |stream.content|
        && cache[..cacheLength] == Slice(stream.content, from, cacheLength)
        && (cacheLength == 0 <==> from == |stream.content|)
      ensures old(InStepAt(position)) ==> Valid() && Synced()
    {
      if position != cachePosition + cacheOffset {
        stream.SetPosition(position);
      }
      cachePosition := position;
      cacheLength := stream.Read(cache, cache.Length);
      cacheOffset := 0;
    }

    /**
     * With data left to read, a cache of positive size, and in step, Read returns and delivers as many
     * bytes as asked for: first what the window serves, wherever it stands, then those at the position.
     */
    method Read(buffer: array<Byte>, start: nat, size: nat) returns (n: nat)
      requires Valid() && InStepAt(position) && cache.Length > 0
      requires buffer != cache && start + size <= buffer.Length
      requires position < |View()| && position + size <= |View()|
      modifies this, stream, cache, buffer
      ensures Valid() && Synced() && !cacheDirty && View() == old(View())
      ensures n == size && position == old(position) + size
      ensures old(ReadPoint() + Served(size)) <= |View()|
      ensures Slice(buffer[..], start, size) ==
        Expected(View(), old(ReadPoint()), old(position), old(Served(size)), size)
      ensures old(ReadPoint() == position) ==> ReadPoint() == position
      ensures old(ReadPoint() == position) ==> Slice(buffer[..], start, size) == Slice(View(), old(position), size)
      ensures Untouched(old(buffer[..]), buffer[..], start, size)
      decreases size, if Serves() then 0 else 1
    {
      hide Overwrite, Expected, Served, Slice, Untouched;
      ghost var view, from, at, k := View(), ReadPoint(), position, Served(size);
      ghost var before := buffer[..];
      var length, done := ReadCached(buffer, start, size);
      if done {
        ExpectedServed(view, from, at, size);
        return length;
      }
      ghost var served := buffer[..];
      var more := Read(buffer, start + length, size - length);
      n := length + more;
      Spliced(before, served, buffer[..], start, length, size);
      ExpectedJoined(view, from, at, k, size);
    }

    /** One level of Read: flush, hand out what the window has, and refill it if that was not enough. */
    method ReadCached(buffer: array<Byte>, start: nat, size: nat) returns (length: nat, done: bool)
      requires Valid() && InStepAt(position) && cache.Length > 0
      requires buffer != cache && start + size <= buffer.Length
      requires position < |View()| && position + size <= |View()|
      modifies this, stream, cache, buffer
      ensures Valid() && Synced() && !cacheDirty && stream.content == old(View())
      ensures length == old(Served(size)) <= size && position == old(position) + length
      ensures done ==> length == size
      ensures done && old(ReadPoint() == position) ==> ReadPoint() == position
      ensures !done ==> Serves() && ReadPoint() == position < |stream.content|
      ensures !done && length == 0 ==> !old(Serves())
      ensures old(ReadPoint()) + length <= |stream.content|
      ensures Slice(buffer[..], start, length) == Slice(stream.content, old(ReadPoint()), length)
      ensures Untouched(old(buffer[..]), buffer[..], start, length)
    {
      hide Overwrite, Slice, Untouched;
      length := 0;
      ghost var from := ReadPoint();
      NothingTouched(buffer[..], start);
      if cacheDirty {
        FlushCache();
      }
      EmptySlice(stream.content, from);
      if cachePosition <= position < cachePosition + cacheLength {
        length := Serve(buffer, start, size);
        if length >= size {
          EmptySlice(buffer[..], start);
          return length, true;
        }
      }
      EmptySlice(buffer[..], start);
      FillCache();
      done := false;
    }

    /** Hands out what the window still has, up to the size asked for. */
    method Serve(buffer: array<Byte>, start: nat, size: nat) returns (length: nat)
      requires Valid() && !cacheDirty
      requires buffer != cache && start + size <= buffer.Length
      modifies this`position, this`cacheOffset, buffer
      ensures Valid() && length <= size && (length < size ==> cacheOffset == cacheLength)
      ensures length == Min(size, cacheLength - old(cacheOffset))
      ensures position == old(position) + length && cacheOffset == old(cacheOffset) + length
      ensures length > 0 ==> cachePosition + cacheOffset <= |stream.content|
      ensures length > 0 ==>
        Slice(buffer[..], start, length) == Slice(stream.content, cachePosition + old(cacheOffset), length)
      ensures Untouched(old(buffer[..]), buffer[..], start, length)
    {
      hide Slice, Untouched;
      length := Min(size, cacheLength - cacheOffset);
      NothingTouched(buffer[..], start);
      if length > 0 {
        WindowSlice(cache[..cacheLength], stream.content, cachePosition, cacheOffset, length);
        PrefixSlice(cache[..], cacheLength, cacheOffset, length);
        CopyBytes(buffer, start, cache, cacheOffset, length);
        cacheOffset := cacheOffset + length;
        position := position + length;
      }
    }

    /** Puts bytes that fit behind the pending ones. */
    method Append(buffer: array<Byte>, start: nat, length: nat)
      requires Valid()
      requires !cacheDirty ==> cacheLength == 0
      requires buffer != cache && start + length <= buffer.Length && length <= cache.Length - cacheOffset
      modifies this`position, this`cacheDirty, this`cacheOffset, this`cacheLength, cache
      ensures Valid() && cacheDirty && cacheOffset == old(cacheOffset) + length
      ensures position == old(position) + length
      ensures old(WritePoint()) <= |old(View())|
      ensures View() == Overwrite(old(View()), old(WritePoint()), Slice(buffer[..], start, length))
    {
      hide Overwrite, Slice, Untouched;
      ghost var before, pending := cache[..], cache[..cacheOffset];
      OverwriteNothing(stream.content, stream.position);
      OverwriteTwice(stream.content, stream.position, pending, Slice(buffer[..], start, length));
      CopyBytes(cache, cacheOffset, buffer, start, length);
      PrefixExtended(before, cache[..], cacheOffset, length);
      assert cache[..cacheOffset + length] == cache[..][..cacheOffset + length];
      cacheOffset := cacheOffset + length;
      position := position + length;
      cacheLength := cacheOffset;
      cacheDirty := true;
    }

    /** Write moves the position but puts the bytes at the write point, wherever the position is. */
    method Write(buffer: array<Byte>, start: nat, size: nat) returns (n: nat)
      requires Valid() && cache.Length > 0
      requires buffer != cache && start + size <= buffer.Length
      modifies this, stream, cache
      ensures Valid()
      ensures old(Synced() && position == WritePoint()) ==> Synced()
      ensures n == size && position == old(position) + size && WritePoint() == old(WritePoint()) + size
      ensures old(WritePoint()) <= |old(View())|
      ensures View() == Overwrite(old(View()), old(WritePoint()), Slice(buffer[..], start, size))
      ensures |View()| == if WritePoint() <= |old(View())| then |old(View())| else WritePoint()
      ensures View()[old(WritePoint())..WritePoint()] == buffer[start..start + size]
      ensures forall i :: 0 <= i < |old(View())| && !(old(WritePoint()) <= i < WritePoint()) ==>
        View()[i] == old(View())[i]
      ensures old(HasRoom(size)) ==> cacheDirty && cachePosition == old(cachePosition)
      ensures old(HasRoom(size)) ==> stream.position == old(stream.position)
      ensures old(position == WritePoint() && !HasRoom(size)) ==> Synced()
      decreases size, if cacheDirty && cacheOffset == cache.Length then 1 else 0
    {
      hide Overwrite;
      ghost var view, at := View(), WritePoint();
      NothingWritten(this);
      var length := WriteCached(buffer, start, size);
      OverwriteBytes(view, at, Slice(buffer[..], start, size));
      if length >= size {
        return size;
      }
      OverwriteTwice(view, at, Slice(buffer[..], start, length), Slice(buffer[..], start + length, size - length));
      SliceJoined(buffer[..], start, length, size);
      var more := Write(buffer, start + length, size - length);
      n := length + more;
    }

    /**
     * One level of Write: take what fits, and flush if that was not all. Nothing is taken, and the size
     * left does not shrink, exactly when the cache was already full.
     */
    method WriteCached(buffer: array<Byte>, start: nat, size: nat) returns (length: nat)
      requires Valid() && cache.Length > 0
      requires buffer != cache && start + size <= buffer.Length
      modifies this, stream, cache
      ensures Valid()
      ensures old(Synced() && position == WritePoint()) ==> Synced()
      ensures length <= size && position == old(position) + length && WritePoint() == old(WritePoint()) + length
      ensures length < size ==> !cacheDirty
      ensures length == 0 <==> size == 0 || (old(cacheDirty) && old(cacheOffset) == cache.Length)
      ensures old(WritePoint()) <= |old(View())|
      ensures View() == Overwrite(old(View()), old(WritePoint()), Slice(buffer[..], start, length))
      ensures old(HasRoom(size)) ==> length == size && cacheDirty && cachePosition == old(cachePosition)
      ensures old(HasRoom(size)) ==> stream.position == old(stream.position)
      ensures old(!cacheDirty && position == WritePoint()) ==> Synced()
      ensures old(cacheDirty) ==> (length < size <==> !old(HasRoom(size)))
    {
      hide Overwrite;
      NothingWritten(this);
      EmptySlice(buffer[..], start);
      if !cacheDirty {
        DirtyCache();
      }
      length := if size <= cache.Length - cacheOffset then size else cache.Length - cacheOffset;
      if length > 0 {
        Append(buffer, start, length);
      }
      if length < size {
        FlushCache();
      }
    }

    method SetPosition(value: nat)
      requires Valid()
      modifies this`position
      ensures Valid() && position == value && View() == old(View())
      ensures WritePoint() == old(WritePoint()) && Synced() == old(Synced())
    {
      position := value;
    }

    /** Afterwards the stream behind holds everything. */
    method Flush()
      requires Valid()
      modifies this, stream
      ensures Valid() && View() == stream.content == old(View()) && position == old(position)
      ensures stream.position == WritePoint() == old(WritePoint()) && (old(Synced()) ==> Synced())
      ensures !cacheDirty && cacheLength == 0 && cachePosition == old(cachePosition + cacheLength)
    {
      FlushCache();
    }
  }

  lemma NothingWritten(c: CacheStream)
    requires c.Valid()
    ensures c.WritePoint() <= |c.View()| && Overwrite(c.View(), c.WritePoint(), []) == c.View()
  {
    OverwriteNothing(c.View(), c.WritePoint());
  }

  /**
   * The first refill after a wrap, one write and a seek. Unless the write was longer than the cache, a seek
   * to the number of bytes written looks like no seek at all, and if the stream was not at its start the
   * window is filled from where it stands.
   */
  method FirstRefill(stream: Stream, cacheSize: nat, buffer: array<Byte>, p: nat) returns (c: CacheStream)
    requires stream.position <= |stream.content| && cacheSize > 0
    requires p <= |Overwrite(stream.content, stream.position, buffer[..])|
    modifies stream
    ensures fresh(c) && c.stream == stream
    ensures stream.content == old(Overwrite(stream.content, stream.position, buffer[..]))
    ensures c.cachePosition == p && c.cacheLength <= c.cache.Length
    ensures var s, k := old(stream.position), buffer.Length;
      var from := if s != 0 && k <= cacheSize && p == k then s + k else p;
      && from + c.cacheLength <= |stream.content|
      && c.cache[..c.cacheLength] == Slice(stream.content, from, c.cacheLength)
      && (c.cacheLength == 0 <==> from == |stream.content|)
  {
    hide Overwrite, Slice;
    c := new CacheStream(stream, cacheSize);
    WholeSlice(buffer[..]);
    var n := c.Write(buffer, 0, buffer.Length);
    c.SetPosition(p);
    c.Flush();
    c.FillCache();
  }

  // ----- Sessions -----

  datatype Operation = Reading(size: nat) | Writing(bytes: seq<Byte>) | Seeking(to: nat) | Flushing

  /** A stream without a cache: its contents and its position. */
  datatype Plain = Plain(content: seq<Byte>, position: nat)

  ghost predicate Exists(p: Plain, op: Operation) {
    match op
    case Reading(size) => p.position + size <= |p.content|
    case Writing(_) => p.position <= |p.content|
    case _ => true
  }

  function PlainStep(p: Plain, op: Operation): Plain
    requires Exists(p, op)
  {
    match op
    case Reading(size) => p.(position := p.position + size)
    case Writing(bytes) => Plain(Overwrite(p.content, p.position, bytes), p.position + |bytes|)
    case Seeking(to) => p.(position := to)
    case Flushing => p
  }

  function PlainOutput(p: Plain, op: Operation): seq<Byte>
    requires Exists(p, op)
  {
    if op.Reading? then Slice(p.content, p.position, op.size) else []
  }

  ghost predicate PlainRun(p: Plain, ops: seq<Operation>, outputs: seq<seq<Byte>>, q: Plain)
    decreases |ops|
  {
    if ops == [] then outputs == [] && p == q
    else
      && outputs != [] && Exists(p, ops[0])
      && outputs[0] == PlainOutput(p, ops[0])
      && PlainRun(PlainStep(p, ops[0]), ops[1..], outputs[1..], q)
  }

  /** Contents and position at the start determine what is read and what is left. */
  lemma {:induction false} PlainRunDetermined(
      p: Plain, ops: seq<Operation>, outputs: seq<seq<Byte>>, q: Plain, outputs': seq<seq<Byte>>, q': Plain)
    requires PlainRun(p, ops, outputs, q) && PlainRun(p, ops, outputs', q')
    ensures outputs == outputs' && q == q'
    decreases |ops|
  {
    hide Overwrite, Slice;
    if ops != [] {
      PlainRunDetermined(PlainStep(p, ops[0]), ops[1..], outputs[1..], q, outputs'[1..], q');
      assert outputs == [outputs[0]] + outputs[1..] && outputs' == [outputs'[0]] + outputs'[1..];
    }
  }

  /** A read is of the bytes at the position; other operations read nothing. */
  lemma PlainReads(p: Plain, size: nat, output: seq<Byte>, q: Plain)
    ensures PlainRun(p, [Reading(size)], [output], q) <==>
      && p.position + size <= |p.content| && |output| == size
      && (forall i :: 0 <= i < size ==> output[i] == p.content[p.position + i])
      && q == Plain(p.content, p.position + size)
  {
    var op := Reading(size);
    assert [op][1..] == [] && [output][1..] == [];
    if Exists(p, op) {
      var s := PlainOutput(p, op);
      assert |s| == size && forall i :: 0 <= i < size ==> s[i] == p.content[p.position + i];
    }
  }

  lemma PlainWrites(p: Plain, bytes: seq<Byte>, output: seq<Byte>, q: Plain)
    requires p.position <= |p.content|
    ensures PlainRun(p, [Writing(bytes)], [output], q) <==>
      && output == [] && q.position == p.position + |bytes|
      && |q.content| == (if q.position > |p.content| then q.position else |p.content|)
      && (forall i :: 0 <= i < |bytes| ==> q.content[p.position + i] == bytes[i])
      && (forall i :: 0 <= i < |p.content| && !(p.position <= i < q.position) ==> q.content[i] == p.content[i])
  {
    hide Overwrite;
    var op := Writing(bytes);
    var r := PlainStep(p, op);
    assert [op][1..] == [] && [output][1..] == [];
    assert PlainRun(p, [op], [output], q) <==> output == [] && q == r;
    OverwriteBytes(p.content, p.position, bytes);
    if |q.content| == |r.content| && Slice(q.content, p.position, |bytes|) == bytes {
      forall i | p.position <= i < p.position + |bytes| ensures q.content[i] == r.content[i] {
        assert q.content[i] == bytes[i - p.position] == r.content[p.position + (i - p.position)];
      }
    }
  }

  lemma PlainMoves(p: Plain, to: nat, output: seq<Byte>, q: Plain)
    ensures PlainRun(p, [Seeking(to)], [output], q) <==> output == [] && q == Plain(p.content, to)
    ensures PlainRun(p, [Flushing], [output], q) <==> output == [] && q == p
  {
    assert [Seeking(to)][1..] == [Flushing][1..] == [] && [output][1..] == [];
  }

  lemma {:induction false} PlainRunLast(p: Plain, ops: seq<Operation>, outputs: seq<seq<Byte>>, q: Plain, op: Operation)
    requires PlainRun(p, ops, outputs, q) && Exists(q, op)
    ensures PlainRun(p, ops + [op], outputs + [PlainOutput(q, op)], PlainStep(q, op))
    decreases |ops|
  {
    hide Overwrite;
    if ops == [] {
      assert PlainRun(PlainStep(q, op), [], [], PlainStep(q, op));
      assert ([] + [op])[1..] == [] && ([] + [PlainOutput(q, op)])[1..] == [];
    } else {
      assert (ops + [op])[1..] == ops[1..] + [op];
      assert (outputs + [PlainOutput(q, op)])[1..] == outputs[1..] + [PlainOutput(q, op)];
      PlainRunLast(PlainStep(p, ops[0]), ops[1..], outputs[1..], q, op);
    }
  }

  /**
   * When the cache takes part in an operation as the stream itself would: a read finds its bytes and
   * does not start inside a serving window elsewhere than at its next byte; a write continues where
   * the stream stands.
   */
  ghost predicate Agrees(c: CacheStream, op: Operation)
    requires c.Valid()
    reads c, c.stream, c.cache
  {
    match op
    case Reading(size) =>
      && c.position < |c.View()| && c.position + size <= |c.View()|
      && c.ReadPoint() == c.position && c.InStepAt(c.position)
    case Writing(_) => c.WritePoint() == c.position
    case _ => true
  }

  /**
   * After a wrap the stream may be further along than the cache believes, by as much as it was then, until
   * a read or a write brings the two together. Of that time it matters how much has been written.
   */
  datatype Drift = Settled | Unflushed(written: nat) | Flushed(written: nat)

  ghost predicate Drifted(c: CacheStream, lead: nat, d: Drift)
    reads c, c.stream
  {
    match d
    case Settled => c.Synced()
    case Unflushed(k) =>
      c.cacheDirty && c.cacheOffset == c.cacheLength == k && c.cachePosition == 0 && c.stream.position == lead
    case Flushed(k) => !c.cacheDirty && c.cacheLength == 0 && c.cachePosition == k && c.stream.position == lead + k
  }

  function DriftAfter(d: Drift, op: Operation, cacheSize: nat): Drift {
    match op
    case Reading(_) => Settled
    case Writing(bytes) =>
      if d.Unflushed? && d.written + |bytes| <= cacheSize then Unflushed(d.written + |bytes|) else Settled
    case Seeking(_) => d
    case Flushing => if d.Unflushed? then Flushed(d.written) else d
  }

  function DriftRun(d: Drift, ops: seq<Operation>, cacheSize: nat): Drift {
    if ops == [] then d
    else DriftAfter(DriftRun(d, ops[..|ops| - 1], cacheSize), ops[|ops| - 1], cacheSize)
  }

  /** What the drift means for the next refill. */
  lemma DriftMeans(c: CacheStream, lead: nat, d: Drift, p: nat)
    requires Drifted(c, lead, d)
    ensures c.InStepAt(p) <==> lead == 0 || d.Settled? || p != d.written
  {}

  method ReadBytes(c: CacheStream, size: nat) returns (output: seq<Byte>)
    requires c.Valid() && c.cache.Length > 0 && Agrees(c, Reading(size))
    modifies c, c.stream, c.cache
    ensures c.Valid() && c.View() == old(c.View()) && c.position == old(c.position) + size
    ensures c.position <= |c.View()| && output == Slice(c.View(), old(c.position), size) && c.Synced()
  {
    hide Overwrite, Slice, CacheStream.Valid, CacheStream.View;
    var buffer := new Byte[size];
    var n := c.Read(buffer, 0, size);
    output := buffer[..];
    WholeSlice(output);
  }

  method WriteBytes(c: CacheStream, bytes: seq<Byte>)
    requires c.Valid() && c.cache.Length > 0 && Agrees(c, Writing(bytes))
    modifies c, c.stream, c.cache
    ensures old(c.position) <= |old(c.View())|
    ensures c.Valid() && c.View() == Overwrite(old(c.View()), old(c.position), bytes)
    ensures c.position == old(c.position) + |bytes|
    ensures forall s: nat, d :: old(Drifted(c, s, d)) ==> Drifted(c, s, DriftAfter(d, Writing(bytes), c.cache.Length))
  {
    hide Overwrite, Slice, CacheStream.Valid, CacheStream.View;
    var buffer := new Byte[|bytes|](i requires 0 <= i < |bytes| => bytes[i]);
    assert buffer[..] == bytes;
    WholeSlice(bytes);
    var n := c.Write(buffer, 0, |bytes|);
    PendingLength(c);
  }

  lemma PendingLength(c: CacheStream)
    requires c.Valid()
    ensures c.cacheDirty ==> c.cacheLength == c.cacheOffset
  {}

  method Perform(c: CacheStream, op: Operation) returns (output: seq<Byte>)
    requires c.Valid() && c.cache.Length > 0 && Agrees(c, op)
    modifies c, c.stream, c.cache
    ensures c.Valid()
    ensures Exists(Plain(old(c.View()), old(c.position)), op)
    ensures output == PlainOutput(Plain(old(c.View()), old(c.position)), op)
    ensures Plain(c.View(), c.position) == PlainStep(Plain(old(c.View()), old(c.position)), op)
    ensures forall s: nat, d :: old(Drifted(c, s, d)) ==> Drifted(c, s, DriftAfter(d, op, c.cache.Length))
  {
    hide Overwrite, CacheStream.Valid, Slice;
    output := [];
    match op
    case Reading(size) =>
      output := ReadBytes(c, size);
    case Writing(bytes) =>
      NothingWritten(c);
      WriteBytes(c, bytes);
    case Seeking(to) =>
      c.SetPosition(to);
    case Flushing =>
      c.Flush();
  }

  /** Runs operations for as long as they agree; all that time the cache cannot be told from the stream. */
  method Session(c: CacheStream, ops: seq<Operation>) returns (outputs: seq<seq<Byte>>, done: nat)
    requires c.Valid() && c.cache.Length > 0
    modifies c, c.stream, c.cache
    ensures c.Valid() && done <= |ops|
    ensures done < |ops| ==> !Agrees(c, ops[done])
    ensures PlainRun(Plain(old(c.View()), old(c.position)), ops[..done], outputs, Plain(c.View(), c.position))
    ensures forall s: nat, d :: old(Drifted(c, s, d)) ==> Drifted(c, s, DriftRun(d, ops[..done], c.cache.Length))
  {
    hide Overwrite, Agrees, PlainStep, PlainOutput, DriftAfter, Drifted;
    ghost var start := Plain(c.View(), c.position);
    outputs, done := [], 0;
    while done < |ops|
      invariant c.Valid() && done <= |ops|
      invariant PlainRun(start, ops[..done], outputs, Plain(c.View(), c.position))
      invariant forall s: nat, d :: old(Drifted(c, s, d)) ==> Drifted(c, s, DriftRun(d, ops[..done], c.cache.Length))
    {
      var op := ops[done];
      var agrees := MayPerform(c, op);
      if !agrees {
        return;
      }
      ghost var before := Plain(c.View(), c.position);
      var output := Perform(c, op);
      PlainRunLast(start, ops[..done], outputs, before, op);
      assert ops[..done + 1] == ops[..done] + [op];
      assert ops[..done + 1][..done] == ops[..done];
      outputs := outputs + [output];
      done := done + 1;
    }
  }

  method MayPerform(c: CacheStream, op: Operation) returns (b: bool)
    requires c.Valid()
    ensures b <==> Agrees(c, op)
  {
    match op
    case Reading(size) =>
      var pending := c.stream.position + (if c.cacheDirty then c.cacheOffset else 0);
      var length := if pending <= |c.stream.content| then |c.stream.content| else pending;
      b := c.position < length && c.position + size <= length && c.ReadPoint() == c.position && c.InStepAt(c.position);
    case Writing(_) =>
      b := c.WritePoint() == c.position;
    case _ =>
      b := true;
  }

  /** Without a drift a session ends at a read only for want of bytes or for a seek into the window. */
  method SyncedSession(c: CacheStream, ops: seq<Operation>) returns (outputs: seq<seq<Byte>>, done: nat)
    requires c.Valid() && c.cache.Length > 0 && c.Synced()
    modifies c, c.stream, c.cache
    ensures c.Valid() && c.Synced() && done <= |ops|
    ensures PlainRun(Plain(old(c.View()), old(c.position)), ops[..done], outputs, Plain(c.View(), c.position))
    ensures done < |ops| && ops[done].Reading? ==>
      c.position >= |c.View()| || c.position + ops[done].size > |c.View()| || c.ReadPoint() != c.position
  {
    hide Overwrite, PlainRun, CacheStream.Valid;
    assert Drifted(c, 0, Settled);
    outputs, done := Session(c, ops);
    DriftSettled(ops[..done], c.cache.Length);
  }

  lemma {:induction false} DriftSettled(ops: seq<Operation>, cacheSize: nat)
    ensures DriftRun(Settled, ops, cacheSize) == Settled
  {
    if ops != [] {
      DriftSettled(ops[..|ops| - 1], cacheSize);
    }
  }

  /**
   * A session from a wrap at any position. Where its bytes exist and the window does not stand elsewhere, a
   * read is refused exactly if the stream was not at its start, nothing has been read, what has been
   * written has fitted the cache and followed no flush, and the position is the number of bytes written.
   */
  method WrappedSession(stream: Stream, cacheSize: nat, ops: seq<Operation>)
      returns (c: CacheStream, outputs: seq<seq<Byte>>, done: nat)
    requires stream.position <= |stream.content| && cacheSize > 0
    modifies stream
    ensures fresh(c) && c.stream == stream && c.Valid() && done <= |ops|
    ensures PlainRun(Plain(old(stream.content), old(stream.position)), ops[..done], outputs,
      Plain(c.View(), c.position))
    ensures var d := DriftRun(Unflushed(0), ops[..done], cacheSize);
      c.InStepAt(c.position) <==> old(stream.position) == 0 || d.Settled? || c.position != d.written
    ensures done < |ops| ==> !Agrees(c, ops[done])
  {
    hide Overwrite, PlainRun, CacheStream.Valid, DriftRun, Agrees;
    c := new CacheStream(stream, cacheSize);
    ghost var lead := stream.position;
    assert Drifted(c, lead, Unflushed(0));
    outputs, done := Session(c, ops);
    DriftMeans(c, lead, DriftRun(Unflushed(0), ops[..done], cacheSize), c.position);
  }
}
