/** Random access to an archive member through a library that only reads forward. */
module ZipFiles {
  import opened Basics
  import opened Endian

  /** The library's reader of one member. Less than was asked for means that the data has ended. */
  class ZipReader {
    const content: seq<Byte>
    /** A reader of a sound archive never fails. */
    const sound: bool
    var cursor: nat

    constructor (content: seq<Byte>, sound: bool)
      ensures this.content == content && this.sound == sound && cursor == 0
    {
      this.content, this.sound, cursor := content, sound, 0;
    }

    method Read(size: nat) returns (bytes: Option<seq<Byte>>)
      requires cursor <= |content|
      modifies this
      ensures cursor <= |content| && (sound ==> bytes.Some?)
      ensures bytes.Some? ==>
        cursor == Min(old(cursor) + size, |content|) && bytes.value == content[old(cursor)..cursor]
      ensures bytes.None? ==> cursor == old(cursor)
    {
      var fails: bool := *;
      if fails && !sound {
        return None;
      }
      var end := Min(cursor + size, |content|);
      bytes := Some(content[cursor..end]);
      cursor := end;
    }
  }

  // ----- A file with random access -----

  datatype Whence = Beginning | Current | End
  datatype Operation = Read(size: nat) | Seek(offset: int, whence: Whence)

  function Target(content: seq<Byte>, position: nat, offset: int, whence: Whence): int {
    offset + match whence { case Beginning => 0 case Current => position case End => |content| }
  }

  function Clamp(target: int, size: nat): (p: nat)
    ensures p <= size && (0 <= target <= size ==> p == target)
    ensures (target < 0 ==> p == 0) && (target > size ==> p == size)
  {
    if target < 0 then 0 else Min(target, size)
  }

  function PlainMove(content: seq<Byte>, position: nat, op: Operation): nat {
    match op
    case Read(size) => Min(position + size, |content|)
    case Seek(offset, whence) => Clamp(Target(content, position, offset, whence), |content|)
  }

  function PlainOutput(content: seq<Byte>, position: nat, op: Operation): seq<Byte>
    requires position <= |content|
  {
    if op.Read? then content[position..Min(position + op.size, |content|)] else []
  }

  function PlainRun(content: seq<Byte>, position: nat, ops: seq<Operation>): seq<seq<Byte>>
    requires position <= |content|
    decreases |ops|
  {
    if ops == [] then [] else
      [PlainOutput(content, position, ops[0])] + PlainRun(content, PlainMove(content, position, ops[0]), ops[1..])
  }

  function PlainEnd(content: seq<Byte>, position: nat, ops: seq<Operation>): (end: nat)
    requires position <= |content|
    ensures end <= |content|
    decreases |ops|
  {
    if ops == [] then position else PlainEnd(content, PlainMove(content, position, ops[0]), ops[1..])
  }

  lemma {:induction false} PlainRunLast(content: seq<Byte>, position: nat, ops: seq<Operation>, op: Operation)
    requires position <= |content|
    ensures PlainEnd(content, position, ops + [op]) == PlainMove(content, PlainEnd(content, position, ops), op)
    ensures PlainRun(content, position, ops + [op]) ==
      PlainRun(content, position, ops) + [PlainOutput(content, PlainEnd(content, position, ops), op)]
    decreases |ops|
  {
    if ops == [] {
      assert ops + [op] == [op];
    } else {
      assert (ops + [op])[1..] == ops[1..] + [op];
      PlainRunLast(content, PlainMove(content, position, ops[0]), ops[1..], op);
    }
  }

  // ----- The emulation -----

  class ZipFile {
    const content: seq<Byte>
    const sound: bool
    var file: ZipReader?
    var position: int

    /** Open, with the position where the reader is. */
    ghost predicate Valid()
      reads this, file
    {
      && file != null && file.content == content && file.sound == sound
      && 0 <= position == file.cursor <= |content|
    }

    constructor (content: seq<Byte>, sound: bool)
      ensures Valid() && position == 0 && this.content == content && this.sound == sound && fresh(file)
    {
      this.content, this.sound := content, sound;
      file := new ZipReader(content, sound);
      position := 0;
    }

    method ReadBytes(size: nat) returns (bytes: Option<seq<Byte>>)
      requires Valid()
      modifies this`position, file
      ensures Valid() && (sound ==> bytes.Some?)
      ensures bytes.Some? ==>
        position == (if old(position) + size <= |content| then old(position) + size else |content|)
      ensures bytes.Some? ==> bytes.value == content[old(position)..position]
      ensures bytes.Some? ==> position == PlainMove(content, old(position), Read(size))
      ensures bytes.Some? ==> bytes.value == PlainOutput(content, old(position), Read(size))
      ensures bytes.None? ==> position == old(position)
    {
      bytes := file.Read(size);
      if bytes.Some? {
        position := position + |bytes.value|;
      }
    }

    method Tell() returns (p: int)
      requires Valid()
      ensures p == position == file.cursor
    {
      p := position;
    }

    method Reopen() returns (ok: bool)
      modifies this
      ensures position == 0 && (sound ==> ok)
      ensures ok ==> Valid() && fresh(file)
      ensures !ok ==> file == null
    {
      position := 0;
      var fails: bool := *;
      ok := !fails || sound;
      if ok {
        file := new ZipReader(content, sound);
      } else {
        file := null;
      }
    }

    /**
     * Backwards by opening anew, forwards by reading at most 256 bytes at a time. A failure to read on
     * leaves the position where the reader is; a failure to open leaves no reader.
     */
    method SeekTo(offset: int, whence: Whence) returns (ok: bool)
      requires Valid()
      modifies this, file
      ensures sound ==> ok
      ensures ok && whence == Beginning ==> position == Clamp(offset, |content|)
      ensures ok && whence == Current ==> position == Clamp(old(position) + offset, |content|)
      ensures ok && whence == End ==> position == Clamp(|content| + offset, |content|)
      ensures ok ==> Valid() && position == PlainMove(content, old(position), Seek(offset, whence))
      ensures !ok ==> Valid() || (file == null && position == 0)
      ensures Valid() ==> fresh(file) || file == old(file)
    {
      var left := offset;
      match whence {
        case Beginning =>
        case Current => left := left + position;
        case End => left := left + |content|;
      }
      ghost var target := left;
      if left < position {
        ok := Reopen();
        if !ok {
          return;
        }
      } else {
        left := left - position;
      }
      while left > 0
        invariant Valid() && (fresh(file) || file == old(file))
        invariant left > 0 ==> position + left == target
        invariant left <= 0 ==> position == Clamp(target, |content|)
      {
        var size := Min(0x100, left);
        var bytes := file.Read(size);
        if bytes.None? {
          return false;
        }
        position := position + |bytes.value|;
        if |bytes.value| < size {
          break;
        }
        left := left - |bytes.value|;
      }
      ok := true;
    }

    /** Any run of operations gives what it does with random access, as long as the library does not fail. */
    method Run(ops: seq<Operation>) returns (outputs: seq<seq<Byte>>, ok: bool)
      requires Valid()
      modifies this, file
      ensures sound ==> ok
      ensures ok ==> Valid() && outputs == PlainRun(content, old(position), ops)
      ensures ok ==> position == PlainEnd(content, old(position), ops)
    {
      outputs := [];
      var i := 0;
      assert ops[..0] == [];
      while i < |ops|
        invariant 0 <= i <= |ops| && Valid() && (fresh(file) || file == old(file))
        invariant outputs == PlainRun(content, old(position), ops[..i])
        invariant position == PlainEnd(content, old(position), ops[..i])
      {
        assert ops[..i + 1] == ops[..i] + [ops[i]];
        PlainRunLast(content, old(position), ops[..i], ops[i]);
        match ops[i] {
          case Read(size) =>
            var bytes := ReadBytes(size);
            if bytes.None? {
              return outputs, false;
            }
            outputs := outputs + [bytes.value];
          case Seek(offset, whence) =>
            ok := SeekTo(offset, whence);
            if !ok {
              return;
            }
            outputs := outputs + [[]];
        }
        i := i + 1;
      }
      assert ops[..i] == ops;
      ok := true;
    }
  }
}
