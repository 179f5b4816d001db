/** Streams over memory, and the reader and writer of fixed-size values on top of them. */
module Streams {
  import opened Endian

  /** The data after writing some bytes over it from a position on. */
  function Overwrite(data: seq<Byte>, position: nat, bytes: seq<Byte>): seq<Byte>
    requires position <= |data|
  {
    data[..position] + bytes + (if position + |bytes| <= |data| then data[position + |bytes|..] else [])
  }

  /** As long as needed, with the bytes where they were to go and everything else as it was. */
  lemma OverwriteBytes(data: seq<Byte>, position: nat, bytes: seq<Byte>)
    requires position <= |data|
    ensures var r := Overwrite(data, position, bytes);
      && |r| == (if position + |bytes| <= |data| then |data| else position + |bytes|)
      && (forall i :: 0 <= i < |bytes| ==> r[position + i] == bytes[i])
      && (forall i :: 0 <= i < |data| && !(position <= i < position + |bytes|) ==> r[i] == data[i])
  {}

  lemma OverwriteNothing(data: seq<Byte>, position: nat)
    requires position <= |data|
    ensures Overwrite(data, position, []) == data
  {}

  lemma OverwriteTwice(data: seq<Byte>, position: nat, a: seq<Byte>, b: seq<Byte>)
    requires position <= |data|
    ensures position + |a| <= |Overwrite(data, position, a)|
    ensures Overwrite(Overwrite(data, position, a), position + |a|, b) == Overwrite(data, position, a + b)
  {
    var d := Overwrite(data, position, a);
    assert d[..position + |a|] == data[..position] + a;
    if position + |a| + |b| <= |data| {
      assert d[position + |a| + |b|..] == data[position + |a| + |b|..];
    }
  }

  datatype ReadResult<T> = Success(value: T) | EndOfStream

  class MemoryStream {
    var data: seq<Byte>
    var position: nat

    ghost predicate Valid()
      reads this
    {
      position <= |data|
    }

    ghost function Remaining(): seq<Byte>
      requires Valid()
      reads this
    {
      data[position..]
    }

    constructor (contents: seq<Byte>)
      ensures Valid() && data == contents && position == 0
    {
      data, position := contents, 0;
    }

    method Read(size: nat) returns (bytes: seq<Byte>)
      requires Valid()
      modifies this`position
      ensures Valid()
      ensures bytes == old(Remaining())[..if size <= |old(Remaining())| then size else |old(Remaining())|]
      ensures position == old(position) + |bytes|
    {
      var n := if size <= |data| - position then size else |data| - position;
      bytes := data[position..position + n];
      position := position + n;
    }

    /** Behind the end of the data there is first a gap of whatever the memory held. */
    method Write(bytes: seq<Byte>)
      modifies this
      ensures Valid() && position == old(position) + |bytes|
      ensures old(Valid()) ==> data == Overwrite(old(data), old(position), bytes)
      ensures |data| == if position <= |old(data)| then |old(data)| else position
      ensures forall i :: 0 <= i < |bytes| ==> data[old(position) + i] == bytes[i]
      ensures forall i :: 0 <= i < |old(data)| && !(old(position) <= i < position) ==> data[i] == old(data)[i]
      ensures !old(Valid()) ==> |data| == position && data[..|old(data)|] == old(data) && data[old(position)..] == bytes
    {
      if position <= |data| {
        data := Overwrite(data, position, bytes);
      } else {
        ghost var zeros: seq<Byte> := seq(position - |data|, _ => 0);
        assert |zeros| == position - |data|;
        var gap :| |gap| == position - |data|;
        data := data + gap + bytes;
      }
      position := position + |bytes|;
    }

    // ----- StreamReader -----

    /** A short read is an end of stream; the bytes that were there are gone all the same. */
    method ReadBytes(size: nat) returns (r: ReadResult<seq<Byte>>)
      requires Valid()
      modifies this`position
      ensures Valid() && position >= old(position)
      ensures size <= |old(Remaining())| ==>
        r == Success(old(Remaining())[..size]) && Remaining() == old(Remaining())[size..]
      ensures size > |old(Remaining())| ==> r == EndOfStream
    {
      var bytes := Read(size);
      r := if |bytes| == size then Success(bytes) else EndOfStream;
    }

    method ReadInt32(littleMachine: bool) returns (r: ReadResult<U32>)
      requires Valid()
      modifies this`position
      ensures Valid() && position >= old(position)
      ensures 4 <= |old(Remaining())| ==>
        r == Success(Load(false, old(Remaining())[..4])) && Remaining() == old(Remaining())[4..]
      ensures 4 > |old(Remaining())| ==> r == EndOfStream
    {
      var bytes := ReadBytes(4);
      if bytes.EndOfStream? {
        return EndOfStream;
      }
      BigEndianLoad(littleMachine, bytes.value);
      r := Success(ReadBE32(littleMachine, bytes.value));
    }

    // ----- StreamWriter -----

    method WriteInt32(littleMachine: bool, value: U32)
      requires Valid()
      modifies this
      ensures Valid()
      ensures data == Overwrite(old(data), old(position), Store(false, value))
      ensures position == old(position) + 4
    {
      BigEndianEverywhere(littleMachine, value);
      Write(WriteBE32(littleMachine, value));
    }
  }

  lemma BigEndianLoad(littleMachine: bool, b: seq<Byte>)
    requires |b| == 4
    ensures ReadBE32(littleMachine, b) == Load(false, b)
  {
    DigitsOfDigits(b[0], b[1], b[2], b[3]);
  }
}
