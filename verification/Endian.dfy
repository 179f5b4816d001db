/** Byte order: how 32-bit integers go into and come out of four bytes on either kind of machine. */
module Endian {

  type Byte = x: int | 0 <= x < 0x100

  type U32 = x: int | 0 <= x < 0x1_0000_0000

  /** The integer with the given digits to base 256, lowest first. */
  function Digits(a: Byte, b: Byte, c: Byte, d: Byte): U32 {
    (a as int) + 0x100 * (b as int) + 0x1_0000 * (c as int) + 0x100_0000 * (d as int)
  }

  /** What the four bytes are worth when the machine loads them as they lie in memory. */
  function Load(littleMachine: bool, b: seq<Byte>): U32
    requires |b| == 4
  {
    if littleMachine then Digits(b[0], b[1], b[2], b[3]) else Digits(b[3], b[2], b[1], b[0])
  }

  function Store(littleMachine: bool, v: U32): (b: seq<Byte>)
    ensures |b| == 4
  {
    if littleMachine then [v % 0x100, v / 0x100 % 0x100, v / 0x1_0000 % 0x100, v / 0x100_0000]
    else [v / 0x100_0000, v / 0x1_0000 % 0x100, v / 0x100 % 0x100, v % 0x100]
  }

  function Swap32(v: U32): U32 {
    Digits(v / 0x100_0000, v / 0x1_0000 % 0x100, v / 0x100 % 0x100, v % 0x100)
  }

  function ReadBE32(littleMachine: bool, b: seq<Byte>): U32
    requires |b| == 4
  {
    if littleMachine then Swap32(Load(true, b)) else Load(false, b)
  }

  function WriteBE32(littleMachine: bool, v: U32): (b: seq<Byte>)
    ensures |b| == 4
  {
    if littleMachine then Store(true, Swap32(v)) else Store(false, v)
  }

  lemma DigitsOfDigits(a: Byte, b: Byte, c: Byte, d: Byte)
    ensures var v := Digits(a, b, c, d);
      v % 0x100 == a && v / 0x100 % 0x100 == b && v / 0x1_0000 % 0x100 == c && v / 0x100_0000 == d
  {
    var v := Digits(a, b, c, d);
    assert v / 0x100 == (b as int) + 0x100 * (c as int) + 0x1_0000 * (d as int);
    assert v / 0x1_0000 == (c as int) + 0x100 * (d as int);
  }

  lemma DigitsSum(v: U32)
    ensures Digits(v % 0x100, v / 0x100 % 0x100, v / 0x1_0000 % 0x100, v / 0x100_0000) == v
  {
    assert v / 0x1_0000 == (v / 0x100) / 0x100 && v / 0x100_0000 == (v / 0x1_0000) / 0x100;
  }

  /** Either machine writes the most significant byte first and reads it back. */
  lemma BigEndianEverywhere(littleMachine: bool, v: U32)
    ensures WriteBE32(littleMachine, v) == Store(false, v)
    ensures ReadBE32(littleMachine, Store(false, v)) == v
  {
    DigitsSum(v);
    DigitsOfDigits(v / 0x100_0000, v / 0x1_0000 % 0x100, v / 0x100 % 0x100, v % 0x100);
  }

  function ReadLE32(littleMachine: bool, b: seq<Byte>): U32
    requires |b| == 4
  {
    if littleMachine then Load(true, b) else Swap32(Load(false, b))
  }

  lemma LittleEndianEverywhere(littleMachine: bool, b: seq<Byte>)
    requires |b| == 4
    ensures ReadLE32(littleMachine, b) == Load(true, b)
  {
    DigitsOfDigits(b[3], b[2], b[1], b[0]);
  }

  /** Either machine has the four digits to base 256 in order, the highest first or the lowest first. */
  lemma FourDigits(littleMachine: bool, a: Byte, b: Byte, c: Byte, d: Byte)
    ensures var v: U32 := 0x100_0000 * (a as int) + 0x1_0000 * (b as int) + 0x100 * (c as int) + (d as int);
      && WriteBE32(littleMachine, v) == [a, b, c, d] && ReadBE32(littleMachine, [a, b, c, d]) == v
      && ReadLE32(littleMachine, [d, c, b, a]) == v
  {
    hide WriteBE32, ReadBE32, ReadLE32;
    var v := Digits(d, c, b, a);
    DigitsOfDigits(d, c, b, a);
    assert Store(false, v) == [a, b, c, d];
    BigEndianEverywhere(littleMachine, v);
    LittleEndianEverywhere(littleMachine, [d, c, b, a]);
  }

  // ----- Numbers of any width, as a machine stores them -----

  /** The value of some bytes, the lowest first. */
  function LowestFirst(b: seq<Byte>): nat {
    if b == [] then 0 else (b[0] as int) + 0x100 * LowestFirst(b[1..])
  }

  function Reversed(b: seq<Byte>): (r: seq<Byte>)
    ensures |r| == |b|
  {
    if b == [] then [] else Reversed(b[1..]) + [b[0]]
  }

  /** What the bytes are worth to a machine. */
  function Worth(littleMachine: bool, b: seq<Byte>): nat {
    if littleMachine then LowestFirst(b) else LowestFirst(Reversed(b))
  }

  lemma {:induction false} NumberInjective(a: seq<Byte>, b: seq<Byte>)
    requires |a| == |b| && LowestFirst(a) == LowestFirst(b)
    ensures a == b
  {
    if a != [] {
      LowestByte(a[0], LowestFirst(a[1..]));
      LowestByte(b[0], LowestFirst(b[1..]));
      NumberInjective(a[1..], b[1..]);
      assert a == [a[0]] + a[1..] && b == [b[0]] + b[1..];
    }
  }

  lemma LowestByte(x: Byte, n: nat)
    ensures ((x as int) + 0x100 * n) % 0x100 == x && ((x as int) + 0x100 * n) / 0x100 == n
  {}

  /** The same bytes are worth the same on both kinds of machine exactly if they read alike from both ends. */
  lemma WorthSameIff(b: seq<Byte>)
    ensures Worth(true, b) == Worth(false, b) <==> b == Reversed(b)
  {
    if Worth(true, b) == Worth(false, b) {
      NumberInjective(b, Reversed(b));
    }
  }

  /** For four bytes that is what loading them gives. */
  lemma WorthIsLoad(littleMachine: bool, b: seq<Byte>)
    requires |b| == 4
    ensures Worth(littleMachine, b) == Load(littleMachine, b)
  {
    hide LowestFirst;
    NumberOfFour(b);
    assert Reversed(b[2..]) == [b[3], b[2]];
    assert Reversed(b) == [b[3], b[2], b[1], b[0]] by {
      assert b[1..][1..] == b[2..];
    }
    NumberOfFour(Reversed(b));
  }

  lemma NumberOfFour(b: seq<Byte>)
    requires |b| == 4
    ensures LowestFirst(b) == Digits(b[0], b[1], b[2], b[3])
  {
    assert LowestFirst(b[3..]) == b[3];
    assert b[2..][1..] == b[3..] && b[1..][1..] == b[2..];
    assert LowestFirst(b[2..]) == (b[2] as int) + 0x100 * LowestFirst(b[3..]);
    assert LowestFirst(b[1..]) == (b[1] as int) + 0x100 * LowestFirst(b[2..]);
  }
}
