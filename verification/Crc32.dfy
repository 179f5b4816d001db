/** Folds and iteration over an arbitrary state, with the laws that the register inherits. */
module Folds {

  function Iterate<S>(f: S -> S, k: nat, s: S): S {
    if k == 0 then s else Iterate(f, k - 1, f(s))
  }

  function Fold<S, E>(f: (S, E) -> S, s: S, es: seq<E>): S
    decreases |es|
  {
    if es == [] then s else Fold(f, f(s, es[0]), es[1..])
  }

  lemma {:induction false} IterateHomomorphism<S(!new)>(f: S -> S, op: (S, S) -> S, k: nat, s: S, t: S)
    requires forall a, b :: f(op(a, b)) == op(f(a), f(b))
    ensures Iterate(f, k, op(s, t)) == op(Iterate(f, k, s), Iterate(f, k, t))
  {
    if k > 0 {
      IterateHomomorphism(f, op, k - 1, f(s), f(t));
    }
  }

  lemma {:induction false} IterateInjective<S(!new)>(f: S -> S, k: nat, s: S, t: S)
    requires forall a, b :: f(a) == f(b) ==> a == b
    requires Iterate(f, k, s) == Iterate(f, k, t)
    ensures s == t
  {
    if k > 0 {
      IterateInjective(f, k - 1, f(s), f(t));
    }
  }

  lemma {:induction false} IterateSum<S>(f: S -> S, j: nat, k: nat, s: S)
    ensures Iterate(f, j + k, s) == Iterate(f, k, Iterate(f, j, s))
  {
    if j > 0 {
      IterateSum(f, j - 1, k, f(s));
    }
  }

  lemma IterateUpToEight<S>(f: S -> S, s: S)
    ensures Iterate(f, 0, s) == s && Iterate(f, 1, s) == f(s)
    ensures Iterate(f, 2, s) == f(f(s)) && Iterate(f, 3, s) == f(f(f(s)))
    ensures var t := f(f(f(f(s))));
      Iterate(f, 4, s) == t && Iterate(f, 5, s) == f(t) && Iterate(f, 6, s) == f(f(t))
      && Iterate(f, 7, s) == f(f(f(t))) && Iterate(f, 8, s) == f(f(f(f(t))))
  {
    var t := f(f(f(f(s))));
    assert Iterate(f, 1, t) == f(t) && Iterate(f, 2, t) == f(f(t)) && Iterate(f, 3, t) == f(f(f(t)));
    assert Iterate(f, 4, t) == f(f(f(f(t))));
    IterateSum(f, 4, 1, s);
    IterateSum(f, 4, 2, s);
    IterateSum(f, 4, 3, s);
    IterateSum(f, 4, 4, s);
  }

  lemma ObserveEight<S>(f: S -> S, p: S -> bool, s: S, seen: seq<bool>)
    requires var t := f(f(f(f(s))));
      seen == [p(s), p(f(s)), p(f(f(s))), p(f(f(f(s)))), p(t), p(f(t)), p(f(f(t))), p(f(f(f(t))))]
    ensures forall j :: 0 <= j < 8 ==> seen[j] == p(Iterate(f, j, s))
  {
    IterateUpToEight(f, s);
    forall j | 0 <= j < 8 ensures seen[j] == p(Iterate(f, j, s)) {
      assert j == 0 || j == 1 || j == 2 || j == 3 || j == 4 || j == 5 || j == 6 || j == 7;
    }
  }

  lemma {:induction false} FoldConcat<S, E>(f: (S, E) -> S, s: S, a: seq<E>, b: seq<E>)
    ensures Fold(f, s, a + b) == Fold(f, Fold(f, s, a), b)
    decreases |a|
  {
    if a == [] {
      assert a + b == b;
    } else {
      assert (a + b)[0] == a[0] && (a + b)[1..] == a[1..] + b;
      FoldConcat(f, f(s, a[0]), a[1..], b);
    }
  }

  lemma {:induction false} FoldInjective<S(!new), E(!new)>(f: (S, E) -> S, s: S, t: S, es: seq<E>)
    requires forall a, b, e :: f(a, e) == f(b, e) ==> a == b
    requires Fold(f, s, es) == Fold(f, t, es)
    ensures s == t
    decreases |es|
  {
    if es != [] {
      FoldInjective(f, f(s, es[0]), f(t, es[0]), es[1..]);
    }
  }
}

/** The table-driven CRC32 hash, the bit-at-a-time division it implements, and the errors it detects. */
module Crc32 {
  import opened Folds

  /** The generator polynomial with the coefficient of the highest power in the lowest bit. */
  const POLYNOMIAL: bv32 := 0xedb88320

  const ALL_ONES: bv32 := 0xffffffff

  // ----- Machine words; the proofs below use only the laws stated with them -----

  function Xor(x: bv32, y: bv32): bv32 {
    x ^ y
  }

  function Half(x: bv32): bv32 {
    x >> 1
  }

  predicate Odd(x: bv32) {
    x & 1 == 1
  }

  /** The word without its low byte, moved down. */
  function HighBytes(x: bv32): bv32 {
    x >> 8
  }

  function LowByte(x: bv32): bv8 {
    (x & 0xff) as bv8
  }

  function Word(b: bv8): bv32 {
    b as bv32
  }

  function Byte(i: nat): bv8
    requires i < 256
  {
    i as bv8
  }

  // ----- Reference: long division of the message, one bit at a time -----

  /** The bits of a byte in transmission order, least significant first. */
  function Bits(b: bv8): seq<bool> {
    [b & 0x01 != 0, b & 0x02 != 0, b & 0x04 != 0, b & 0x08 != 0,
     b & 0x10 != 0, b & 0x20 != 0, b & 0x40 != 0, b & 0x80 != 0]
  }

  function MessageBits(data: seq<bv8>): seq<bool> {
    if data == [] then [] else Bits(data[0]) + MessageBits(data[1..])
  }

  /** Brings one message bit down into the remainder and subtracts the divisor if it goes. */
  function DivideBit(remainder: bv32, bit: bool): bv32 {
    if Odd(remainder) != bit then Xor(Half(remainder), POLYNOMIAL) else Half(remainder)
  }

  function Divide(remainder: bv32, bits: seq<bool>): bv32 {
    Fold(DivideBit, remainder, bits)
  }

  /** The hash of section 8 of RFC 1952: ones in, divide, complement out. */
  function Crc(data: seq<bv8>): bv32 {
    Xor(Divide(ALL_ONES, MessageBits(data)), ALL_ONES)
  }

  // ----- The shift register and its table -----

  /** One step of the register with no message bit coming in. */
  function BitStep(n: bv32): bv32 {
    Xor(Half(n), if Odd(n) then POLYNOMIAL else 0)
  }

  function Steps(k: nat, n: bv32): bv32 {
    Iterate(BitStep, k, n)
  }

  /** The table entry for a byte: what eight register steps make of it. */
  function Entry(b: bv8): bv32 {
    Steps(8, Word(b))
  }

  class CRC32 {
    const table: array<bv32>

    ghost predicate Valid()
      reads table
    {
      table.Length == 256 && forall j :: 0 <= j < 256 ==> table[j] == Entry(Byte(j))
    }

    constructor ()
      ensures Valid() && fresh(table)
    {
      hide BitStep, Word, Byte;
      var t := new bv32[256];
      var i := 0;
      while i < 256
        invariant 0 <= i <= 256
        invariant forall j :: 0 <= j < i ==> t[j] == Entry(Byte(j))
      {
        var n := Word(Byte(i));
        var k := 0;
        while k < 8
          invariant 0 <= k <= 8
          invariant Steps(8 - k, n) == Entry(Byte(i))
        {
          n := BitStep(n);
          k := k + 1;
        }
        t[i] := n;
        i := i + 1;
      }
      table := t;
    }

    method Preprocess() returns (hash: bv32)
      ensures hash == ALL_ONES
    {
      hash := 0xffffffff;
    }

    method Process(hash: bv32, data: seq<bv8>) returns (value: bv32)
      requires Valid()
      ensures value == Divide(hash, MessageBits(data))
    {
      hide Xor, HighBytes, LowByte, Word, Bits, DivideBit, BitStep;
      value := hash;
      var i := 0;
      while i < |data|
        invariant 0 <= i <= |data|
        invariant Divide(value, MessageBits(data[i..])) == Divide(hash, MessageBits(data))
      {
        var index := LowByte(Xor(value, Word(data[i])));
        IndexRoundTrip(index);
        var next := Xor(HighBytes(value), table[index as int]);
        DivideByte(value, data[i]);
        DivideTail(value, data, i, next);
        value := next;
        i := i + 1;
      }
    }

    method Postprocess(hash: bv32) returns (value: bv32)
      ensures value == Xor(hash, ALL_ONES)
    {
      value := Xor(hash, 0xffffffff);
    }

    /** The bits of the hash are those of the remainder, complemented, the highest power first. */
    method ComputeHash(data: seq<bv8>) returns (hash: bv32)
      requires Valid()
      ensures hash == Crc(data)
      ensures |Remainder(Complemented(MessageBits(data)))| == 32
      ensures forall i: nat :: i < 32 ==> Bit(hash, i) == !Remainder(Complemented(MessageBits(data)))[i]
    {
      hide Bit, Remainder, MessageBits, Complemented, Xor;
      CrcIsRemainder(data);
      hash := Preprocess();
      hash := Process(hash, data);
      hash := Postprocess(hash);
    }
  }

  lemma IndexRoundTrip(b: bv8)
    ensures 0 <= b as int < 256 && Byte(b as int) == b
  {}

  lemma DivideTail(s: bv32, data: seq<bv8>, i: nat, next: bv32)
    requires i < |data|
    requires next == Divide(s, Bits(data[i]))
    ensures Divide(next, MessageBits(data[i + 1..])) == Divide(s, MessageBits(data[i..]))
  {
    hide Bits, DivideBit;
    assert data[i..][0] == data[i] && data[i..][1..] == data[i + 1..];
    FoldConcat(DivideBit, s, Bits(data[i]), MessageBits(data[i + 1..]));
  }

  // ----- Laws of machine words -----

  lemma XorCommutes(x: bv32, y: bv32)
    ensures Xor(x, y) == Xor(y, x)
  {}

  lemma XorAssociates(x: bv32, y: bv32, z: bv32)
    ensures Xor(Xor(x, y), z) == Xor(x, Xor(y, z))
  {}

  lemma XorZero(x: bv32)
    ensures Xor(x, x) == 0 && Xor(x, 0) == x && Xor(0, x) == x
  {}

  lemma HalfXor(x: bv32, y: bv32)
    ensures Half(Xor(x, y)) == Xor(Half(x), Half(y))
    ensures Odd(Xor(x, y)) == (Odd(x) != Odd(y))
  {
    hide Xor, Half, Odd;
    HalfOfXor(x, y);
    OddOfXor(x, y);
  }

  lemma HalfOfXor(x: bv32, y: bv32)
    ensures Half(Xor(x, y)) == Xor(Half(x), Half(y))
  {}

  lemma OddOfXor(x: bv32, y: bv32)
    ensures Odd(Xor(x, y)) == (Odd(x) != Odd(y))
  {}

  /** Xor may be cancelled on either side. */
  lemma XorCancel(x: bv32, y: bv32, z: bv32)
    requires Xor(x, z) == Xor(y, z) || Xor(z, x) == Xor(z, y)
    ensures x == y
  {}

  lemma XorFour(a: bv32, b: bv32, c: bv32, d: bv32)
    ensures Xor(Xor(a, b), Xor(c, d)) == Xor(Xor(a, c), Xor(b, d))
  {
    hide Xor;
    XorAssociates(a, b, Xor(c, d));
    XorAssociates(b, c, d);
    XorCommutes(b, c);
    XorAssociates(c, b, d);
    XorAssociates(a, c, Xor(b, d));
  }

  // ----- The register is linear and loses nothing -----

  lemma BitStepLinear(x: bv32, y: bv32)
    ensures BitStep(Xor(x, y)) == Xor(BitStep(x), BitStep(y))
  {
    hide Xor, Half, Odd;
    var p := if Odd(x) then POLYNOMIAL else 0;
    var q := if Odd(y) then POLYNOMIAL else 0;
    HalfXor(x, y);
    XorZero(POLYNOMIAL);
    XorZero(0);
    XorFour(Half(x), p, Half(y), q);
  }

  /** The bit that falls out decides the highest bit that comes in, so no step loses anything. */
  lemma BitStepInjective(x: bv32, y: bv32)
    requires BitStep(x) == BitStep(y)
    ensures x == y
  {}

  lemma StepsLinear(k: nat, x: bv32, y: bv32)
    ensures Steps(k, Xor(x, y)) == Xor(Steps(k, x), Steps(k, y))
  {
    hide Xor, BitStep;
    forall a, b ensures BitStep(Xor(a, b)) == Xor(BitStep(a), BitStep(b)) {
      BitStepLinear(a, b);
    }
    IterateHomomorphism(BitStep, Xor, k, x, y);
  }

  lemma StepsInjective(k: nat, x: bv32, y: bv32)
    requires Steps(k, x) == Steps(k, y)
    ensures x == y
  {
    hide BitStep;
    forall a, b | BitStep(a) == BitStep(b) ensures a == b {
      BitStepInjective(a, b);
    }
    IterateInjective(BitStep, k, x, y);
  }

  lemma EightHalves(x: bv32)
    requires LowByte(x) == 0
    ensures !Odd(x) && !Odd(Half(x)) && !Odd(Half(Half(x))) && !Odd(Half(Half(Half(x))))
    ensures var y := Half(Half(Half(Half(x))));
      !Odd(y) && !Odd(Half(y)) && !Odd(Half(Half(y))) && !Odd(Half(Half(Half(y))))
      && Half(Half(Half(Half(y)))) == HighBytes(x)
  {}

  /** With a clear low byte, eight steps are a plain shift. */
  lemma ShiftOut(x: bv32)
    requires LowByte(x) == 0
    ensures Steps(8, x) == HighBytes(x)
  {
    hide Xor, Half, Odd, HighBytes, LowByte;
    EightHalves(x);
    var y := Half(Half(Half(Half(x))));
    forall n | !Odd(n) ensures BitStep(n) == Half(n) {
      XorZero(Half(n));
    }
    IterateUpToEight(BitStep, x);
    assert BitStep(BitStep(BitStep(BitStep(x)))) == y;
  }

  // ----- Process is division -----

  /** Feeding message bits one by one is the same as xoring them all in first and then stepping. */
  lemma Absorb(s: bv32, w: bv32)
    ensures Xor(DivideBit(s, Odd(w)), Half(w)) == BitStep(Xor(s, w))
  {
    hide Xor, Half, Odd;
    HalfXor(s, w);
    XorZero(Xor(Half(s), Half(w)));
    XorAssociates(Half(s), POLYNOMIAL, Half(w));
    XorAssociates(Half(s), Half(w), POLYNOMIAL);
    XorCommutes(POLYNOMIAL, Half(w));
  }

  /** Message bits are absorbed as they come, so absorbing the whole word first changes nothing. */
  lemma {:induction false} AbsorbAll(s: bv32, w: bv32, bits: seq<bool>)
    requires forall j :: 0 <= j < |bits| ==> bits[j] == Odd(Iterate(Half, j, w))
    ensures Xor(Divide(s, bits), Iterate(Half, |bits|, w)) == Steps(|bits|, Xor(s, w))
    decreases |bits|
  {
    hide Xor, Half, Odd, BitStep, DivideBit;
    if bits != [] {
      assert bits[0] == Odd(Iterate(Half, 0, w));
      Absorb(s, w);
      forall j | 0 <= j < |bits[1..]| ensures bits[1..][j] == Odd(Iterate(Half, j, Half(w))) {
        assert bits[1..][j] == bits[j + 1];
        assert Iterate(Half, j + 1, w) == Iterate(Half, j, Half(w));
      }
      AbsorbAll(DivideBit(s, bits[0]), Half(w), bits[1..]);
    }
  }

  lemma ByteHalves(b: bv8)
    ensures var w := Word(b); var v := Half(Half(Half(Half(w))));
      Bits(b) == [Odd(w), Odd(Half(w)), Odd(Half(Half(w))), Odd(Half(Half(Half(w)))),
                  Odd(v), Odd(Half(v)), Odd(Half(Half(v))), Odd(Half(Half(Half(v))))]
      && Half(Half(Half(Half(v)))) == 0
  {}

  lemma DivideByteIsSteps(s: bv32, b: bv8)
    ensures Divide(s, Bits(b)) == Steps(8, Xor(s, Word(b)))
  {
    hide Xor, Half, Odd, BitStep, DivideBit, Word, Bits;
    var w := Word(b);
    var v := Half(Half(Half(Half(w))));
    ByteHalves(b);
    IterateUpToEight(Half, w);
    ObserveEight(Half, Odd, w, Bits(b));
    AbsorbAll(s, w, Bits(b));
    XorZero(Divide(s, Bits(b)));
  }

  lemma SplitLowByte(x: bv32)
    ensures x == Xor(x & 0xffffff00, Word(LowByte(x)))
    ensures LowByte(x & 0xffffff00) == 0 && HighBytes(x & 0xffffff00) == HighBytes(x)
  {}

  lemma HighBytesKeep(s: bv32, b: bv8)
    ensures HighBytes(Xor(s, Word(b))) == HighBytes(s)
  {}

  /** The table lookup: eight divisions in one, for every register and byte. */
  lemma DivideByte(s: bv32, b: bv8)
    ensures Divide(s, Bits(b)) == Xor(HighBytes(s), Entry(LowByte(Xor(s, Word(b)))))
  {
    hide Xor, HighBytes, LowByte, Word, Bits, DivideBit, BitStep;
    var x := Xor(s, Word(b));
    DivideByteIsSteps(s, b);
    SplitLowByte(x);
    StepsLinear(8, x & 0xffffff00, Word(LowByte(x)));
    ShiftOut(x & 0xffffff00);
    HighBytesKeep(s, b);
  }

  // ----- The register holds a polynomial remainder -----

  /** Coefficient of x^(31-i) of the polynomial that a reflected register stands for. */
  predicate Bit(x: bv32, i: nat) {
    Odd(Iterate(Half, i, x))
  }

  /** The register as a polynomial of degree below 32, highest power first. */
  function RegisterBits(x: bv32): seq<bool> {
    seq(32, i requires 0 <= i < 32 => Bit(x, i))
  }

  /** x^32+x^26+x^23+x^22+x^16+x^12+x^11+x^10+x^8+x^7+x^5+x^4+x^2+x+1, as its powers. */
  const GENERATOR: set<nat> := {32, 26, 23, 22, 16, 12, 11, 10, 8, 7, 5, 4, 2, 1, 0}

  /** Schoolbook long division over GF(2); a dividend lists its coefficients, highest power first. */
  function Remainder(dividend: seq<bool>): seq<bool>
    decreases |dividend|
  {
    if |dividend| <= 32 then dividend
    else Remainder(seq(|dividend| - 1, i requires 0 <= i < |dividend| - 1 =>
      dividend[i + 1] != (dividend[0] && i < 32 && 31 - i in GENERATOR)))
  }

  /** The message times x^32, with the register's contents added to its leading coefficients. */
  function Dividend(register: bv32, bits: seq<bool>): seq<bool> {
    seq(|bits| + 32, i requires 0 <= i < |bits| + 32 =>
      (i < 32 && Bit(register, i)) != (i < |bits| && bits[i]))
  }

  lemma {:induction false} BitXor(x: bv32, y: bv32, i: nat)
    ensures Bit(Xor(x, y), i) == (Bit(x, i) != Bit(y, i))
    decreases i
  {
    hide Xor, Half, Odd;
    HalfXor(x, y);
    if i > 0 {
      BitXor(Half(x), Half(y), i - 1);
    }
  }

  lemma HalvesOfLowByte(x: bv32)
    ensures var y := Half(Half(Half(Half(x))));
      Bits(LowByte(x)) == [Odd(x), Odd(Half(x)), Odd(Half(Half(x))), Odd(Half(Half(Half(x)))),
                           Odd(y), Odd(Half(y)), Odd(Half(Half(y))), Odd(Half(Half(Half(y))))]
      && Half(Half(Half(Half(y)))) == HighBytes(x)
  {}

  lemma BitOfLowByte(x: bv32, i: nat)
    requires i < 8
    ensures Bit(x, i) == Bits(LowByte(x))[i]
  {
    hide Half, Odd, Bits, LowByte, HighBytes;
    HalvesOfLowByte(x);
    ObserveEight(Half, Odd, x, Bits(LowByte(x)));
  }

  lemma BitOfHighBytes(x: bv32, i: nat)
    ensures Bit(x, 8 + i) == Bit(HighBytes(x), i)
  {
    hide Half, Odd, Bits, LowByte, HighBytes;
    HalvesOfLowByte(x);
    IterateUpToEight(Half, x);
    IterateSum(Half, 8, i, x);
  }

  lemma FourBytes(x: bv32, i: nat)
    requires i < 32
    ensures Bit(x, i) == (if i < 8 then Bits(LowByte(x))[i]
      else if i < 16 then Bits(LowByte(HighBytes(x)))[i - 8]
      else if i < 24 then Bits(LowByte(HighBytes(HighBytes(x))))[i - 16]
      else Bits(LowByte(HighBytes(HighBytes(HighBytes(x)))))[i - 24])
  {
    hide Bit, Bits, LowByte, HighBytes;
    if i < 8 {
      BitOfLowByte(x, i);
    } else {
      var y := HighBytes(x);
      BitOfHighBytes(x, i - 8);
      if i < 16 {
        BitOfLowByte(y, i - 8);
      } else {
        var z := HighBytes(y);
        BitOfHighBytes(y, i - 16);
        if i < 24 {
          BitOfLowByte(z, i - 16);
        } else {
          BitOfHighBytes(z, i - 24);
          BitOfLowByte(HighBytes(z), i - 24);
        }
      }
    }
  }

  lemma PolynomialBytes()
    ensures Bits(LowByte(POLYNOMIAL)) == [false, false, false, false, false, true, false, false]
    ensures Bits(LowByte(HighBytes(POLYNOMIAL))) == [true, true, false, false, false, false, false, true]
    ensures Bits(LowByte(HighBytes(HighBytes(POLYNOMIAL))))
         == [false, false, false, true, true, true, false, true]
    ensures Bits(LowByte(HighBytes(HighBytes(HighBytes(POLYNOMIAL)))))
         == [true, false, true, true, false, true, true, true]
  {}

  /** The constant in the code is the standard generator, reflected and without its leading term. */
  lemma GeneratorBit(i: nat)
    requires i < 32
    ensures Bit(POLYNOMIAL, i) <==> 31 - i in GENERATOR
    ensures 32 in GENERATOR && forall k <- GENERATOR :: k <= 32
  {
    PolynomialBytes();
    FourBytes(POLYNOMIAL, i);
  }

  lemma NothingAbove(x: bv32)
    ensures !Bit(x, 32)
  {
    hide Bit;
    BitOfHighBytes(x, 24);
    BitOfHighBytes(HighBytes(x), 16);
    BitOfHighBytes(HighBytes(HighBytes(x)), 8);
    BitOfHighBytes(HighBytes(HighBytes(HighBytes(x))), 0);
    AllShiftedOut(x);
    BitOfLowByte(0, 0);
  }

  lemma AllShiftedOut(x: bv32)
    ensures HighBytes(HighBytes(HighBytes(HighBytes(x)))) == 0
  {}

  /** One register step is one step of the schoolbook division. */
  lemma DivisionStep(s: bv32, bits: seq<bool>)
    requires bits != []
    ensures Remainder(Dividend(s, bits)) == Remainder(Dividend(DivideBit(s, bits[0]), bits[1..]))
  {
    hide Xor, Half, Odd;
    var d := Dividend(s, bits);
    var next := DivideBit(s, bits[0]);
    assert d[0] == (Odd(s) != bits[0]);
    var shorter := seq(|d| - 1, i requires 0 <= i < |d| - 1 =>
      d[i + 1] != (d[0] && i < 32 && 31 - i in GENERATOR));
    forall i | 0 <= i < |shorter| ensures shorter[i] == Dividend(next, bits[1..])[i] {
      if i < 32 {
        GeneratorBit(i);
        BitXor(Half(s), POLYNOMIAL, i);
        if i == 31 {
          NothingAbove(s);
        }
      }
    }
    assert shorter == Dividend(next, bits[1..]);
  }

  /** The register is the polynomial remainder of the message, highest power in the lowest bit. */
  lemma {:induction false} DivideIsRemainder(s: bv32, bits: seq<bool>)
    ensures Remainder(Dividend(s, bits)) == RegisterBits(Divide(s, bits))
    decreases |bits|
  {
    hide DivideBit, Bit;
    if bits == [] {
      assert Dividend(s, bits) == RegisterBits(s);
    } else {
      DivisionStep(s, bits);
      DivideIsRemainder(DivideBit(s, bits[0]), bits[1..]);
    }
  }

  /** The message times x^32, with its leading 32 coefficients complemented. */
  function Complemented(bits: seq<bool>): seq<bool> {
    seq(|bits| + 32, i requires 0 <= i < |bits| + 32 => (i < |bits| && bits[i]) != (i < 32))
  }

  lemma AllOnes(i: nat)
    requires i < 32
    ensures Bit(0xffffffff, i)
  {
    hide Bit, HighBytes;
    FourBytes(0xffffffff, i);
    OnesShifted();
  }

  lemma OnesShifted()
    ensures HighBytes(0xffffffff) == 0x00ffffff && HighBytes(0x00ffffff) == 0x0000ffff && HighBytes(0x0000ffff) == 0xff
  {}

  /** The hash is the complement of the remainder, highest power in its lowest bit. */
  lemma CrcIsRemainder(data: seq<bv8>)
    ensures |Remainder(Complemented(MessageBits(data)))| == 32
    ensures forall i: nat :: i < 32 ==> Bit(Crc(data), i) == !Remainder(Complemented(MessageBits(data)))[i]
  {
    hide Bit, Remainder, MessageBits, Xor;
    var bits := MessageBits(data);
    forall i: nat | i < 32 ensures Bit(0xffffffff, i) {
      AllOnes(i);
    }
    assert Dividend(0xffffffff, bits) == Complemented(bits);
    DivideIsRemainder(0xffffffff, bits);
    forall i: nat | i < 32 ensures Bit(Crc(data), i) == !RegisterBits(Divide(0xffffffff, bits))[i] {
      BitXor(Divide(0xffffffff, bits), 0xffffffff, i);
    }
  }

  /** Bits of a byte leave it lowest first, and bytes in order. */
  lemma {:induction false} MessageBitsAt(data: seq<bv8>, k: nat, j: nat)
    requires k < |data| && j < 8
    ensures |MessageBits(data)| == 8 * |data|
    ensures MessageBits(data)[8 * k + j] == ((data[k] >> j) & 1 == 1)
  {
    MessageBitsSize(data);
    if k == 0 {
      BitsAt(data[0], j);
    } else {
      MessageBitsAt(data[1..], k - 1, j);
    }
  }

  lemma {:induction false} MessageBitsSize(data: seq<bv8>)
    ensures |MessageBits(data)| == 8 * |data|
  {
    if data != [] {
      MessageBitsSize(data[1..]);
    }
  }

  lemma BitsAt(b: bv8, j: nat)
    requires j < 8
    ensures Bits(b)[j] == ((b >> j) & 1 == 1)
  {}

  // ----- Processing in parts -----

  lemma {:induction false} MessageBitsConcat(a: seq<bv8>, b: seq<bv8>)
    ensures MessageBits(a + b) == MessageBits(a) + MessageBits(b)
    decreases |a|
  {
    hide Bits;
    if a == [] {
      assert a + b == b;
    } else {
      assert (a + b)[0] == a[0] && (a + b)[1..] == a[1..] + b;
      MessageBitsConcat(a[1..], b);
    }
  }

  /** Processing a concatenation is processing the parts in turn. */
  lemma ProcessConcat(s: bv32, a: seq<bv8>, b: seq<bv8>)
    ensures Divide(s, MessageBits(a + b)) == Divide(Divide(s, MessageBits(a)), MessageBits(b))
  {
    hide DivideBit, MessageBits;
    MessageBitsConcat(a, b);
    FoldConcat(DivideBit, s, MessageBits(a), MessageBits(b));
  }

  // ----- Error detection -----

  lemma DivideBitInjective(x: bv32, y: bv32, bit: bool)
    requires DivideBit(x, bit) == DivideBit(y, bit)
    ensures x == y
  {}

  /** The same bytes never bring two different registers together. */
  lemma DivideInjective(s: bv32, t: bv32, bits: seq<bool>)
    requires Divide(s, bits) == Divide(t, bits)
    ensures s == t
  {
    hide DivideBit;
    forall a, b, e | DivideBit(a, e) == DivideBit(b, e) ensures a == b {
      DivideBitInjective(a, b, e);
    }
    FoldInjective(DivideBit, s, t, bits);
  }

  function ShiftUp(x: bv32): bv32 {
    x << 8
  }

  /** Up to four bytes as one word, first byte lowest. */
  function Window(w: seq<bv8>): (v: bv32)
    requires |w| <= 4
  {
    if w == [] then 0 else Xor(Word(w[0]), ShiftUp(Window(w[1..])))
  }

  lemma ShiftUpDown(b: bv8, v: bv32)
    requires v & 0xff000000 == 0
    ensures LowByte(ShiftUp(v)) == 0 && HighBytes(ShiftUp(v)) == v
    ensures LowByte(Xor(Word(b), ShiftUp(v))) == b && HighBytes(Xor(Word(b), ShiftUp(v))) == v
  {
    assert LowByte(ShiftUp(v)) == 0;
    HighBytesKeep(ShiftUp(v), b);
    ShiftUpTop(v);
    XorCommutes(Word(b), ShiftUp(v));
    ShiftUpBottom(b, v);
  }

  lemma ShiftUpTop(v: bv32)
    requires v & 0xff000000 == 0
    ensures HighBytes(ShiftUp(v)) == v
  {}

  lemma ShiftUpBottom(b: bv8, v: bv32)
    ensures LowByte(Xor(Word(b), ShiftUp(v))) == b
  {}

  lemma ShiftUpBound(b: bv8, v: bv32)
    ensures v == 0 ==> Xor(Word(b), ShiftUp(v)) & 0xffffff00 == 0
    ensures v & 0xffffff00 == 0 ==> Xor(Word(b), ShiftUp(v)) & 0xffff0000 == 0
    ensures v & 0xffff0000 == 0 ==> Xor(Word(b), ShiftUp(v)) & 0xff000000 == 0
  {}

  lemma {:induction false} WindowBound(w: seq<bv8>)
    requires |w| <= 3
    ensures |w| == 0 ==> Window(w) == 0
    ensures |w| <= 1 ==> Window(w) & 0xffffff00 == 0
    ensures |w| <= 2 ==> Window(w) & 0xffff0000 == 0
    ensures Window(w) & 0xff000000 == 0
    decreases |w|
  {
    hide Xor, Word, ShiftUp;
    if |w| > 0 {
      WindowBound(w[1..]);
      ShiftUpBound(w[0], Window(w[1..]));
      NarrowMasks(Window(w));
    }
  }

  lemma NarrowMasks(v: bv32)
    ensures v & 0xffffff00 == 0 ==> v & 0xffff0000 == 0
    ensures v & 0xffff0000 == 0 ==> v & 0xff000000 == 0
  {}

  lemma {:induction false} WindowInjective(v: seq<bv8>, w: seq<bv8>)
    requires |v| == |w| <= 4 && Window(v) == Window(w)
    ensures v == w
    decreases |v|
  {
    hide Xor, Word, ShiftUp, LowByte, HighBytes;
    if |v| > 0 {
      WindowBound(v[1..]);
      WindowBound(w[1..]);
      ShiftUpDown(v[0], Window(v[1..]));
      ShiftUpDown(w[0], Window(w[1..]));
      WindowInjective(v[1..], w[1..]);
    }
  }

  /** Up to four bytes act as one word xored into the register before all their steps. */
  lemma {:induction false} WindowSteps(s: bv32, w: seq<bv8>)
    requires |w| <= 4
    ensures Divide(s, MessageBits(w)) == Steps(8 * |w|, Xor(s, Window(w)))
    decreases |w|
  {
    hide Xor, Word, ShiftUp, LowByte, HighBytes, BitStep, DivideBit, Bits;
    if |w| == 0 {
      XorZero(s);
    } else {
      var s1 := Steps(8, Xor(s, Word(w[0])));
      var rest := Window(w[1..]);
      FoldConcat(DivideBit, s, Bits(w[0]), MessageBits(w[1..]));
      DivideByteIsSteps(s, w[0]);
      WindowSteps(s1, w[1..]);
      WindowBound(w[1..]);
      ShiftUpDown(w[0], rest);
      ShiftOut(ShiftUp(rest));
      StepsLinear(8, Xor(s, Word(w[0])), ShiftUp(rest));
      XorAssociates(s, Word(w[0]), ShiftUp(rest));
      IterateSum(BitStep, 8, 8 * |w[1..]|, Xor(s, Window(w)));
    }
  }

  /** Messages that differ only inside a window of four bytes have different hashes. */
  lemma WindowErrorDetected(before: seq<bv8>, v: seq<bv8>, w: seq<bv8>, after: seq<bv8>)
    requires |v| == |w| <= 4 && v != w
    ensures Crc(before + v + after) != Crc(before + w + after)
  {
    hide Xor, Word, Window, DivideBit, BitStep, MessageBits;
    if Crc(before + v + after) == Crc(before + w + after) {
      var s := Divide(ALL_ONES, MessageBits(before));
      XorCancel(Divide(ALL_ONES, MessageBits(before + v + after)),
                Divide(ALL_ONES, MessageBits(before + w + after)), ALL_ONES);
      ProcessConcat(ALL_ONES, before + v, after);
      ProcessConcat(ALL_ONES, before + w, after);
      ProcessConcat(ALL_ONES, before, v);
      ProcessConcat(ALL_ONES, before, w);
      DivideInjective(Divide(s, MessageBits(v)), Divide(s, MessageBits(w)), MessageBits(after));
      WindowSteps(s, v);
      WindowSteps(s, w);
      StepsInjective(8 * |v|, Xor(s, Window(v)), Xor(s, Window(w)));
      XorCancel(Window(v), Window(w), s);
      WindowInjective(v, w);
      assert false;
    }
  }

  /** Four bytes is the limit: xoring the generator itself into five bytes goes unnoticed anywhere. */
  lemma FiveBytesCollide(before: seq<bv8>, after: seq<bv8>)
    ensures Crc(before + [0, 0, 0, 0, 0] + after) == Crc(before + [0x41, 0x06, 0x71, 0xdb, 0x01] + after)
  {
    hide Xor, Word, DivideBit, BitStep, MessageBits;
    var s := Divide(ALL_ONES, MessageBits(before));
    var zeros := [0, 0, 0, 0, 0];
    var poly := [0x41, 0x06, 0x71, 0xdb, 0x01];
    ProcessConcat(ALL_ONES, before + zeros, after);
    ProcessConcat(ALL_ONES, before + poly, after);
    ProcessConcat(ALL_ONES, before, zeros);
    ProcessConcat(ALL_ONES, before, poly);
    FiveBytesFromAnyState(s);
  }

  lemma FiveBytesFromAnyState(s: bv32)
    ensures Divide(s, MessageBits([0, 0, 0, 0, 0])) == Divide(s, MessageBits([0x41, 0x06, 0x71, 0xdb, 0x01]))
  {
    hide Xor, Word, Window, DivideBit, BitStep, MessageBits;
    var zeros := [0, 0, 0, 0];
    var poly := [0x41, 0x06, 0x71, 0xdb];
    assert [0, 0, 0, 0, 0] == zeros + [0];
    assert [0x41, 0x06, 0x71, 0xdb, 0x01] == poly + [0x01];
    ProcessConcat(s, zeros, [0]);
    ProcessConcat(s, poly, [0x01]);
    WindowSteps(s, zeros);
    WindowSteps(s, poly);
    GeneratorWindow();
    XorZero(s);
    StepsLinear(32, s, 0xdb710641);
    GeneratorSteps();
    var t := Steps(32, s);
    WindowSteps(t, [0]);
    WindowSteps(Xor(t, 1), [0x01]);
    SingleWindows();
    XorZero(t);
    XorAssociates(t, 1, 1);
    XorZero(1);
  }

  lemma GeneratorWindow()
    ensures Window([0, 0, 0, 0]) == 0 && Window([0x41, 0x06, 0x71, 0xdb]) == 0xdb710641
  {
    assert Window([0xdb]) == 0xdb;
    assert [0x71, 0xdb][1..] == [0xdb];
    assert Window([0x71, 0xdb]) == 0xdb71;
    assert [0x06, 0x71, 0xdb][1..] == [0x71, 0xdb];
    assert Window([0x06, 0x71, 0xdb]) == 0xdb7106;
    assert [0x41, 0x06, 0x71, 0xdb][1..] == [0x06, 0x71, 0xdb];
    assert Window([0]) == 0;
    assert [0, 0][1..] == [0];
    assert Window([0, 0]) == 0;
    assert [0, 0, 0][1..] == [0, 0];
    assert Window([0, 0, 0]) == 0;
    assert [0, 0, 0, 0][1..] == [0, 0, 0];
  }

  lemma SingleWindows()
    ensures Window([0]) == 0 && Window([0x01]) == 1
  {}

  lemma GeneratorSteps()
    ensures Steps(32, 0xdb710641) == 1
  {
    assert BitStep(0xdb710641) == 0x80000000;
    assert BitStep(0x80) == 0x40 && BitStep(0x40) == 0x20 && BitStep(0x20) == 0x10 && BitStep(0x10) == 8;
    assert BitStep(8) == 4 && BitStep(4) == 2 && BitStep(2) == 1;
    ShiftOut(0x80000000);
    ShiftOut(0x00800000);
    ShiftOut(0x00008000);
    assert HighBytes(0x80000000) == 0x00800000 && HighBytes(0x00800000) == 0x00008000
        && HighBytes(0x00008000) == 0x80;
    hide BitStep, HighBytes;
    IterateSum(BitStep, 1, 31, 0xdb710641);
    IterateSum(BitStep, 8, 23, 0x80000000);
    IterateSum(BitStep, 8, 15, 0x00800000);
    IterateSum(BitStep, 8, 7, 0x00008000);
    IterateUpToEight(BitStep, 0x80);
  }

  // ----- Check values -----

  /** The hashes of nothing and of the letter a. */
  lemma CheckValues()
    ensures Crc([]) == 0 && Crc([0x61]) == 0xe8b7be43
  {
    hide BitStep, DivideBit, Bits, Xor;
    XorZero(ALL_ONES);
    assert [0x61][1..] == [] && MessageBits([0x61]) == Bits(0x61) + [] == Bits(0x61);
    DivideByteIsSteps(ALL_ONES, 0x61);
    IterateUpToEight(BitStep, Xor(ALL_ONES, Word(0x61)));
    CheckSteps();
  }

  lemma CheckSteps()
    ensures Xor(ALL_ONES, Word(0x61)) == 0xffffff9e && Xor(0x174841bc, ALL_ONES) == 0xe8b7be43
    ensures BitStep(0xffffff9e) == 0x7fffffcf && BitStep(0x7fffffcf) == 0xd2477cc7
    ensures BitStep(0xd2477cc7) == 0x849b3d43 && BitStep(0x849b3d43) == 0xaff51d81
    ensures BitStep(0xaff51d81) == 0xba420de0 && BitStep(0xba420de0) == 0x5d2106f0
    ensures BitStep(0x5d2106f0) == 0x2e908378 && BitStep(0x2e908378) == 0x174841bc
  {}
}
