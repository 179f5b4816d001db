/** The UTF-8 string: variable-width characters in a zero-terminated buffer. */
module Utf8Strings {
  import opened Basics
  import opened Endian

  // ----- Characters -----

  /** Bytes that the encoding of a character takes; zero takes two. */
  function EncodedSize(c: U32): nat {
    if c == 0 then 2 else if c <= 0x7f then 1 else if c <= 0x7ff then 2 else if c <= 0xffff then 3 else 4
  }

  /** The top bit is clear. */
  predicate Single(b: Byte) {
    b < 0x80
  }

  /** Bytes that a character has, judging by the top four bits of the first. */
  function LeadSize(b: Byte): (n: nat)
    ensures 1 <= n <= 4
  {
    if Single(b) then 1 else if b >= 0xf0 then 4 else if b >= 0xe0 then 3 else 2
  }

  /** The tests on masked bytes that the comparisons above stand for. */
  lemma MasksAreRanges(b: bv8)
    ensures b & 0x80 == 0 <==> b < 0x80
    ensures b & 0xf0 == 0xf0 <==> b >= 0xf0
    ensures b & 0xf0 == 0xe0 <==> 0xe0 <= b < 0xf0
  {}

  /** Masks and shifts as remainders and quotients. The continuation bytes keep their top bits clear. */
  function Encode(c: U32): (e: seq<Byte>)
    ensures |e| == EncodedSize(c)
  {
    var n := EncodedSize(c);
    if n == 1 then [c % 0x80]
    else if n == 2 then [0xc0 + c / 0x40 % 0x20, c % 0x40]
    else if n == 3 then [0xe0 + c / 0x1000 % 0x10, c / 0x40 % 0x40, c % 0x40]
    else [0xf0 + c / 0x4_0000 % 0x08, c / 0x1000 % 0x40, c / 0x40 % 0x40, c % 0x40]
  }

  /** Decoding looks at the low six bits of continuation bytes only. */
  function Decode(d: seq<Byte>): U32
    requires d != [] && LeadSize(d[0]) <= |d|
  {
    var n := LeadSize(d[0]);
    if n == 4 then
      (d[0] as int) % 0x08 * 0x4_0000 + (d[1] as int) % 0x40 * 0x1000
      + (d[2] as int) % 0x40 * 0x40 + (d[3] as int) % 0x40
    else if n == 3 then (d[0] as int) % 0x10 * 0x1000 + (d[1] as int) % 0x40 * 0x40 + (d[2] as int) % 0x40
    else if n == 2 then (d[0] as int) % 0x20 * 0x40 + (d[1] as int) % 0x40
    else d[0] % 0x80
  }

  /** A character as it stands in a string: a first byte other than zero and what belongs to it. */
  predicate IsCharacter(d: seq<Byte>) {
    d != [] && d[0] != 0 && |d| == LeadSize(d[0])
  }

  lemma Quotients(c: nat)
    ensures c == c / 0x40 * 0x40 + c % 0x40
    ensures c / 0x40 == c / 0x1000 * 0x40 + c / 0x40 % 0x40
    ensures c / 0x1000 == c / 0x4_0000 * 0x40 + c / 0x1000 % 0x40
  {
    assert c / 0x40 / 0x40 == c / 0x1000;
    assert c / 0x1000 / 0x40 == c / 0x4_0000;
  }

  lemma LeadBits(q: nat)
    ensures (0xf0 + q % 0x08) % 0x08 == q % 0x08
    ensures (0xe0 + q % 0x10) % 0x10 == q % 0x10
    ensures (0xc0 + q % 0x20) % 0x20 == q % 0x20
    ensures q % 0x08 == q <==> q < 0x08
  {}

  lemma EncodeLead(c: U32)
    ensures IsCharacter(Encode(c))
  {}

  lemma DecodeEncode4(c: U32)
    requires EncodedSize(c) == 4
    ensures IsCharacter(Encode(c)) && Decode(Encode(c)) == c / 0x4_0000 % 0x08 * 0x4_0000 + c % 0x4_0000
  {
    hide Decode;
    EncodeLead(c);
    Quotients(c);
    DecodeFour(c / 0x4_0000, c / 0x1000 % 0x40, c / 0x40 % 0x40, c % 0x40);
  }

  lemma DecodeFour(q: nat, x: Byte, y: Byte, z: Byte)
    requires x < 0x40 && y < 0x40 && z < 0x40
    ensures LeadSize(0xf0 + q % 0x08) == 4
    ensures Decode([0xf0 + q % 0x08, x, y, z])
      == q % 0x08 * 0x4_0000 + (x as int) * 0x1000 + (y as int) * 0x40 + (z as int)
  {
    LeadBits(q);
  }

  lemma DecodeEncode3(c: U32)
    requires EncodedSize(c) == 3
    ensures IsCharacter(Encode(c)) && Decode(Encode(c)) == c
  {
    EncodeLead(c);
    Quotients(c);
    LeadBits(c / 0x1000);
  }

  lemma DecodeEncode2(c: U32)
    requires EncodedSize(c) == 2
    ensures IsCharacter(Encode(c)) && Decode(Encode(c)) == c
  {
    EncodeLead(c);
    Quotients(c);
    LeadBits(c / 0x40);
  }

  /** Every code point below 2^21 comes back, and no other value does. */
  lemma DecodeEncode(c: U32)
    ensures IsCharacter(Encode(c))
    ensures Decode(Encode(c)) == c <==> c < 0x20_0000
  {
    EncodeLead(c);
    if EncodedSize(c) == 4 {
      DecodeEncode4(c);
      hide Encode, Decode, IsCharacter, EncodedSize;
      LeadBits(c / 0x4_0000);
    } else if EncodedSize(c) == 3 {
      DecodeEncode3(c);
    } else if EncodedSize(c) == 2 {
      DecodeEncode2(c);
    }
  }

  // ----- The encodings digit by digit, and the standard's -----

  /** The encoding of section 3 of RFC 3629. */
  function Standard(c: U32): seq<Byte>
    requires c < 0x20_0000
  {
    if c < 0x80 then [c]
    else if c < 0x800 then [0xc0 + c / 0x40, 0x80 + c % 0x40]
    else if c < 0x1_0000 then [0xe0 + c / 0x1000, 0x80 + c / 0x40 % 0x40, 0x80 + c % 0x40]
    else [0xf0 + c / 0x4_0000, 0x80 + c / 0x1000 % 0x40, 0x80 + c / 0x40 % 0x40, 0x80 + c % 0x40]
  }

  lemma OneByte(c: Byte)
    requires c < 0x80
    ensures Decode([c]) == c && Standard(c) == [c]
    ensures c != 0 ==> Encode(c) == [c]
    ensures Encode(0) == [0xc0, 0]
  {}

  lemma SixBits(u: nat, x: nat)
    requires x < 0x40
    ensures (0x40 * u + x) % 0x40 == x && (0x40 * u + x) / 0x40 == u
  {}

  /** Two digits: whatever the top bits are, of the continuation byte or, up to a point, of the first. */
  lemma TwoBytes(v: nat, x: nat, u: nat, y: nat)
    requires v < 3 && x < 0x20 && u < 4 && y < 0x40
    ensures Decode([0x80 + 0x20 * v + x, 0x40 * u + y]) == 0x40 * x + y
    ensures x >= 2 ==> Encode(0x40 * x + y) == [0xc0 + x, y] && Standard(0x40 * x + y) == [0xc0 + x, 0x80 + y]
  {
    SixBits(u, y);
    SixBits(x, y);
    assert (0x80 + 0x20 * v + x) % 0x20 == x;
  }

  lemma ThreeBytes(x: nat, u: nat, y: nat, w: nat, z: nat)
    requires x < 0x10 && u < 4 && y < 0x40 && w < 4 && z < 0x40
    ensures Decode([0xe0 + x, 0x40 * u + y, 0x40 * w + z]) == 0x1000 * x + 0x40 * y + z
    ensures 0x40 * x + y >= 0x20 ==>
      var c := 0x1000 * x + 0x40 * y + z;
      Encode(c) == [0xe0 + x, y, z] && Standard(c) == [0xe0 + x, 0x80 + y, 0x80 + z]
  {
    SixBits(u, y);
    SixBits(w, z);
    var c := 0x1000 * x + 0x40 * y + z;
    SixBits(0x40 * x + y, z);
    SixBits(x, y);
    Quotients(c);
    assert c / 0x40 == 0x40 * x + y && c / 0x1000 == x;
  }

  lemma FourBytes(v: nat, x: nat, u: nat, y: nat, w: nat, z: nat, t: nat, s: nat)
    requires v < 2 && x < 8 && u < 4 && y < 0x40 && w < 4 && z < 0x40 && t < 4 && s < 0x40
    ensures Decode([0xf0 + 8 * v + x, 0x40 * u + y, 0x40 * w + z, 0x40 * t + s])
      == 0x4_0000 * x + 0x1000 * y + 0x40 * z + s
    ensures 0x40 * x + y >= 0x10 ==>
      var c := 0x4_0000 * x + 0x1000 * y + 0x40 * z + s;
      Encode(c) == [0xf0 + x, y, z, s] && Standard(c) == [0xf0 + x, 0x80 + y, 0x80 + z, 0x80 + s]
  {
    SixBits(u, y);
    SixBits(w, z);
    SixBits(t, s);
    var c := 0x4_0000 * x + 0x1000 * y + 0x40 * z + s;
    SixBits(0x1000 * x + 0x40 * y + z, s);
    SixBits(0x40 * x + y, z);
    SixBits(x, y);
    Quotients(c);
    assert c / 0x40 == 0x1000 * x + 0x40 * y + z && c / 0x1000 == 0x40 * x + y && c / 0x4_0000 == x;
  }

  /** The standard's form of every code point but zero is a character that is decoded to it. */
  lemma DecodeStandard(c: U32)
    requires c < 0x20_0000
    ensures c != 0 ==> IsCharacter(Standard(c))
    ensures LeadSize(Standard(c)[0]) <= |Standard(c)| && Decode(Standard(c)) == c
  {
    if c < 0x80 {
      OneByte(c);
    } else if c < 0x800 {
      TwoBytes(2, c / 0x40, 2, c % 0x40);
    } else if c < 0x1_0000 {
      Quotients(c);
      ThreeBytes(c / 0x1000, 2, c / 0x40 % 0x40, 2, c % 0x40);
    } else {
      Quotients(c);
      FourBytes(0, c / 0x4_0000, 2, c / 0x1000 % 0x40, 2, c / 0x40 % 0x40, 2, c % 0x40);
    }
  }

  // ----- Strings of characters -----

  /** Reading characters from the start meets a zero in place of a first byte. */
  predicate WellFormed(b: seq<Byte>)
    decreases |b|
  {
    b != [] && (b[0] == 0 || (LeadSize(b[0]) < |b| && WellFormed(b[LeadSize(b[0])..])))
  }

  function Characters(b: seq<Byte>): seq<seq<Byte>>
    requires WellFormed(b)
    decreases |b|
  {
    if b[0] == 0 then [] else [b[..LeadSize(b[0])]] + Characters(b[LeadSize(b[0])..])
  }

  function Flatten(cs: seq<seq<Byte>>): seq<Byte> {
    if cs == [] then [] else cs[0] + Flatten(cs[1..])
  }

  /** The string with the given characters, and its terminator. */
  function Terminated(cs: seq<seq<Byte>>): seq<Byte> {
    Flatten(cs) + [0]
  }

  ghost predicate AllCharacters(cs: seq<seq<Byte>>) {
    forall i :: 0 <= i < |cs| ==> IsCharacter(cs[i])
  }

  /** The offset of a character, or of the terminator if there are not that many. */
  function Offset(b: seq<Byte>, index: nat): (o: nat)
    requires WellFormed(b)
    ensures o < |b|
    decreases |b|
  {
    if index == 0 || b[0] == 0 then 0 else LeadSize(b[0]) + Offset(b[LeadSize(b[0])..], index - 1)
  }

  function NonNegative(i: int): nat {
    if i < 0 then 0 else i
  }

  lemma {:induction false} FlattenConcat(a: seq<seq<Byte>>, b: seq<seq<Byte>>)
    ensures Flatten(a + b) == Flatten(a) + Flatten(b)
    decreases |a|
  {
    if a == [] {
      assert a + b == b;
    } else {
      assert (a + b)[1..] == a[1..] + b;
      FlattenConcat(a[1..], b);
    }
  }

  lemma SliceSplit(b: seq<Byte>, n: nat, o: nat)
    requires n + o <= |b|
    ensures b[..n + o] == b[..n] + b[n..][..o] && b[n + o..] == b[n..][o..]
  {}

  /** As many characters come before the offset as asked for. */
  lemma {:induction false} OffsetPrefix(b: seq<Byte>, index: nat)
    requires WellFormed(b)
    ensures b[..Offset(b, index)] == Flatten(Characters(b)[..Min(index, |Characters(b)|)])
    decreases |b|
  {
    hide LeadSize;
    if index > 0 && b[0] != 0 {
      var n := LeadSize(b[0]);
      OffsetPrefix(b[n..], index - 1);
      PrefixFlatten(b[..n], Characters(b[n..]), Min(index, |Characters(b)|) - 1);
      SliceSplit(b, n, Offset(b[n..], index - 1));
    }
  }

  lemma PrefixFlatten(c: seq<Byte>, cs: seq<seq<Byte>>, k: nat)
    requires k <= |cs|
    ensures Flatten(([c] + cs)[..k + 1]) == c + Flatten(cs[..k])
  {
    assert ([c] + cs)[..k + 1][1..] == cs[..k];
  }

  /** Splitting into characters undoes flattening, whatever comes after the terminator. */
  lemma {:induction false} CharactersOfFlat(cs: seq<seq<Byte>>, rest: seq<Byte>)
    requires AllCharacters(cs)
    ensures WellFormed(Terminated(cs) + rest) && Characters(Terminated(cs) + rest) == cs
    decreases |cs|
  {
    hide LeadSize;
    var b := Terminated(cs) + rest;
    if cs != [] {
      CharactersOfFlat(cs[1..], rest);
      assert b == cs[0] + (Terminated(cs[1..]) + rest);
      assert b[..|cs[0]|] == cs[0] && b[|cs[0]|..] == Terminated(cs[1..]) + rest;
    }
  }

  lemma {:induction false} CharactersAreCharacters(b: seq<Byte>)
    requires WellFormed(b)
    ensures AllCharacters(Characters(b))
    ensures Terminated(Characters(b)) <= b
    decreases |b|
  {
    hide LeadSize;
    if b[0] != 0 {
      var n := LeadSize(b[0]);
      CharactersAreCharacters(b[n..]);
      assert Flatten(Characters(b)) == b[..n] + Flatten(Characters(b[n..])) by {
        assert Characters(b)[1..] == Characters(b[n..]);
      }
      assert Terminated(Characters(b)) == b[..n] + Terminated(Characters(b[n..]));
      assert b == b[..n] + b[n..];
    }
  }

  lemma PastOne(b: seq<Byte>, p: nat, i: nat)
    requires p < |b| && WellFormed(b[p..]) && b[p] != 0
    ensures p + LeadSize(b[p]) < |b| && WellFormed(b[p + LeadSize(b[p])..])
    ensures |Characters(b[p..])| == 1 + |Characters(b[p + LeadSize(b[p])..])|
    ensures i > 0 ==> Offset(b[p..], i) == LeadSize(b[p]) + Offset(b[p + LeadSize(b[p])..], i - 1)
  {
    hide LeadSize;
    assert b[p..][LeadSize(b[p])..] == b[p + LeadSize(b[p])..];
  }

  /** Past one character, by the width that its first byte announces. */
  method Advance(data: array<Byte>, size: nat, p: nat, ghost i: nat) returns (p': nat)
    requires p < size <= data.Length && WellFormed(data[..size][p..]) && data[p] != 0
    ensures p < p' < size && WellFormed(data[..size][p'..])
    ensures |Characters(data[..size][p..])| == 1 + |Characters(data[..size][p'..])|
    ensures i > 0 ==> Offset(data[..size][p..], i) == p' - p + Offset(data[..size][p'..], i - 1)
  {
    hide LeadSize, WellFormed, Characters, Offset;
    ghost var b := data[..size];
    assert b[p] == data[p];
    PastOne(b, p, i);
    var n := Width(data[p]);
    p' := p + n;
  }

  /** The switch of the loops, whose cases fall through to the next narrower one. */
  method Width(lead: Byte) returns (n: nat)
    ensures n == LeadSize(lead)
  {
    n := 0;
    if lead < 0x80 {
      return 1;
    }
    if lead >= 0xf0 {
      n := n + 1;
    }
    if lead >= 0xe0 {
      n := n + 1;
    }
    n := n + 2;
  }

  /** The two-speed loop: runs of single bytes inside, wider characters outside. */
  method GetStringLength(data: array<Byte>, size: nat) returns (count: nat)
    requires size <= data.Length && WellFormed(data[..size])
    ensures count == |Characters(data[..size])|
  {
    ghost var b := data[..size];
    count := 0;
    var p := 0;
    assert b[0..] == b;
    while data[p] != 0
      invariant p < size && WellFormed(b[p..])
      invariant count + |Characters(b[p..])| == |Characters(b)|
      decreases size - p
    {
      if Single(data[p]) {
        p := Advance(data, size, p, 0);
        count := count + 1;
        while data[p] != 0 && Single(data[p])
          invariant p < size && WellFormed(b[p..])
          invariant count + |Characters(b[p..])| == |Characters(b)|
          decreases size - p
        {
          p := Advance(data, size, p, 0);
          count := count + 1;
        }
        if data[p] == 0 {
          break;
        }
      }
      p := Advance(data, size, p, 0);
      count := count + 1;
    }
  }

  /** The terminated string seen around one of its characters. */
  lemma AroundCharacter(cs: seq<seq<Byte>>, k: nat)
    requires k < |cs|
    ensures Terminated(cs) == Flatten(cs[..k]) + cs[k] + Terminated(cs[k + 1..])
    ensures forall c :: Terminated(cs[k := c]) == Flatten(cs[..k]) + c + Terminated(cs[k + 1..])
  {
    forall c ensures Terminated(cs[k := c]) == Flatten(cs[..k]) + c + Terminated(cs[k + 1..]) {
      assert cs[k := c] == cs[..k] + ([c] + cs[k + 1..]);
      FlattenConcat(cs[..k], [c] + cs[k + 1..]);
    }
    assert cs[k := cs[k]] == cs;
  }

  /** What is at an offset: the character of that index, or the terminator. */
  lemma AtOffset(b: seq<Byte>, index: nat)
    requires WellFormed(b)
    ensures var cs := Characters(b); var o := Offset(b, index);
      && (index < |cs| ==> IsCharacter(cs[index]) && o + |cs[index]| < |b| && b[o..o + |cs[index]|] == cs[index])
      && (index >= |cs| ==> o == |Flatten(cs)| && b[o] == 0)
  {
    hide LeadSize, WellFormed, Characters, Offset, IsCharacter;
    var cs := Characters(b);
    OffsetPrefix(b, index);
    CharactersAreCharacters(b);
    if index < |cs| {
      AroundCharacter(cs, index);
      var o := |Flatten(cs[..index])|;
      assert b[o..o + |cs[index]|] == Terminated(cs)[o..o + |cs[index]|];
    } else {
      assert cs[..|cs|] == cs;
    }
  }

  lemma CharacterAt(b: seq<Byte>, index: nat)
    requires WellFormed(b)
    ensures var cs := Characters(b); var o := Offset(b, index); var n := LeadSize(b[o]);
      && o + n <= |b|
      && (index < |cs| ==> IsCharacter(cs[index]) && b[o..o + n] == cs[index])
      && (index >= |cs| ==> n == 1 && b[o] == 0)
  {
    hide WellFormed, Characters, Offset;
    AtOffset(b, index);
    if index < |Characters(b)| {
      assert b[Offset(b, index)] == Characters(b)[index][0];
    }
  }

  lemma NextOffset(b: seq<Byte>, index: nat)
    requires WellFormed(b) && index < |Characters(b)|
    ensures Offset(b, index + 1) == Offset(b, index) + LeadSize(b[Offset(b, index)])
  {
    hide WellFormed, Characters, Offset;
    var cs := Characters(b);
    CharacterAt(b, index);
    OffsetPrefix(b, index);
    OffsetPrefix(b, index + 1);
    assert cs[..index + 1] == cs[..index] + [cs[index]];
    FlattenConcat(cs[..index], [cs[index]]);
  }

  /** Decodes the character, or the terminator, at the offset of an index. */
  method DecodeAt(data: array<Byte>, size: nat, p: nat, ghost index: nat) returns (c: U32, n: nat)
    requires size <= data.Length && WellFormed(data[..size]) && p == Offset(data[..size], index)
    ensures var cs := Characters(data[..size]);
      && (index < |cs| ==> Matches(cs[index], c) && p + n == Offset(data[..size], index + 1))
      && (index >= |cs| ==> c == 0) && n > 0
  {
    hide Characters, Offset, WellFormed, LeadSize;
    ghost var b := data[..size];
    CharacterAt(b, index);
    if index < |Characters(b)| {
      NextOffset(b, index);
    }
    assert b[p] == data[p];
    n := LeadSize(data[p]);
    assert p + n <= size;
    assert b[p..p + n] == data[p..p + n];
    c := Decode(data[p..p + n]);
  }

  predicate Matches(d: seq<Byte>, c: U32) {
    d != [] && LeadSize(d[0]) <= |d| && Decode(d) == c
  }

  lemma OneValue(b: seq<Byte>, index: nat, c: U32, d: U32)
    requires WellFormed(b) && index < |Characters(b)| && Matches(Characters(b)[index], d)
    ensures Matches(Characters(b)[index], c) <==> c == d
  {}

  /** Whether the string ends at the offset of an index. */
  lemma EndAt(b: seq<Byte>, index: nat)
    requires WellFormed(b)
    ensures b[Offset(b, index)] == 0 <==> index >= |Characters(b)|
  {
    hide WellFormed, Characters, Offset;
    CharacterAt(b, index);
    if index < |Characters(b)| {
      assert b[Offset(b, index)] == Characters(b)[index][0];
    }
  }

  lemma OffsetEnds(b: seq<Byte>, p: nat, i: nat)
    requires p < |b| && WellFormed(b[p..]) && (i == 0 || b[p] == 0)
    ensures Offset(b[p..], i) == 0
  {}

  /** The second two-speed loop, counting an index down instead of characters up. */
  method GetStringOffset(data: array<Byte>, size: nat, index: int) returns (p: nat)
    requires size <= data.Length && WellFormed(data[..size])
    ensures p == Offset(data[..size], NonNegative(index))
  {
    hide Characters, WellFormed, LeadSize;
    ghost var b := data[..size];
    assert b[0..] == b;
    p := 0;
    var left := NonNegative(index);
    while left > 0 && data[p] != 0
      invariant p < size && WellFormed(b[p..])
      invariant p + Offset(b[p..], left) == Offset(b, NonNegative(index))
      decreases size - p
    {
      if Single(data[p]) {
        p, left := SkipSingles(data, size, p, left);
        if left == 0 || data[p] == 0 {
          break;
        }
      }
      p := Advance(data, size, p, left);
      left := left - 1;
    }
    OffsetEnds(b, p, left);
  }

  /** The inner loop, over one single byte and those that follow it. */
  method SkipSingles(data: array<Byte>, size: nat, p: nat, left: nat) returns (p': nat, left': nat)
    requires p < size <= data.Length && WellFormed(data[..size][p..]) && data[p] != 0 && left > 0
    ensures p < p' < size && WellFormed(data[..size][p'..])
    ensures p + Offset(data[..size][p..], left) == p' + Offset(data[..size][p'..], left')
  {
    hide Characters, Offset, WellFormed, LeadSize;
    ghost var b := data[..size];
    p' := Advance(data, size, p, left);
    left' := left - 1;
    while left' > 0 && data[p'] != 0 && Single(data[p'])
      invariant p < p' < size && WellFormed(b[p'..])
      invariant p' + Offset(b[p'..], left') == p + Offset(b[p..], left)
      decreases size - p'
    {
      p' := Advance(data, size, p', left');
      left' := left' - 1;
    }
  }

  // ----- The string object -----

  /** Indices are passed on as signed 32-bit integers, and negative ones act as zero. */
  function Effective(index: nat): nat {
    var v := index % 0x1_0000_0000;
    if v < 0x8000_0000 then v else 0
  }

  function ToInt32(index: nat): (r: int)
    ensures -0x8000_0000 <= r < 0x8000_0000 && (index - r) % 0x1_0000_0000 == 0
  {
    var v := index % 0x1_0000_0000;
    if v < 0x8000_0000 then v else v - 0x1_0000_0000
  }

  /** memmove towards the front. */
  method MoveMemory(data: array<Byte>, at: nat, from: nat, n: nat)
    requires at <= from && from + n <= data.Length
    modifies data
    ensures data[..at] == old(data[..at]) && data[at..at + n] == old(data[from..from + n])
  {
    forall i | at <= i < at + n {
      data[i] := data[i - at + from];
    }
  }

  /** A 64-bit size, and the one that stands for no position. */
  function ToSize(n: nat): (r: nat)
    ensures r < 0x1_0000_0000_0000_0000 && (n - r) % 0x1_0000_0000_0000_0000 == 0
  {
    n % 0x1_0000_0000_0000_0000
  }

  const NOT_FOUND: nat := 0xffff_ffff_ffff_ffff

  /** The 64-bit index of the last match from an offset on and before an index. */
  function LastBefore(cs: seq<seq<Byte>>, c: U32, off: nat, j: nat): nat {
    if j <= Effective(off) || j > |cs| then NOT_FOUND
    else if Matches(cs[j - 1], c) then ToSize(off + j - 1 - Effective(off))
    else LastBefore(cs, c, off, j - 1)
  }

  function LastIndex(cs: seq<seq<Byte>>, c: U32, off: nat): nat {
    LastBefore(cs, c, off, |cs|)
  }

  lemma LastBeforeStep(cs: seq<seq<Byte>>, c: U32, off: nat, j: nat)
    requires Effective(off) <= j < |cs|
    ensures LastBefore(cs, c, off, j + 1) ==
      if Matches(cs[j], c) then ToSize(off + j - Effective(off)) else LastBefore(cs, c, off, j)
  {}

  lemma SizeStep(n: nat)
    ensures ToSize(ToSize(n) + 1) == ToSize(n + 1)
  {}

  lemma NoneBefore(cs: seq<seq<Byte>>, c: U32, off: nat, j: nat)
    requires j <= Effective(off) || j > |cs|
    ensures LastBefore(cs, c, off, j) == NOT_FOUND
  {}

  /** The index returned is that of the last match, or stands for none. */
  lemma LastIndexMeans(cs: seq<seq<Byte>>, c: U32, off: nat)
    ensures forall k ::
      (Effective(off) <= k < |cs| && Matches(cs[k], c) && (forall j :: k < j < |cs| ==> !Matches(cs[j], c))) ==>
        LastIndex(cs, c, off) == ToSize(off + k - Effective(off))
    ensures (forall k :: Effective(off) <= k < |cs| ==> !Matches(cs[k], c)) ==>
      LastIndex(cs, c, off) == 0xffff_ffff_ffff_ffff
  {
    hide Matches, ToSize, LastBefore;
    forall k | Effective(off) <= k < |cs| && Matches(cs[k], c) && (forall j :: k < j < |cs| ==> !Matches(cs[j], c))
      ensures LastIndex(cs, c, off) == ToSize(off + k - Effective(off)) {
      LastIs(cs, c, off, |cs|, k);
    }
    if forall k :: Effective(off) <= k < |cs| ==> !Matches(cs[k], c) {
      LastIsNone(cs, c, off, |cs|);
    }
  }

  lemma {:induction false} LastIs(cs: seq<seq<Byte>>, c: U32, off: nat, j: nat, k: nat)
    requires Effective(off) <= k < j <= |cs| && Matches(cs[k], c) && forall i :: k < i < j ==> !Matches(cs[i], c)
    ensures LastBefore(cs, c, off, j) == ToSize(off + k - Effective(off))
  {
    if k < j - 1 {
      LastIs(cs, c, off, j - 1, k);
    }
  }

  lemma {:induction false} LastIsNone(cs: seq<seq<Byte>>, c: U32, off: nat, j: nat)
    requires j <= |cs| && forall i :: Effective(off) <= i < j ==> !Matches(cs[i], c)
    ensures LastBefore(cs, c, off, j) == NOT_FOUND
  {
    if j > Effective(off) {
      LastIsNone(cs, c, off, j - 1);
    }
  }

  class Utf8String {
    var data: array<Byte>
    var size: nat
    /** The length when it was last counted, or 0. */
    var dataLength: nat

    ghost function Bytes(): seq<Byte>
      requires size <= data.Length
      reads this, data
    {
      data[..size]
    }

    /** A string with nothing behind the terminator. */
    ghost predicate Valid()
      reads this, data
    {
      size <= data.Length && WellFormed(Bytes()) && Bytes() == Terminated(Characters(Bytes()))
    }

    ghost function Text(): seq<seq<Byte>>
      requires Valid()
      reads this, data
      ensures AllCharacters(Text())
    {
      CharactersAreCharacters(Bytes());
      Characters(Bytes())
    }

    constructor (cs: seq<seq<Byte>>)
      requires AllCharacters(cs)
      ensures Valid() && Text() == cs && fresh(data) && dataLength == 0
    {
      var b := Terminated(cs);
      CharactersOfFlat(cs, []);
      assert b + [] == b;
      data := new Byte[|b|](i requires 0 <= i < |b| => b[i]);
      size := |b|;
      dataLength := 0;
      new;
      assert data[..size] == b;
    }

    /** Counts only if there is no length from before, which may be that of another text. */
    method GetLength() returns (n: nat)
      requires Valid()
      modifies this`dataLength
      ensures Valid() && Text() == old(Text())
      ensures n == dataLength == if old(dataLength) != 0 then old(dataLength) else |Text()|
    {
      if dataLength == 0 {
        dataLength := GetStringLength(data, size);
      }
      n := dataLength;
    }

    /** Reading past the end decodes the terminator. */
    method GetCharacter(index: nat) returns (c: U32)
      requires Valid()
      ensures Effective(index) < |Text()| ==> Matches(Text()[Effective(index)], c)
      ensures Effective(index) >= |Text()| ==> c == 0
    {
      var o := GetStringOffset(data, size, ToInt32(index));
      ghost var n;
      c, n := DecodeAt(data, size, o, Effective(index));
    }

    /**
     * Replaces the character, shifting what follows as needed. At an index past the end it is the
     * terminator that gets replaced, and the buffer is left without one.
     */
    method SetCharacter(index: nat, c: U32)
      requires Valid()
      modifies this`data, this`size, data
      ensures size <= data.Length && (data == old(data) || fresh(data))
      ensures Effective(index) < |old(Text())| ==>
        && Valid() && Text() == old(Text())[Effective(index) := Encode(c)]
        && Bytes() == Terminated(old(Text())[Effective(index) := Encode(c)])
      ensures Effective(index) >= |old(Text())| ==> Bytes() == Flatten(old(Text())) + Encode(c)
      ensures Valid() <==> Effective(index) < |old(Text())|
      ensures Effective(index) < |old(Text())| ==>
        (Codes(Text()) == old(Codes(Text()))[Effective(index) := c] <==> c < 0x20_0000)
    {
      hide Characters, Offset, WellFormed, Flatten, Terminated, Encode, LeadSize, IsCharacter, Codes;
      ghost var b, cs := Bytes(), Text();
      if Effective(index) < |cs| {
        CodesUpdated(cs, Effective(index), c);
      } else {
        UnterminatedWith(cs, c);
      }
      var o := GetStringOffset(data, size, ToInt32(index));
      WithCharacter(b, Effective(index), c);
      assert b[o] == data[o];
      var sourceSize := LeadSize(data[o]);
      LastByte(b);
      Replace(o, sourceSize, Encode(c));
    }

    /** Puts an encoding in place of some bytes: move down and truncate, or copy to a larger buffer. */
    method Replace(offset: nat, sourceSize: nat, e: seq<Byte>)
      requires size <= data.Length && offset + sourceSize <= size
      requires |e| < sourceSize ==> offset + sourceSize < size && data[size - 1] == 0
      modifies this`data, this`size, data
      ensures size <= data.Length && (data == old(data) || fresh(data))
      ensures Bytes() == old(Bytes())[..offset] + e + old(Bytes())[offset + sourceSize..]
    {
      ghost var b := Bytes();
      if sourceSize > |e| {
        Narrow(offset, sourceSize, |e|);
      } else if |e| > sourceSize {
        Widen(offset, sourceSize, |e|);
      }
      assert data[..offset] == b[..offset] && data[offset + |e|..size] == b[offset + sourceSize..];
      PutBytes(offset, e);
    }

    /** Cuts behind the given number of characters. */
    method Truncate(length: nat)
      requires Valid()
      modifies this`size, data
      ensures Valid() && Text() == old(Text())[..Min(Effective(length), |old(Text())|)]
    {
      hide Characters, Offset, WellFormed, Flatten;
      ghost var cs, k := Text(), Min(Effective(length), |Text()|);
      var o := GetStringOffset(data, size, ToInt32(length));
      OffsetPrefix(Bytes(), Effective(length));
      CharactersAreCharacters(Bytes());
      CharactersOfFlat(cs[..k], []);
      size := o + 1;
      data[o] := 0;
      assert data[..size] == Terminated(cs[..k]) + [];
    }

    /** The first index, counted from the one given, of a character with this value. */
    method FirstIndexOf(c: U32, off: nat) returns (index: nat)
      requires Valid()
      ensures forall k ::
        (Effective(off) <= k < |Text()| && Matches(Text()[k], c)
          && (forall j :: Effective(off) <= j < k ==> !Matches(Text()[j], c))) ==>
          index == ToSize(off + k - Effective(off))
      ensures (forall k :: Effective(off) <= k < |Text()| ==> !Matches(Text()[k], c)) ==>
        index == 0xffff_ffff_ffff_ffff
    {
      hide Characters, Offset, WellFormed, Flatten, Terminated, Matches, ToSize;
      ghost var b, j := Bytes(), Effective(off);
      var p := GetStringOffset(data, size, ToInt32(off));
      index := ToSize(off);
      EndAt(b, j);
      while data[p] != 0
        invariant Effective(off) <= j && p == Offset(b, j) && index == ToSize(off + j - Effective(off))
        invariant j >= |Characters(b)| <==> b[p] == 0
        invariant forall k :: Effective(off) <= k < j && k < |Characters(b)| ==> !Matches(Characters(b)[k], c)
        decreases size - p
      {
        var d, n := DecodeAt(data, size, p, j);
        OneValue(b, j, c, d);
        if d == c {
          assert Matches(Text()[j], c);
          return;
        }
        p := p + n;
        SizeStep(off + j - Effective(off));
        index := ToSize(index + 1);
        j := j + 1;
        EndAt(b, j);
      }
      index := NOT_FOUND;
    }

    /** The last index, counted from the one given, of a character with this value. */
    method LastIndexOf(c: U32, off: nat) returns (last: nat)
      requires Valid()
      ensures last == LastIndex(Text(), c, off)
    {
      hide Characters, Offset, WellFormed, Flatten, Terminated, Matches, LastBefore, ToSize;
      ghost var b, j, start := Bytes(), Effective(off), Effective(off);
      ghost var cs := Characters(b);
      var p := GetStringOffset(data, size, ToInt32(off));
      var index := ToSize(off);
      last := NOT_FOUND;
      NoneBefore(cs, c, off, j);
      EndAt(b, j);
      while data[p] != 0
        invariant start <= j && p == Offset(b, j) && index == ToSize(off + j - start)
        invariant j >= |cs| <==> b[p] == 0
        invariant last == LastBefore(cs, c, off, j) && (j > |cs| ==> j == start)
        decreases size - p
      {
        var d, n := DecodeAt(data, size, p, j);
        OneValue(b, j, c, d);
        LastBeforeStep(cs, c, off, j);
        if d == c {
          last := index;
        }
        p := p + n;
        SizeStep(off + j - start);
        index := ToSize(index + 1);
        j := j + 1;
        EndAt(b, j);
      }
      if j > |cs| {
        NoneBefore(cs, c, off, |cs|);
      }
    }

    method PutBytes(offset: nat, e: seq<Byte>)
      requires offset + |e| <= size <= data.Length
      modifies data
      ensures data[..size] == old(data[..offset]) + e + old(data[offset + |e|..size])
    {
      ghost var before := data[..size];
      forall i | 0 <= i < |e| {
        data[offset + i] := e[i];
      }
      assert data[..size] == before[..offset] + e + before[offset + |e|..];
    }

    method Narrow(offset: nat, sourceSize: nat, destSize: nat)
      requires size <= data.Length && destSize < sourceSize && offset + sourceSize < size && data[size - 1] == 0
      modifies this`size, data
      ensures size == old(size) - (sourceSize - destSize) && size <= data.Length
      ensures data[..offset] == old(data[..offset])
      ensures data[offset + destSize..size] == old(Bytes())[offset + sourceSize..]
    {
      var rest := size - offset - sourceSize;
      MoveMemory(data, offset + destSize, offset + sourceSize, rest);
      size := size - (sourceSize - destSize);
      ghost var moved := data[..];
      assert data[offset + destSize..size][rest - 1] == 0;
      data[size - 1] := 0;
      assert data[..] == moved;
      assert data[..offset] == data[..offset + destSize][..offset];
    }

    method Widen(offset: nat, sourceSize: nat, destSize: nat)
      requires size <= data.Length && sourceSize < destSize && offset + sourceSize <= size
      modifies this`data, this`size
      ensures fresh(data) && size == data.Length == old(size) + (destSize - sourceSize)
      ensures data[..offset] == old(data[..offset])
      ensures data[offset + destSize..size] == old(Bytes())[offset + sourceSize..]
    {
      var larger := new Byte[size + destSize - sourceSize];
      forall i | 0 <= i < offset {
        larger[i] := data[i];
      }
      forall i | offset + destSize <= i < larger.Length {
        larger[i] := data[i - destSize + sourceSize];
      }
      assert larger[..offset] == data[..offset];
      assert larger[offset + destSize..] == data[offset + sourceSize..size];
      data := larger;
      size := larger.Length;
    }
  }

  /** A new string whose length is asked for, perhaps before it is cut, and after: the first answer stays. */
  method LengthAcrossTruncate(cs: seq<seq<Byte>>, length: nat, askFirst: bool) returns (n: nat)
    requires AllCharacters(cs)
    ensures n == if askFirst then |cs| else Min(Effective(length), |cs|)
  {
    var s := new Utf8String(cs);
    if askFirst {
      n := s.GetLength();
    }
    s.Truncate(length);
    n := s.GetLength();
  }

  /** In a string in the standard's form every index has its code point. */
  method CharacterOfStandard(codes: seq<U32>, index: nat) returns (c: U32)
    requires forall i :: 0 <= i < |codes| ==> 0 < codes[i] < 0x20_0000
    ensures c == if Effective(index) < |codes| then codes[Effective(index)] else 0
  {
    var cs := seq(|codes|, i requires 0 <= i < |codes| => Standard(codes[i]));
    forall i | 0 <= i < |codes| ensures IsCharacter(cs[i]) && Decode(cs[i]) == codes[i] {
      DecodeStandard(codes[i]);
    }
    var s := new Utf8String(cs);
    c := s.GetCharacter(index);
  }

  /** Characters without a terminator are no string. */
  lemma {:induction false} Unterminated(cs: seq<seq<Byte>>)
    requires AllCharacters(cs)
    ensures !WellFormed(Flatten(cs))
  {
    if cs != [] {
      Unterminated(cs[1..]);
      assert Flatten(cs)[..|cs[0]|] == cs[0] && Flatten(cs)[|cs[0]|..] == Flatten(cs[1..]);
      assert Flatten(cs)[0] == cs[0][0];
    }
  }

  lemma UnterminatedWith(cs: seq<seq<Byte>>, c: U32)
    requires AllCharacters(cs)
    ensures !WellFormed(Flatten(cs) + Encode(c))
  {
    EncodeLead(c);
    FlattenConcat(cs, [Encode(c)]);
    assert Flatten([Encode(c)]) == Encode(c) + Flatten([]) == Encode(c);
    Unterminated(cs + [Encode(c)]);
  }

  /** The code points of some characters. */
  ghost function Codes(cs: seq<seq<Byte>>): (r: seq<U32>)
    requires AllCharacters(cs)
    ensures |r| == |cs|
  {
    seq(|cs|, i requires 0 <= i < |cs| => Decode(cs[i]))
  }

  /** Replacing a character by an encoding replaces its code point, if and only if that is below 2^21. */
  lemma CodesUpdated(cs: seq<seq<Byte>>, i: nat, c: U32)
    requires AllCharacters(cs) && i < |cs|
    ensures AllCharacters(cs[i := Encode(c)])
    ensures Codes(cs[i := Encode(c)]) == Codes(cs)[i := c] <==> c < 0x20_0000
  {
    hide Encode, Decode;
    DecodeEncode(c);
    assert Codes(cs[i := Encode(c)])[i] == Decode(Encode(c)) && Codes(cs)[i := c][i] == c;
  }

  /** The bytes with one character replaced are the terminated string with that character replaced. */
  lemma WithCharacter(b: seq<Byte>, k: nat, c: U32)
    requires WellFormed(b) && b == Terminated(Characters(b))
    ensures var cs := Characters(b); var o := Offset(b, k); var n := LeadSize(b[o]);
      && o + n <= |b| && (k < |cs| ==> o + n < |b|) && (k >= |cs| ==> n == 1)
      && (var b' := b[..o] + Encode(c) + b[o + n..];
        && (k < |cs| ==> b' == Terminated(cs[k := Encode(c)]) && WellFormed(b') && Characters(b') == cs[k := Encode(c)])
        && (k >= |cs| ==> b' == Flatten(cs) + Encode(c)))
  {
    hide LeadSize, WellFormed, Encode, Offset, Characters;
    var cs, o := Characters(b), Offset(b, k);
    var n := LeadSize(b[o]);
    AtOffset(b, k);
    OffsetPrefix(b, k);
    if k < |cs| {
      assert b[o..o + |cs[k]|][0] == b[o];
      AroundCharacter(cs, k);
      assert b[o + n..] == Terminated(cs[k + 1..]);
      DecodeEncode(c);
      CharactersAreCharacters(b);
      var ds := cs[k := Encode(c)];
      CharactersOfFlat(ds, []);
      assert Terminated(ds) + [] == Terminated(ds);
    } else {
      LeadOfTerminator();
      assert cs[..|cs|] == cs;
      assert b[o + 1..] == [];
    }
  }

  lemma LastByte(b: seq<Byte>)
    requires WellFormed(b) && b == Terminated(Characters(b))
    ensures b[|b| - 1] == 0
  {}

  lemma LeadOfTerminator()
    ensures LeadSize(0) == 1
  {}
}
