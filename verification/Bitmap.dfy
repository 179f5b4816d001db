/** Bitmaps of eight bits a channel, and the two ways of copying one into another. */
module Bitmaps {
  import opened Basics
  import opened Endian

  datatype Colour = Colour(R: Byte, G: Byte, B: Byte, A: Byte)
  datatype Description = RGB8 | RGBA8 {
    function Size(): nat {
      if RGB8? then 3 else 4
    }

    /** The colour of some stored bytes; without an alpha channel it is opaque. */
    function Show(b: seq<Byte>): Colour
      requires |b| == Size()
    {
      if RGB8? then Colour(b[0], b[1], b[2], 0xff) else Colour(b[0], b[1], b[2], b[3])
    }

    /** What becomes of a colour that is stored. */
    function Kept(c: Colour): Colour {
      if RGB8? then c.(A := 0xff) else c
    }

    function Bytes(c: Colour): (b: seq<Byte>)
      ensures |b| == Size()
    {
      if RGB8? then [c.R, c.G, c.B] else [c.R, c.G, c.B, c.A]
    }
  }

  /** Stored bytes and shown colours determine each other. */
  lemma ShowBytes(d: Description, c: Colour, b: seq<Byte>)
    requires |b| == d.Size()
    ensures d.Show(d.Bytes(c)) == d.Kept(c)
    ensures d.Bytes(d.Show(b)) == b
  {}

  // ----- Coordinates -----

  function Index(x: nat, y: nat, width: nat): nat {
    y * width + x
  }

  lemma Monotone(a: nat, b: nat, c: nat)
    requires a <= b
    ensures a * c <= b * c
  {
    assert b * c == a * c + (b - a) * c;
  }

  lemma IndexBelow(x: nat, y: nat, width: nat, height: nat)
    requires x < width && y < height
    ensures Index(x, y, width) < width * height
  {
    Monotone(y + 1, height, width);
    assert (y + 1) * width == y * width + width;
  }

  lemma IndexOrdered(x: nat, y: nat, x': nat, y': nat, width: nat)
    requires x < width && y < y'
    ensures Index(x, y, width) < Index(x', y', width)
  {
    Monotone(y + 1, y', width);
    assert (y + 1) * width == y * width + width;
  }

  lemma IndexInjective(x: nat, y: nat, x': nat, y': nat, width: nat)
    requires x < width && x' < width && Index(x, y, width) == Index(x', y', width)
    ensures x == x' && y == y'
  {
    if y < y' {
      IndexOrdered(x, y, x', y', width);
    } else if y' < y {
      IndexOrdered(x', y', x, y, width);
    }
  }

  // ----- Pixels as 32-bit integers -----

  /** The channels of a pixel, the lowest byte first. */
  method Split(pixel: U32, size: nat, ghost c: seq<Byte>) returns (b: seq<Byte>)
    requires size <= 4 == |c| && pixel == Digits(c[0], c[1], c[2], c[3])
    ensures b == c[..size]
  {
    b := [];
    var p: nat := pixel;
    while |b| < size
      invariant |b| <= size && b == c[..|b|] && p == Shift(c[0], c[1], c[2], c[3], |b|)
    {
      ShiftStep(c[0], c[1], c[2], c[3], |b|);
      b := b + [p % 0x100];
      p := p / 0x100;
    }
  }

  /** What is left of a pixel after some channels have been taken. */
  function Shift(a: Byte, b: Byte, c: Byte, d: Byte, k: nat): nat {
    if k == 0 then Digits(a, b, c, d) else if k == 1 then Digits(b, c, d, 0)
    else if k == 2 then Digits(c, d, 0, 0) else if k == 3 then Digits(d, 0, 0, 0) else 0
  }

  lemma ShiftStep(a: Byte, b: Byte, c: Byte, d: Byte, k: nat)
    requires k < 4
    ensures Shift(a, b, c, d, k) % 0x100 == [a, b, c, d][k] && Shift(a, b, c, d, k) / 0x100 == Shift(a, b, c, d, k + 1)
  {
    hide Shift;
    ShiftBack(a, b, c, d, k);
    LowDigit([a, b, c, d][k], Shift(a, b, c, d, k + 1));
  }

  lemma LowDigit(x: Byte, q: nat)
    ensures (q * 0x100 + (x as int)) % 0x100 == x && (q * 0x100 + (x as int)) / 0x100 == q
  {}

  // ----- Bitmaps -----

  /** Three bytes as an integer, from the last to the first. */
  method Gather(data: array<Byte>, p: nat) returns (pixel: U32)
    requires p + 3 <= data.Length
    ensures pixel == Digits(data[p], data[p + 1], data[p + 2], 0)
  {
    hide Shift;
    ghost var a, b, c := data[p], data[p + 1], data[p + 2];
    ShiftEnds(a, b, c, 0);
    var sum: nat := 0;
    var i := 3;
    while i > 0
      invariant 0 <= i <= 3 && sum == Shift(a, b, c, 0, i)
    {
      i := i - 1;
      ShiftBack(a, b, c, 0, i);
      sum := sum * 0x100 + (data[p + i] as int);
    }
    pixel := sum;
  }

  lemma ShiftEnds(a: Byte, b: Byte, c: Byte, d: Byte)
    ensures Shift(a, b, c, d, 0) == Digits(a, b, c, d) && Shift(a, b, c, 0, 3) == 0
  {}

  lemma ShiftBack(a: Byte, b: Byte, c: Byte, d: Byte, k: nat)
    requires k < 4
    ensures Shift(a, b, c, d, k) == Shift(a, b, c, d, k + 1) * 0x100 + ([a, b, c, d][k] as int)
  {}

  /** The lowest three bytes of an integer, the lowest put last. */
  method Scatter(data: array<Byte>, p: nat, pixel: U32, ghost c: Colour)
    requires p + 3 <= data.Length && pixel == Digits(c.B, c.G, c.R, 0)
    modifies data
    ensures data[..] == old(data[..p]) + RGB8.Bytes(c) + old(data[p + 3..])
  {
    hide Shift, Digits;
    ghost var before, b := data[..], RGB8.Bytes(c);
    ShiftEnds(c.B, c.G, c.R, 0);
    var rest: nat := pixel;
    var i := 3;
    while i > 0
      invariant 0 <= i <= 3 && rest == Shift(c.B, c.G, c.R, 0, 3 - i)
      invariant data[..] == before[..p + i] + b[i..] + before[p + 3..]
    {
      ShiftStep(c.B, c.G, c.R, 0, 3 - i);
      assert rest % 0x100 == b[i - 1];
      i := i - 1;
      data[p + i] := rest % 0x100;
      rest := rest / 0x100;
    }
  }

  function BytesAt(d: Description, data: seq<Byte>, count: nat, k: nat): (b: seq<Byte>)
    requires |data| == d.Size() * count && k < count
    ensures |b| == d.Size()
  {
    var n := d.Size();
    assert n * k + n <= n * count;
    data[n * k..n * k + n]
  }

  function ColoursOf(d: Description, data: seq<Byte>, count: nat): (cs: seq<Colour>)
    requires |data| == d.Size() * count
    ensures |cs| == count
  {
    seq(count, k requires 0 <= k < count => d.Show(BytesAt(d, data, count, k)))
  }

  /** New bytes for one pixel are a new colour for that pixel only. */
  lemma OneChanged(d: Description, data: seq<Byte>, count: nat, k: nat, c: Colour)
    requires |data| == d.Size() * count && k < count
    ensures var n := d.Size(); n * k + n <= |data|
    ensures var n := d.Size(); var after := data[..n * k] + d.Bytes(c) + data[n * k + n..];
      |after| == |data| && ColoursOf(d, after, count) == ColoursOf(d, data, count)[k := d.Kept(c)]
  {
    hide Patch;
    var n := d.Size();
    Scaled(n, count, k, 1, k);
    var after := data[..n * k] + d.Bytes(c) + data[n * k + n..];
    PatchIs(data, n * k, d.Bytes(c));
    forall j | 0 <= j < count
      ensures BytesAt(d, after, count, j) == if j == k then d.Bytes(c) else BytesAt(d, data, count, j)
    {
      Scaled(n, count, k, 1, j);
      PatchSlice(data, n * k, d.Bytes(c), 0, n, n * j, n);
    }
    ShowBytes(d, c, d.Bytes(c));
  }

  /** Two bitmaps that show the same colours hold the same bytes. */
  lemma SameBytes(d: Description, data: seq<Byte>, data': seq<Byte>, count: nat)
    requires |data| == |data'| == d.Size() * count && ColoursOf(d, data, count) == ColoursOf(d, data', count)
    ensures data == data'
  {
    hide BytesAt;
    var n := d.Size();
    forall i | 0 <= i < |data| ensures data[i] == data'[i] {
      var k := PixelOf(n, count, i);
      var b, b' := BytesAt(d, data, count, k), BytesAt(d, data', count, k);
      assert d.Show(b) == ColoursOf(d, data, count)[k] == ColoursOf(d, data', count)[k] == d.Show(b');
      ShowBytes(d, d.Show(b), b);
      ShowBytes(d, d.Show(b), b');
      ByteAt(d, data, count, k, i);
      ByteAt(d, data', count, k, i);
    }
  }

  /** The pixel that a byte belongs to. */
  lemma PixelOf(n: nat, count: nat, i: nat) returns (k: nat)
    requires (n == 3 || n == 4) && i < n * count
    ensures k < count && n * k <= i < n * k + n
  {
    k := i / n;
  }

  lemma ByteAt(d: Description, data: seq<Byte>, count: nat, k: nat, i: nat)
    requires |data| == d.Size() * count && k < count && d.Size() * k <= i < d.Size() * k + d.Size()
    ensures i < |data| && BytesAt(d, data, count, k)[i - d.Size() * k] == data[i]
  {}

  // ----- Copies -----

  /** A rectangle to be copied from the corner of one image into another. */
  datatype Copy = Copy(dw: nat, dh: nat, sw: nat, sh: nat, x: nat, y: nat, w: nat, rows: nat, d: Description) {
    ghost predicate Fits() {
      x + w <= dw && y + rows <= dh && w <= sw && rows <= sh
    }

    /** From an image onto itself, without a row that overlaps its source. */
    ghost predicate Onto() {
      dw == sw && dh == sh && (x >= w || y > 0)
    }

    predicate Inside(i: nat, j: nat) {
      x <= i < x + w && y <= j < y + rows
    }
  }

  /** What a pixel of the destination is to be. */
  ghost function After(c: Copy, before: seq<Colour>, source: seq<Colour>, i: nat, j: nat): Colour
    requires c.Fits() && |before| == c.dw * c.dh && |source| == c.sw * c.sh && i < c.dw && j < c.dh
  {
    if c.Inside(i, j) then
      IndexBelow(i - c.x, j - c.y, c.sw, c.sh);
      c.d.Kept(source[Index(i - c.x, j - c.y, c.sw)])
    else
      At(before, c.dw, c.dh, i, j)
  }

  ghost function At(cs: seq<Colour>, width: nat, height: nat, i: nat, j: nat): Colour
    requires |cs| == width * height && i < width && j < height
  {
    IndexBelow(i, j, width, height);
    cs[Index(i, j, width)]
  }

  ghost predicate Copied(c: Copy, before: seq<Colour>, source: seq<Colour>, after: seq<Colour>)
    requires c.Fits() && |before| == |after| == c.dw * c.dh && |source| == c.sw * c.sh
  {
    forall i: nat, j: nat :: i < c.dw && j < c.dh ==> At(after, c.dw, c.dh, i, j) == After(c, before, source, i, j)
  }

  /** Only the columns before one, and of that the rows before one, have been copied. */
  ghost function Partly(
      c: Copy, before: seq<Colour>, source: seq<Colour>, column: nat, row: nat, i: nat, j: nat): Colour
    requires c.Fits() && |before| == c.dw * c.dh && |source| == c.sw * c.sh && i < c.dw && j < c.dh
  {
    if i < column || (i == column && j < row) then After(c, before, source, i, j) else At(before, c.dw, c.dh, i, j)
  }

  ghost predicate CopiedTo(c: Copy, before: seq<Colour>, source: seq<Colour>, after: seq<Colour>, column: nat, row: nat)
    requires c.Fits() && |before| == |after| == c.dw * c.dh && |source| == c.sw * c.sh
  {
    forall i: nat, j: nat | i < c.dw && j < c.dh ::
      At(after, c.dw, c.dh, i, j) == Partly(c, before, source, column, row, i, j)
  }

  lemma AtUpdated(cs: seq<Colour>, width: nat, height: nat, x: nat, y: nat, c: Colour, i: nat, j: nat)
    requires |cs| == width * height && x < width && y < height && i < width && j < height
    ensures Index(x, y, width) < |cs|
    ensures At(cs[Index(x, y, width) := c], width, height, i, j) ==
      if i == x && j == y then c else At(cs, width, height, i, j)
  {
    hide Index;
    IndexBelow(x, y, width, height);
    IndexBelow(i, j, width, height);
    if Index(i, j, width) == Index(x, y, width) {
      IndexInjective(i, j, x, y, width);
    }
  }

  lemma OneCopied(c: Copy, before: seq<Colour>, source: seq<Colour>, after: seq<Colour>, column: nat, row: nat)
    requires c.Fits() && |before| == |after| == c.dw * c.dh && |source| == c.sw * c.sh
    requires CopiedTo(c, before, source, after, column, row) && column < c.dw && row < c.dh
    ensures Index(column, row, c.dw) < |after|
    ensures CopiedTo(c, before, source,
      after[Index(column, row, c.dw) := After(c, before, source, column, row)], column, row + 1)
  {
    hide At, Index, After;
    IndexBelow(column, row, c.dw, c.dh);
    var one := After(c, before, source, column, row);
    var after' := after[Index(column, row, c.dw) := one];
    forall i: nat, j: nat | i < c.dw && j < c.dh
      ensures At(after', c.dw, c.dh, i, j) == Partly(c, before, source, column, row + 1, i, j)
    {
      AtUpdated(after, c.dw, c.dh, column, row, one, i, j);
      assert At(after, c.dw, c.dh, i, j) == Partly(c, before, source, column, row, i, j);
    }
  }

  lemma ColumnCopied(c: Copy, before: seq<Colour>, source: seq<Colour>, after: seq<Colour>, column: nat)
    requires c.Fits() && |before| == |after| == c.dw * c.dh && |source| == c.sw * c.sh
    requires CopiedTo(c, before, source, after, column, c.y + c.rows)
    ensures CopiedTo(c, before, source, after, column + 1, c.y)
  {
    hide Index;
    forall i: nat, j: nat | i < c.dw && j < c.dh
      ensures At(after, c.dw, c.dh, i, j) == Partly(c, before, source, column + 1, c.y, i, j)
    {
      assert At(after, c.dw, c.dh, i, j) == Partly(c, before, source, column, c.y + c.rows, i, j);
    }
  }

  /** The rows that the fast copy takes: it starts counting at the row it copies to. */
  function FastRows(y: nat, height: nat): nat {
    if y < height then height - y else 0
  }

  /**
   * Where a rectangle fits both images, copying it by rows gives what copying it by pixels does, whatever
   * the images show, exactly if it goes to the topmost row or is empty.
   */
  lemma RowsAgreeIff(c: Copy)
    requires c.Fits()
    ensures (forall before: seq<Colour>, source: seq<Colour>, i: nat, j: nat ::
        |before| == c.dw * c.dh && |source| == c.sw * c.sh && i < c.dw && j < c.dh ==>
          After(c, before, source, i, j) == After(c.(rows := FastRows(c.y, c.rows)), before, source, i, j))
      <==> c.y == 0 || c.w == 0 || c.rows == 0
  {
    hide At, Index;
    var fast := c.(rows := FastRows(c.y, c.rows));
    if c.y > 0 && c.w > 0 && c.rows > 0 {
      LastRowDiffers(c);
    }
  }

  /** Copying white over black, the last row of the rectangle stays black. */
  lemma LastRowDiffers(c: Copy)
    requires c.Fits() && c.y > 0 && c.w > 0 && c.rows > 0
    ensures var before := seq(c.dw * c.dh, _ => Colour(0, 0, 0, 0xff));
      var source := seq(c.sw * c.sh, _ => Colour(0xff, 0xff, 0xff, 0xff));
      After(c, before, source, c.x, c.y + c.rows - 1) !=
        After(c.(rows := FastRows(c.y, c.rows)), before, source, c.x, c.y + c.rows - 1)
  {
    hide Index;
    IndexBelow(0, c.rows - 1, c.sw, c.sh);
    IndexBelow(c.x, c.y + c.rows - 1, c.dw, c.dh);
  }

  class Bitmap {
    const width: U32
    const height: U32
    const description: Description
    const littleMachine: bool
    const pixelData: array<Byte>

    /** The allocation takes the size as a signed 32-bit integer. */
    ghost predicate Valid()
      reads this
    {
      pixelData.Length == description.Size() * (width * height) < 0x8000_0000
    }

    ghost function Colours(): (cs: seq<Colour>)
      requires Valid()
      reads this, pixelData
      ensures |cs| == width * height
    {
      ColoursOf(description, pixelData[..], width * height)
    }

    constructor (width: U32, height: U32, description: Description, littleMachine: bool)
      requires description.Size() * (width * height) < 0x8000_0000
      ensures Valid() && fresh(pixelData)
      ensures this.width == width && this.height == height && this.description == description
      ensures forall k :: 0 <= k < pixelData.Length ==> pixelData[k] == 0
    {
      this.width, this.height, this.description, this.littleMachine := width, height, description, littleMachine;
      pixelData := new Byte[description.Size() * (width * height)](_ => 0);
    }

    /** Reads the bytes as an integer, lowest first, and takes its channels apart. */
    method GetPixel(x: U32, y: U32) returns (c: Option<Colour>)
      requires Valid()
      ensures x >= width || y >= height ==> c == None
      ensures x < width && y < height ==>
        Index(x, y, width) < width * height && c == Some(Colours()[Index(x, y, width)])
    {
      if x >= width || y >= height {
        return None;
      }
      IndexBelow(x, y, width, height);
      var offset := y * width + x;
      var n := description.Size();
      assert n * offset + n <= n * (width * height);
      ghost var b := BytesAt(description, pixelData[..], width * height, offset);
      assert b == pixelData[n * offset..n * offset + n];
      var pixel: U32;
      if description.RGBA8? {
        LittleEndianEverywhere(littleMachine, b);
        pixel := ReadLE32(littleMachine, pixelData[4 * offset..4 * offset + 4]);
      } else {
        pixel := Gather(pixelData, 3 * offset);
      }
      var channels := Split(pixel, n, if n == 4 then b else b + [0]);
      c := Some(description.Show(channels));
    }

    /** Puts the channels together, the first at the top, and writes the bytes highest first. */
    method SetPixel(x: U32, y: U32, c: Colour) returns (ok: bool)
      requires Valid()
      modifies pixelData
      ensures ok <==> x < width && y < height
      ensures !ok ==> pixelData[..] == old(pixelData[..])
      ensures ok ==> Index(x, y, width) < width * height
      ensures ok ==> Colours() == old(Colours())[Index(x, y, width) := description.Kept(c)]
    {
      if x >= width || y >= height {
        return false;
      }
      IndexBelow(x, y, width, height);
      var offset := y * width + x;
      OneChanged(description, pixelData[..], width * height, offset, c);
      ghost var before, n := pixelData[..], description.Size();
      if description.RGBA8? {
        var b := Join(littleMachine, c);
        pixelData[4 * offset], pixelData[4 * offset + 1] := b[0], b[1];
        pixelData[4 * offset + 2], pixelData[4 * offset + 3] := b[2], b[3];
      } else {
        Scatter(pixelData, 3 * offset, Digits(c.B, c.G, c.R, 0), c);
      }
      assert pixelData[..] == before[..n * offset] + description.Bytes(c) + before[n * offset + n..];
      ok := true;
    }
  }

  /** The four bytes that a colour is stored in, whatever the machine. */
  method Join(littleMachine: bool, c: Colour) returns (b: seq<Byte>)
    ensures b == RGBA8.Bytes(c)
  {
    var pixel := Digits(c.A, c.B, c.G, c.R);
    BigEndianEverywhere(littleMachine, pixel);
    DigitsOfDigits(c.A, c.B, c.G, c.R);
    b := WriteBE32(littleMachine, pixel);
  }

  /** The rectangle that is left of one after clipping; nothing if it starts outside. */
  ghost function Clipped(from: Bitmap, to: Bitmap, x: nat, y: nat, width: nat, height: nat): (c: Copy)
    ensures c.Fits()
  {
    if x > to.width || y > to.height then Copy(to.width, to.height, from.width, from.height, 0, 0, 0, 0, to.description)
    else Copy(to.width, to.height, from.width, from.height, x, y, Min(Min(width, to.width - x), from.width),
      Min(Min(height, to.height - y), from.height), to.description)
  }

  /** The copy of the base class: pixel by pixel, column by column. */
  method CopyPixels(from: Bitmap, to: Bitmap, x: U32, y: U32, width: U32, height: U32)
    requires from.Valid() && to.Valid() && from.pixelData != to.pixelData
    modifies to.pixelData
    ensures Copied(Clipped(from, to, x, y, width, height), old(to.Colours()), from.Colours(), to.Colours())
  {
    hide At, Index, After, Bitmap.Valid, Bitmap.Colours;
    ghost var c := Clipped(from, to, x, y, width, height);
    ghost var before, source := to.Colours(), from.Colours();
    if x > to.width || y > to.height {
      NothingCopied(c, before, source);
      return;
    }
    var w := Min(Min(width, to.width - x), from.width);
    var h := Min(Min(height, to.height - y), from.height);
    var i: nat := x;
    NothingCopied(c, before, source);
    while i < x + w
      invariant x <= i <= x + w && to.Valid() && from.Colours() == source
      invariant CopiedTo(c, before, source, to.Colours(), i, y)
    {
      var j: nat := y;
      while j < y + h
        invariant y <= j <= y + h && to.Valid() && from.Colours() == source
        invariant CopiedTo(c, before, source, to.Colours(), i, j)
      {
        var colour := from.GetPixel(i - x, j - y);
        OneCopied(c, before, source, to.Colours(), i, j);
        AfterInside(c, before, source, i, j);
        var _ := to.SetPixel(i, j, colour.value);
        j := j + 1;
      }
      ColumnCopied(c, before, source, to.Colours(), i);
      i := i + 1;
    }
    AllCopied(c, before, source, to.Colours(), i);
  }

  lemma NothingCopied(c: Copy, before: seq<Colour>, source: seq<Colour>)
    requires c.Fits() && |before| == c.dw * c.dh && |source| == c.sw * c.sh
    ensures CopiedTo(c, before, source, before, c.x, c.y)
    ensures c.rows == 0 || c.w == 0 ==> Copied(c, before, source, before)
  {
    hide Index;
  }

  lemma AllCopied(c: Copy, before: seq<Colour>, source: seq<Colour>, after: seq<Colour>, column: nat)
    requires c.Fits() && |before| == |after| == c.dw * c.dh && |source| == c.sw * c.sh
    requires CopiedTo(c, before, source, after, column, c.y) && column >= c.x + c.w
    ensures Copied(c, before, source, after)
  {
    hide Index;
    forall i: nat, j: nat | i < c.dw && j < c.dh
      ensures At(after, c.dw, c.dh, i, j) == After(c, before, source, i, j)
    {
      assert At(after, c.dw, c.dh, i, j) == Partly(c, before, source, column, c.y, i, j);
    }
  }

  lemma AfterInside(c: Copy, before: seq<Colour>, source: seq<Colour>, i: nat, j: nat)
    requires c.Fits() && |before| == c.dw * c.dh && |source| == c.sw * c.sh && c.Inside(i, j)
    ensures Index(i - c.x, j - c.y, c.sw) < |source|
    ensures After(c, before, source, i, j) == c.d.Kept(source[Index(i - c.x, j - c.y, c.sw)])
  {
    IndexBelow(i - c.x, j - c.y, c.sw, c.sh);
  }

  // ----- The copy by rows -----

  /** Some elements replaced by as many of another sequence. */
  function Patch<T>(to: seq<T>, at: nat, from: seq<T>, start: nat, n: nat): (r: seq<T>)
    requires at + n <= |to| && start + n <= |from|
    ensures |r| == |to|
    ensures forall k :: 0 <= k < |to| ==> r[k] == if at <= k < at + n then from[start + (k - at)] else to[k]
  {
    to[..at] + from[start..start + n] + to[at + n..]
  }

  method CopyMemory(to: array<Byte>, at: nat, from: array<Byte>, start: nat, n: nat)
    requires at + n <= to.Length && start + n <= from.Length
    requires to == from ==> at + n <= start || start + n <= at
    modifies to
    ensures to[..] == Patch(old(to[..]), at, old(from[..]), start, n)
  {
    forall k | 0 <= k < n {
      to[at + k] := from[start + k];
    }
    assert to[..] == Patch(old(to[..]), at, old(from[..]), start, n);
  }

  /** Copying bytes copies colours. */
  lemma PatchColours(
      d: Description, to: seq<Byte>, count: nat, at: nat, from: seq<Byte>, fromCount: nat, start: nat, m: nat)
    requires |to| == d.Size() * count && |from| == d.Size() * fromCount
    requires at + m <= count && start + m <= fromCount
    ensures var n := d.Size(); n * at + n * m <= |to| && n * start + n * m <= |from|
    ensures var n := d.Size();
      ColoursOf(d, Patch(to, n * at, from, n * start, n * m), count) ==
        Patch(ColoursOf(d, to, count), at, ColoursOf(d, from, fromCount), start, m)
  {
    hide Patch, BytesAt;
    var n := d.Size();
    assert n * at + n * m <= |to| && n * start + n * m <= |from|;
    var r := Patch(to, n * at, from, n * start, n * m);
    forall k | 0 <= k < count
      ensures BytesAt(d, r, count, k) ==
        if at <= k < at + m then BytesAt(d, from, fromCount, start + (k - at)) else BytesAt(d, to, count, k)
    {
      BytesPatched(d, to, count, at, from, fromCount, start, m, k);
    }
  }

  lemma BytesPatched(
      d: Description, to: seq<Byte>, count: nat, at: nat, from: seq<Byte>, fromCount: nat, start: nat, m: nat, k: nat)
    requires |to| == d.Size() * count && |from| == d.Size() * fromCount
    requires at + m <= count && start + m <= fromCount && k < count
    ensures var n := d.Size(); n * at + n * m <= |to| && n * start + n * m <= |from|
    ensures var n := d.Size(); var r := Patch(to, n * at, from, n * start, n * m);
      BytesAt(d, r, count, k) ==
        if at <= k < at + m then BytesAt(d, from, fromCount, start + (k - at)) else BytesAt(d, to, count, k)
  {
    hide Patch;
    var n := d.Size();
    Scaled(n, count, at, m, k);
    Scaled(n, fromCount, start, m, start);
    if at <= k < at + m {
      ScaledInside(n, at, start, m, k);
    }
    PatchSlice(to, n * at, from, n * start, n * m, n * k, n);
  }

  lemma Scaled(n: nat, count: nat, at: nat, m: nat, k: nat)
    requires (n == 3 || n == 4) && at + m <= count
    ensures n * at + n * m <= n * count
    ensures k < count ==> n * k + n <= n * count
    ensures k < at ==> n * k + n <= n * at
    ensures k >= at + m ==> n * at + n * m <= n * k
  {}

  lemma ScaledInside(n: nat, at: nat, start: nat, m: nat, k: nat)
    requires (n == 3 || n == 4) && at <= k < at + m
    ensures n * at <= n * k && n * k + n <= n * at + n * m
    ensures n * (start + (k - at)) == n * start + (n * k - n * at)
  {}

  lemma PatchIs<T>(to: seq<T>, at: nat, piece: seq<T>)
    requires at + |piece| <= |to|
    ensures Patch(to, at, piece, 0, |piece|) == to[..at] + piece + to[at + |piece|..]
  {}

  /** Slices of patched sequences that lie inside or outside the patch. */
  lemma PatchSlice<T>(to: seq<T>, at: nat, from: seq<T>, start: nat, m: nat, p: nat, n: nat)
    requires at + m <= |to| && start + m <= |from| && p + n <= |to|
    ensures at <= p && p + n <= at + m ==>
      Patch(to, at, from, start, m)[p..p + n] == from[start + (p - at)..start + (p - at) + n]
    ensures p + n <= at || at + m <= p ==> Patch(to, at, from, start, m)[p..p + n] == to[p..p + n]
  {}

  /** One more row. */
  lemma RowCopied(c: Copy, r: nat, before: seq<Colour>, source: seq<Colour>, after: seq<Colour>)
    requires c.Fits() && r < c.rows && |before| == |after| == c.dw * c.dh && |source| == c.sw * c.sh
    requires Copied(c.(rows := r), before, source, after)
    requires forall k :: 0 <= k < |source| ==> c.d.Kept(source[k]) == source[k]
    ensures Index(c.x, c.y + r, c.dw) + c.w <= |after| && Index(0, r, c.sw) + c.w <= |source|
    ensures Copied(c.(rows := r + 1), before, source,
      Patch(after, Index(c.x, c.y + r, c.dw), source, Index(0, r, c.sw), c.w))
  {
    RowFits(c.x, c.y + r, c.dw, c.dh, c.w);
    RowFits(0, r, c.sw, c.sh, c.w);
    var after' := Patch(after, Index(c.x, c.y + r, c.dw), source, Index(0, r, c.sw), c.w);
    forall i: nat, j: nat | i < c.dw && j < c.dh
      ensures At(after', c.dw, c.dh, i, j) == After(c.(rows := r + 1), before, source, i, j)
    {
      OneOfRow(c, r, source, after, i, j);
      assert At(after, c.dw, c.dh, i, j) == After(c.(rows := r), before, source, i, j);
      if j == c.y + r && c.x <= i < c.x + c.w {
        IndexBelow(i - c.x, r, c.sw, c.sh);
      }
    }
  }

  lemma RowFits(x: nat, y: nat, width: nat, height: nat, w: nat)
    requires x + w <= width && y < height
    ensures Index(x, y, width) + w <= width * height
  {
    Monotone(y + 1, height, width);
    assert (y + 1) * width == y * width + width;
  }

  lemma OneOfRow(c: Copy, r: nat, source: seq<Colour>, after: seq<Colour>, i: nat, j: nat)
    requires c.Fits() && r < c.rows && |after| == c.dw * c.dh && |source| == c.sw * c.sh && i < c.dw && j < c.dh
    ensures Index(c.x, c.y + r, c.dw) + c.w <= |after| && Index(0, r, c.sw) + c.w <= |source|
    ensures var after' := Patch(after, Index(c.x, c.y + r, c.dw), source, Index(0, r, c.sw), c.w);
      At(after', c.dw, c.dh, i, j) ==
        if j == c.y + r && c.x <= i < c.x + c.w then At(source, c.sw, c.sh, i - c.x, r) else At(after, c.dw, c.dh, i, j)
  {
    RowFits(c.x, c.y + r, c.dw, c.dh, c.w);
    RowFits(0, r, c.sw, c.sh, c.w);
    IndexBelow(i, j, c.dw, c.dh);
    if j < c.y + r {
      IndexOrdered(i, j, c.x, c.y + r, c.dw);
    } else if j > c.y + r && c.w > 0 {
      IndexOrdered(c.x + c.w - 1, c.y + r, i, j, c.dw);
    }
  }

  // ----- Copies of a bitmap onto itself -----

  /**
   * What a pixel is to be when the rows are copied within one image, from the top: the rows copied last
   * come from rows already copied to.
   */
  ghost function Chain(c: Copy, before: seq<Colour>, i: nat, j: nat): Colour
    requires c.Fits() && c.Onto() && |before| == c.dw * c.dh && i < c.dw && j < c.dh
    decreases j, i
  {
    if c.Inside(i, j) then Chain(c, before, i - c.x, j - c.y) else At(before, c.dw, c.dh, i, j)
  }

  ghost predicate Smeared(c: Copy, before: seq<Colour>, after: seq<Colour>)
    requires c.Fits() && c.Onto() && |before| == |after| == c.dw * c.dh
  {
    forall i: nat, j: nat :: i < c.dw && j < c.dh ==> At(after, c.dw, c.dh, i, j) == Chain(c, before, i, j)
  }

  lemma NothingSmeared(c: Copy, before: seq<Colour>)
    requires c.Fits() && c.Onto() && |before| == c.dw * c.dh
    ensures Smeared(c.(rows := 0), before, before)
  {
    hide At;
  }

  /** The next row changes nothing but that row. */
  lemma {:induction false} ChainSame(c: Copy, r: nat, before: seq<Colour>, i: nat, j: nat)
    requires c.Fits() && c.Onto() && r < c.rows && |before| == c.dw * c.dh && i < c.dw && j < c.dh
    requires !(j == c.y + r && c.x <= i < c.x + c.w)
    ensures Chain(c.(rows := r + 1), before, i, j) == Chain(c.(rows := r), before, i, j)
    decreases j, i
  {
    hide At;
    if c.(rows := r).Inside(i, j) {
      ChainSame(c, r, before, i - c.x, j - c.y);
    }
  }

  lemma RowSmeared(c: Copy, r: nat, before: seq<Colour>, after: seq<Colour>)
    requires c.Fits() && c.Onto() && r < c.rows && |before| == |after| == c.dw * c.dh
    requires Smeared(c.(rows := r), before, after)
    ensures Index(0, r, c.sw) + c.w <= Index(c.x, c.y + r, c.dw)
    ensures Index(c.x, c.y + r, c.dw) + c.w <= |after|
    ensures Smeared(c.(rows := r + 1), before,
      Patch(after, Index(c.x, c.y + r, c.dw), after, Index(0, r, c.sw), c.w))
  {
    hide At, Index, Patch;
    RowFits(c.x, c.y + r, c.dw, c.dh, c.w);
    RowFits(0, r, c.sw, c.sh, c.w);
    RowsApart(c, r);
    var after' := Patch(after, Index(c.x, c.y + r, c.dw), after, Index(0, r, c.sw), c.w);
    forall i: nat, j: nat | i < c.dw && j < c.dh
      ensures At(after', c.dw, c.dh, i, j) == Chain(c.(rows := r + 1), before, i, j)
    {
      OneOfRow(c, r, after, after, i, j);
      if j == c.y + r && c.x <= i < c.x + c.w {
        ChainSame(c, r, before, i - c.x, r);
      } else {
        ChainSame(c, r, before, i, j);
      }
    }
  }

  lemma RowsApart(c: Copy, r: nat)
    requires c.Fits() && c.Onto() && r < c.rows
    ensures Index(0, r, c.sw) + c.w <= Index(c.x, c.y + r, c.dw)
  {
    if c.y > 0 {
      Monotone(r + 1, c.y + r, c.dw);
      assert (r + 1) * c.dw == r * c.dw + c.dw;
    }
  }

  /** Within one image the rows copied are those that were there exactly if they go beside or below themselves. */
  lemma OntoAgreesIff(c: Copy)
    requires c.Fits() && c.Onto()
    ensures (forall before: seq<Colour>, i: nat, j: nat ::
        |before| == c.dw * c.dh && (forall k :: 0 <= k < |before| ==> c.d.Kept(before[k]) == before[k])
          && i < c.dw && j < c.dh ==>
          Chain(c, before, i, j) == After(c, before, before, i, j))
      <==> c.x >= c.w || c.y >= c.rows
  {
    hide Index, At;
    if c.x >= c.w || c.y >= c.rows {
      forall before: seq<Colour>, i: nat, j: nat
        | |before| == c.dw * c.dh && (forall k :: 0 <= k < |before| ==> c.d.Kept(before[k]) == before[k])
          && i < c.dw && j < c.dh
        ensures Chain(c, before, i, j) == After(c, before, before, i, j)
      {
        OntoOnce(c, before, i, j);
      }
    } else {
      OntoTwice(c);
    }
  }

  lemma OntoOnce(c: Copy, before: seq<Colour>, i: nat, j: nat)
    requires c.Fits() && c.Onto() && (c.x >= c.w || c.y >= c.rows) && |before| == c.dw * c.dh
    requires forall k :: 0 <= k < |before| ==> c.d.Kept(before[k]) == before[k]
    requires i < c.dw && j < c.dh
    ensures Chain(c, before, i, j) == After(c, before, before, i, j)
  {
    hide Index;
    if c.Inside(i, j) {
      IndexBelow(i - c.x, j - c.y, c.dw, c.dh);
    }
  }

  function OneWhite(n: nat): seq<Colour> {
    seq(n, k => if k == 0 then Colour(0xff, 0xff, 0xff, 0xff) else Colour(0, 0, 0, 0xff))
  }

  /** The first pixel, alone white, arrives twice. */
  lemma OntoTwice(c: Copy)
    requires c.Fits() && c.Onto() && c.x < c.w && c.y < c.rows
    ensures var before := OneWhite(c.dw * c.dh);
      && (forall k :: 0 <= k < |before| ==> c.d.Kept(before[k]) == before[k])
      && 2 * c.x < c.dw && 2 * c.y < c.dh
      && Chain(c, before, 2 * c.x, 2 * c.y) != After(c, before, before, 2 * c.x, 2 * c.y)
  {
    var before := OneWhite(c.dw * c.dh);
    assert c.Inside(c.x, c.y) && c.Inside(2 * c.x, 2 * c.y);
    IndexBelow(c.x, c.y, c.dw, c.dh);
    IndexOrdered(0, 0, c.x, c.y, c.dw);
    assert Chain(c, before, 2 * c.x, 2 * c.y) == Chain(c, before, c.x, c.y) == Chain(c, before, 0, 0);
    assert Index(0, 0, c.dw) == 0;
  }

  /** The rectangle of the copy by rows. */
  ghost function Rows(from: Bitmap, to: Bitmap, x: nat, y: nat, width: nat, height: nat): Copy {
    Copy(to.width, to.height, from.width, from.height, x, y, width, FastRows(y, height), to.description)
  }

  /** What the copy makes of the destination, when it is that of another bitmap and when it is the source itself. */
  ghost predicate RowsCopied(
      itself: bool, c: Copy, before: seq<Colour>, source: seq<Colour>, after: seq<Colour>)
    requires c.Fits() && |before| == |after| == c.dw * c.dh && |source| == c.sw * c.sh
  {
    if itself then c.Onto() && Smeared(c, before, after) else Copied(c, before, source, after)
  }

  /**
   * The copy between bitmaps of the same description. Nothing is checked: the rows must lie within both and,
   * as memory is copied, not overlap; within one bitmap they do so only in the same row, less than the width away.
   */
  method CopyRows(from: Bitmap, to: Bitmap, x: U32, y: U32, width: U32, height: U32)
    requires from.Valid() && to.Valid() && from.description == to.description
    requires if from == to then x >= width || y > 0 else from.pixelData != to.pixelData
    requires Rows(from, to, x, y, width, height).Fits()
    modifies to.pixelData
    ensures RowsCopied(from == to, Rows(from, to, x, y, width, height),
      old(to.Colours()), old(from.Colours()), to.Colours())
  {
    hide At, After, Index, Times, Bitmap.Colours, Copied, Smeared, Bitmap.Valid, Patch, Description.Size;
    ghost var c, before, source := Rows(from, to, x, y, width, height), to.Colours(), from.Colours();
    OwnColours(from);
    var pixel := from.description.Size();
    var stride, istride, ostride, oindex := Geometry(pixel, width, from.width, to.width, x, y);
    var index := 0;
    var i: nat := y;
    ghost var r := 0;
    if from == to {
      NothingSmeared(c, before);
    } else {
      NothingCopied(c.(rows := 0), before, source);
    }
    while i < height
      invariant r <= c.rows && i == y + r && (from != to ==> from.Colours() == source)
      invariant oindex == Times(pixel, Index(x, y + r, to.width)) && index == Times(pixel, Index(0, r, from.width))
      invariant RowsCopied(from == to, c.(rows := r), before, source, to.Colours())
    {
      if from == to {
        RowSmeared(c, r, before, to.Colours());
      } else {
        RowCopied(c, r, before, source, to.Colours());
      }
      CopyRow(from, to, oindex, index, stride, Index(x, y + r, to.width), Index(0, r, from.width), width);
      NextRow(pixel, x, y + r, to.width);
      NextRow(pixel, 0, r, from.width);
      index := index + istride;
      oindex := oindex + ostride;
      i, r := i + 1, r + 1;
    }
  }

  function Times(a: nat, b: nat): nat {
    a * b
  }

  /** Sizes of rows in bytes, and the offset of the first pixel to write. */
  method Geometry(pixel: nat, width: nat, fromWidth: nat, toWidth: nat, x: nat, y: nat)
      returns (stride: nat, istride: nat, ostride: nat, oindex: nat)
    ensures stride == Times(pixel, width) && istride == Times(pixel, fromWidth) && ostride == Times(pixel, toWidth)
    ensures oindex == Times(pixel, Index(x, y, toWidth)) && Times(pixel, Index(0, 0, fromWidth)) == 0
  {
    stride, istride, ostride := width * pixel, fromWidth * pixel, toWidth * pixel;
    oindex := ostride * y + x * pixel;
    Distribute(pixel, x, y, toWidth);
  }

  lemma Distribute(n: nat, x: nat, y: nat, width: nat)
    ensures width * n * y + x * n == n * (y * width + x)
  {
    assert width * n * y == n * (y * width);
  }

  lemma NextRow(n: nat, x: nat, y: nat, width: nat)
    ensures Times(n, Index(x, y + 1, width)) == Times(n, Index(x, y, width)) + Times(n, width)
  {}

  lemma OwnColours(bitmap: Bitmap)
    requires bitmap.Valid()
    ensures forall k :: 0 <= k < |bitmap.Colours()| ==>
      bitmap.description.Kept(bitmap.Colours()[k]) == bitmap.Colours()[k]
  {}

  /** The memory of one row. */
  method CopyRow(
      from: Bitmap, to: Bitmap, oindex: nat, index: nat, stride: nat, ghost at: nat, ghost start: nat, ghost w: nat)
    requires from.Valid() && to.Valid() && from.description == to.description
    requires from == to || from.pixelData != to.pixelData
    requires at + w <= to.width * to.height && start + w <= from.width * from.height
    requires from == to ==> start + w <= at
    requires var n := to.description.Size(); oindex == Times(n, at) && index == Times(n, start) && stride == Times(n, w)
    modifies to.pixelData
    ensures to.Colours() == Patch(old(to.Colours()), at, old(from.Colours()), start, w)
    ensures from != to ==> from.Colours() == old(from.Colours())
  {
    if start + w <= at {
      Scaled(to.description.Size(), at, start, w, at);
    }
    PatchColours(to.description, to.pixelData[..], to.width * to.height, at,
      from.pixelData[..], from.width * from.height, start, w);
    CopyMemory(to.pixelData, oindex, from.pixelData, index, stride);
  }

  /** By rows if the descriptions agree, as those of a bitmap and itself do, and by pixels if not. */
  method CopyTo(from: Bitmap, to: Bitmap, x: U32, y: U32, width: U32, height: U32)
    requires from.Valid() && to.Valid()
    requires if from == to then x >= width || y > 0 else from.pixelData != to.pixelData
    requires from.description == to.description ==> Rows(from, to, x, y, width, height).Fits()
    modifies to.pixelData
    ensures from.description == to.description ==>
      RowsCopied(from == to, Rows(from, to, x, y, width, height),
        old(to.Colours()), old(from.Colours()), to.Colours())
    ensures from.description != to.description ==>
      Copied(Clipped(from, to, x, y, width, height), old(to.Colours()), from.Colours(), to.Colours())
  {
    if from.description == to.description {
      CopyRows(from, to, x, y, width, height);
    } else {
      CopyPixels(from, to, x, y, width, height);
    }
  }

  /** What a copy makes of the destination is determined by the rectangle and the two images. */
  lemma CopyDetermined(c: Copy, before: seq<Colour>, source: seq<Colour>, a: seq<Colour>, b: seq<Colour>)
    requires c.Fits() && |before| == |a| == |b| == c.dw * c.dh && |source| == c.sw * c.sh
    requires Copied(c, before, source, a) && Copied(c, before, source, b)
    ensures a == b
  {
    hide After, At, Index;
    forall k | 0 <= k < |a| ensures a[k] == b[k] {
      var i, j := Coordinates(a, b, c.dw, c.dh, k);
      assert At(a, c.dw, c.dh, i, j) == At(b, c.dw, c.dh, i, j);
    }
  }

  /** The column and row of a pixel. */
  lemma Coordinates(a: seq<Colour>, b: seq<Colour>, width: nat, height: nat, k: nat) returns (i: nat, j: nat)
    requires |a| == |b| == width * height && k < |a|
    ensures i < width && j < height && At(a, width, height, i, j) == a[k] && At(b, width, height, i, j) == b[k]
  {
    i, j := k % width, k / width;
    if j >= height {
      Monotone(height, j, width);
    }
    assert Index(i, j, width) == k;
  }

  /** A copy to row 0 that fits both images leaves the same bytes by rows as by pixels. */
  lemma CopiesAgree(from: Bitmap, to: Bitmap, x: U32, width: U32, height: U32, before: seq<Colour>,
      byRows: seq<Byte>, byPixels: seq<Byte>)
    requires from.Valid() && to.Valid() && from.description == to.description && |before| == to.width * to.height
    requires Copy(to.width, to.height, from.width, from.height, x, 0, width, height, to.description).Fits()
    requires |byRows| == |byPixels| == to.pixelData.Length
    requires Copied(Rows(from, to, x, 0, width, height), before, from.Colours(),
      ColoursOf(to.description, byRows, to.width * to.height))
    requires Copied(Clipped(from, to, x, 0, width, height), before, from.Colours(),
      ColoursOf(to.description, byPixels, to.width * to.height))
    ensures byRows == byPixels
  {
    hide At, After, Index, ColoursOf, Copied;
    var n := to.width * to.height;
    assert Rows(from, to, x, 0, width, height) == Clipped(from, to, x, 0, width, height);
    CopyDetermined(Rows(from, to, x, 0, width, height), before, from.Colours(),
      ColoursOf(to.description, byRows, n), ColoursOf(to.description, byPixels, n));
    SameBytes(to.description, byRows, byPixels, n);
  }
}
