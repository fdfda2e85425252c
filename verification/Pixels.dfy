/** Pixel output and input of the VGA BIOS (sw/vgabios/vgabios.c) in its three memory models: the
    interleaved two-bit pixels of the CGA modes, one byte a pixel, and four bit planes written
    through the latches. */
module Pixels {

  /** Bit p of a colour. */
  predicate ColourBit(colour: bv8, p: nat)
    requires p < 4
  {
    match p
    case 0 => colour & 0x01 != 0
    case 1 => colour & 0x02 != 0
    case 2 => colour & 0x04 != 0
    case _ => colour & 0x08 != 0
  }

  // ------------------------------------------------------------------ CGA, two bits a pixel

  const CGA_SIZE := 0x4000

  predicate OnCga(x: nat, y: nat) {
    x < 320 && y < 200
  }

  function CgaAddress(x: nat, y: nat): (addr: nat)
    requires OnCga(x, y)
    ensures addr < CGA_SIZE
  {
    x / 4 + y / 2 * 80 + (if y % 2 == 1 then 0x2000 else 0)
  }

  /** A two-bit value moved to the place of pixel k in its byte, the leftmost being the highest. */
  function Place(v: bv8, k: nat): bv8
    requires k < 4
  {
    match k
    case 0 => v << 6
    case 1 => v << 4
    case 2 => v << 2
    case _ => v
  }

  function Field(b: bv8, k: nat): bv8
    requires k < 4
  {
    match k
    case 0 => (b >> 6) & 0x03
    case 1 => (b >> 4) & 0x03
    case 2 => (b >> 2) & 0x03
    case _ => b & 0x03
  }

  /** A byte is its four pixels, the leftmost in the highest place. */
  lemma FieldsOfByte(b: bv8)
    ensures b == Field(b, 0) * 0x40 + Field(b, 1) * 0x10 + Field(b, 2) * 0x04 + Field(b, 3)
    ensures b == Place(Field(b, 0), 0) | Place(Field(b, 1), 1) | Place(Field(b, 2), 2) | Place(Field(b, 3), 3)
  {
  }

  /** The picture begins at address 0, four pixels further right is the next byte, two rows down 80 bytes
      further, and the odd rows begin at 2000h. */
  lemma CgaLayout(x: nat, y: nat)
    requires OnCga(x, y)
    ensures CgaAddress(0, 0) == 0 && CgaAddress(0, 1) == 0x2000
    ensures x + 4 < 320 ==> CgaAddress(x + 4, y) == CgaAddress(x, y) + 1
    ensures x % 4 != 3 ==> CgaAddress(x + 1, y) == CgaAddress(x, y)
    ensures y + 2 < 200 ==> CgaAddress(x, y + 2) == CgaAddress(x, y) + 80
    ensures Line(y) == CgaAddress(0, y)
  {
  }

  /** Two pixels share a byte and a place in it only when they are the same pixel. */
  lemma CgaApart(x: nat, y: nat, x': nat, y': nat)
    requires OnCga(x, y) && OnCga(x', y') && CgaAddress(x, y) == CgaAddress(x', y') && x % 4 == x' % 4
    ensures x == x' && y == y'
  {
  }

  /** Masking a value in changes one field of a byte. */
  lemma FieldSet(data: bv8, v: bv8, k: nat, j: nat)
    requires k < 4 && j < 4 && v & 0x03 == v
    ensures Field((data & !Place(0x03, k)) | Place(v, k), j) == if j == k then v else Field(data, j)
    ensures Field(data ^ Place(v, k), j) == if j == k then Field(data, j) ^ v else Field(data, j)
  {
  }

  /** The colour a write leaves at its pixel: bit 7 asks for exclusive or. */
  function CgaMixed(al: bv8, before: bv8): bv8 {
    if al & 0x80 != 0 then before ^ (al & 0x03) else al & 0x03
  }

  function CgaPixel(m: seq<bv8>, x: nat, y: nat): bv8
    requires |m| == CGA_SIZE && OnCga(x, y)
  {
    Field(m[CgaAddress(x, y)], x % 4)
  }

  lemma ByteMixed(data: bv8, al: bv8, k: nat, j: nat)
    requires k < 4 && j < 4
    ensures var attr, mask := Place(al & 0x03, k), Place(0x03, k);
            Field(if al & 0x80 != 0 then data ^ attr else (data & !mask) | attr, j)
            == if j == k then CgaMixed(al, Field(data, j)) else Field(data, j)
  {
    assert (al & 0x03) & 0x03 == al & 0x03;
    FieldSet(data, al & 0x03, k, j);
  }

  lemma CgaWritten(m: seq<bv8>, m': seq<bv8>, al: bv8, cx: nat, dx: nat, x: nat, y: nat)
    requires |m| == |m'| == CGA_SIZE && OnCga(cx, dx) && OnCga(x, y)
    requires forall i :: 0 <= i < CGA_SIZE && i != CgaAddress(cx, dx) ==> m'[i] == m[i]
    requires forall j: nat :: j < 4 ==>
      Field(m'[CgaAddress(cx, dx)], j)
      == if j == cx % 4 then CgaMixed(al, Field(m[CgaAddress(cx, dx)], j)) else Field(m[CgaAddress(cx, dx)], j)
    ensures CgaPixel(m', x, y) == if x == cx && y == dx then CgaMixed(al, CgaPixel(m, x, y)) else CgaPixel(m, x, y)
  {
    if CgaAddress(x, y) == CgaAddress(cx, dx) && x % 4 == cx % 4 {
      CgaApart(x, y, cx, dx);
    }
  }

  method CgaWrite(mem: array<bv8>, al: bv8, cx: nat, dx: nat)
    requires mem.Length == CGA_SIZE && OnCga(cx, dx)
    modifies mem
    ensures forall i :: 0 <= i < CGA_SIZE && i != CgaAddress(cx, dx) ==> mem[i] == old(mem[i])
    ensures al & 0x80 != 0 ==>
      mem[CgaAddress(cx, dx)] == old(mem[CgaAddress(cx, dx)]) ^ Place(al & 0x03, cx % 4)
    ensures forall x, y :: 0 <= x < 320 && 0 <= y < 200 ==>
      CgaPixel(mem[..], x, y)
      == if x == cx && y == dx then CgaMixed(al, CgaPixel(old(mem[..]), x, y)) else CgaPixel(old(mem[..]), x, y)
  {
    var addr := CgaAddress(cx, dx);
    var data := mem[addr];
    var attr, mask := Place(al & 0x03, cx % 4), Place(0x03, cx % 4);
    var mixed := if al & 0x80 != 0 then data ^ attr else (data & !mask) | attr;
    ghost var m := mem[..];
    forall j: nat | j < 4
      ensures Field(mixed, j) == if j == cx % 4 then CgaMixed(al, Field(data, j)) else Field(data, j)
    {
      ByteMixed(data, al, cx % 4, j);
    }
    mem[addr] := mixed;
    forall x, y | 0 <= x < 320 && 0 <= y < 200
      ensures CgaPixel(mem[..], x, y)
           == if x == cx && y == dx then CgaMixed(al, CgaPixel(m, x, y)) else CgaPixel(m, x, y)
    {
      CgaWritten(m, mem[..], al, cx, dx, x, y);
    }
  }

  method CgaRead(mem: array<bv8>, cx: nat, dx: nat) returns (attr: bv8)
    requires mem.Length == CGA_SIZE && OnCga(cx, dx)
    ensures attr == CgaPixel(mem[..], cx, dx)
  {
    var addr := CgaAddress(cx, dx);
    attr := Field(mem[addr], cx % 4);
  }

  /** Drawing a pixel twice with bit 7 set restores all of memory. */
  method CgaDrawTwice(mem: array<bv8>, al: bv8, cx: nat, dx: nat)
    requires mem.Length == CGA_SIZE && OnCga(cx, dx) && al & 0x80 != 0
    modifies mem
    ensures mem[..] == old(mem[..])
  {
    CgaWrite(mem, al, cx, dx);
    CgaWrite(mem, al, cx, dx);
    XorTwice(old(mem[CgaAddress(cx, dx)]), Place(al & 0x03, cx % 4));
  }

  lemma XorTwice(b: bv8, v: bv8)
    ensures (b ^ v) ^ v == b
  {
  }

  // ------------------------------------------------------------------ CGA, one bit a pixel

  predicate OnOneBit(x: nat, y: nat) {
    x < 640 && y < 200
  }

  function Line(y: nat): (addr: nat)
    requires y < 200
    ensures addr <= 0x2000 + 99 * 80
  {
    y / 2 * 80 + (if y % 2 == 1 then 0x2000 else 0)
  }

  /** The picture of the one-bit mode: eight pixels a byte. */
  predicate OneBitPixel(m: seq<bv8>, x: nat, y: nat)
    requires |m| == CGA_SIZE && OnOneBit(x, y)
  {
    PlaneBit(m[x / 8 + Line(y)], x % 8)
  }

  /** What a read returns: the right bit of the byte for two bits a pixel. */
  predicate OneBitSeen(m: seq<bv8>, x: nat, y: nat)
    requires |m| == CGA_SIZE && OnOneBit(x, y)
  {
    PlaneBit(m[x / 4 + Line(y)], x % 8)
  }

  /** The byte that a write of colour al leaves: bit 7 asks for exclusive or. */
  function OneBitMixed(data: bv8, al: bv8, k: nat): bv8
    requires k < 8
  {
    Combined(data, ColumnMask(k), al & 0x01 != 0, al & 0x80 != 0)
  }

  /** A byte with the bits of the mask replaced, or changed, by ones or zeros. */
  function Combined(data: bv8, mask: bv8, ones: bool, xor: bool): bv8 {
    var attr := if ones then mask else 0;
    if xor then data ^ attr else (data & !mask) | attr
  }

  function OneBitWritten(m: seq<bv8>, al: bv8, x: nat, y: nat): (m': seq<bv8>)
    requires |m| == CGA_SIZE && OnOneBit(x, y)
    ensures |m'| == CGA_SIZE
  {
    var addr := x / 8 + Line(y);
    m[addr := OneBitMixed(m[addr], al, x % 8)]
  }

  predicate OneColumn(mask: bv8) {
    mask != 0 && mask & (mask - 1) == 0
  }

  /** Seen through a column, only the masked column is affected. */
  lemma CombinedBit(data: bv8, mask: bv8, seen: bv8, ones: bool, xor: bool)
    requires OneColumn(mask) && OneColumn(seen)
    ensures (Combined(data, mask, ones, xor) & seen != 0)
         == if mask != seen then data & seen != 0 else ones != (xor && data & seen != 0)
  {
  }

  lemma ColumnMasks(k: nat, j: nat)
    requires k < 8 && j < 8
    ensures OneColumn(ColumnMask(k)) && (ColumnMask(k) == ColumnMask(j) <==> k == j)
  {
  }

  lemma OneBitByte(data: bv8, al: bv8, k: nat, j: nat)
    requires k < 8 && j < 8
    ensures PlaneBit(OneBitMixed(data, al, k), j)
         == if j != k then PlaneBit(data, j) else (al & 0x01 != 0) != (al & 0x80 != 0 && PlaneBit(data, j))
  {
    ColumnMasks(k, j);
    ColumnMasks(j, k);
    CombinedBit(data, ColumnMask(k), ColumnMask(j), al & 0x01 != 0, al & 0x80 != 0);
  }

  lemma OneBitApart(x: nat, y: nat, x': nat, y': nat)
    requires OnOneBit(x, y) && OnOneBit(x', y')
    ensures x / 8 + Line(y) == x' / 8 + Line(y') && x % 8 == x' % 8 <==> x == x' && y == y'
  {
  }

  /** The picture after a write: the pixel has its new colour and every other one its old. */
  lemma OneBitPicture(m: seq<bv8>, al: bv8, cx: nat, dx: nat, x: nat, y: nat)
    requires |m| == CGA_SIZE && OnOneBit(cx, dx) && OnOneBit(x, y)
    ensures OneBitPixel(OneBitWritten(m, al, cx, dx), x, y)
         == if x == cx && y == dx then (al & 0x01 != 0) != (al & 0x80 != 0 && OneBitPixel(m, x, y))
            else OneBitPixel(m, x, y)
  {
    var here, there := x / 8 + Line(y), cx / 8 + Line(dx);
    OneBitPlace(m, al, there, cx % 8, here, x % 8);
    OneBitApart(x, y, cx, dx);
  }

  lemma OneBitPlace(m: seq<bv8>, al: bv8, addr: nat, k: nat, seen: nat, j: nat)
    requires addr < |m| && seen < |m| && k < 8 && j < 8
    ensures PlaneBit(m[addr := OneBitMixed(m[addr], al, k)][seen], j)
         == if seen != addr || j != k then PlaneBit(m[seen], j)
            else (al & 0x01 != 0) != (al & 0x80 != 0 && PlaneBit(m[seen], j))
  {
    OneBitByte(m[addr], al, k, j);
  }

  method OneBitWrite(mem: array<bv8>, al: bv8, cx: nat, dx: nat)
    requires mem.Length == CGA_SIZE && OnOneBit(cx, dx)
    modifies mem
    ensures mem[..] == OneBitWritten(old(mem[..]), al, cx, dx)
  {
    var addr := cx / 8 + dx / 2 * 80;
    if dx % 2 == 1 { addr := addr + 0x2000; }
    var data := Combine(mem[addr], ColumnMask(cx % 8), al & 0x01 != 0, al & 0x80 != 0);
    mem[addr] := data;
  }

  /** The colour moved to its place, and mixed in. */
  method Combine(data: bv8, mask: bv8, ones: bool, xor: bool) returns (mixed: bv8)
    ensures mixed == Combined(data, mask, ones, xor)
  {
    var attr := if ones then mask else 0;
    if xor {
      mixed := data ^ attr;
    } else {
      mixed := (data & !mask) | attr;
    }
  }

  method OneBitRead(mem: array<bv8>, cx: nat, dx: nat) returns (attr: bv8)
    requires mem.Length == CGA_SIZE && OnOneBit(cx, dx)
    ensures attr == if OneBitSeen(mem[..], cx, dx) then 1 else 0
  {
    var addr := cx / 4 + dx / 2 * 80;
    if dx % 2 == 1 { addr := addr + 0x2000; }
    attr := if PlaneBit(mem[addr], cx % 8) then 1 else 0;
  }

  /** A read after a write returns the colour written, whatever was in memory, exactly in the first
      four columns: further right the two look at different bytes. */
  lemma OneBitReadBack(x: nat, y: nat)
    requires OnOneBit(x, y)
    ensures (forall m: seq<bv8>, al: bv8 :: |m| == CGA_SIZE && al & 0x80 == 0 ==>
              OneBitSeen(OneBitWritten(m, al, x, y), x, y) == (al & 0x01 != 0))
            <==> x < 4
  {
    if x < 4 {
      forall m: seq<bv8>, al: bv8 | |m| == CGA_SIZE && al & 0x80 == 0
        ensures OneBitSeen(OneBitWritten(m, al, x, y), x, y) == (al & 0x01 != 0)
      {
        OneBitPicture(m, al, x, y, x, y);
      }
    } else {
      var blank: seq<bv8> := seq(CGA_SIZE, _ => 0);
      assert !OneBitSeen(OneBitWritten(blank, 1, x, y), x, y);
    }
  }

  // ------------------------------------------------------------------ one byte a pixel

  lemma RowMajorApart(x: nat, y: nat, x': nat, y': nat, width: nat)
    requires x < width && x' < width && x + y * width == x' + y' * width
    ensures x == x' && y == y'
  {
    if y < y' { RowsBelow(y, y', width); }
    if y' < y { RowsBelow(y', y, width); }
  }

  lemma RowsBelow(y: nat, y': nat, width: nat)
    requires y < y'
    ensures y * width + width <= y' * width
  {
    assert (y + 1) * width <= y' * width;
  }

  predicate OnLinear(m: seq<bv8>, cols: nat, x: nat, y: nat) {
    x < cols * 8 && x + y * (cols * 8) < |m|
  }

  function LinearPixel(m: seq<bv8>, cols: nat, x: nat, y: nat): bv8
    requires OnLinear(m, cols, x, y)
  {
    m[x + y * (cols * 8)]
  }

  /** The byte model takes the colour as it is: bit 7 is part of it and nothing is mixed. */
  method LinearWrite(mem: array<bv8>, cols: nat, al: bv8, cx: nat, dx: nat)
    requires OnLinear(mem[..], cols, cx, dx)
    modifies mem
    ensures mem[..] == old(mem[..])[cx + dx * (cols * 8) := al]
    ensures forall x: nat, y: nat :: OnLinear(mem[..], cols, x, y) ==>
      LinearPixel(mem[..], cols, x, y) == if x == cx && y == dx then al else LinearPixel(old(mem[..]), cols, x, y)
  {
    ghost var m := mem[..];
    mem[cx + dx * (cols * 8)] := al;
    forall x: nat, y: nat | OnLinear(mem[..], cols, x, y)
      ensures LinearPixel(mem[..], cols, x, y) == if x == cx && y == dx then al else LinearPixel(m, cols, x, y)
    {
      if x + y * (cols * 8) == cx + dx * (cols * 8) {
        RowMajorApart(x, y, cx, dx, cols * 8);
      }
    }
  }

  /** Drawing a pixel twice with bit 7 set, which restores memory in the other models, does so here
      exactly when the pixel had that very colour. */
  method LinearDrawTwice(mem: array<bv8>, cols: nat, al: bv8, cx: nat, dx: nat)
    requires OnLinear(mem[..], cols, cx, dx) && al & 0x80 != 0
    modifies mem
    ensures mem[..] == old(mem[..]) <==> old(LinearPixel(mem[..], cols, cx, dx)) == al
  {
    LinearWrite(mem, cols, al, cx, dx);
    LinearWrite(mem, cols, al, cx, dx);
  }

  method LinearRead(mem: array<bv8>, cols: nat, cx: nat, dx: nat) returns (attr: bv8)
    requires OnLinear(mem[..], cols, cx, dx)
    ensures attr == LinearPixel(mem[..], cols, cx, dx)
  {
    attr := mem[cx + dx * (cols * 8)];
  }

  // ------------------------------------------------------------------ four planes

  /** The bit of column k in a byte, the leftmost being the highest. */
  function ColumnMask(k: nat): bv8
    requires k < 8
  {
    match k
    case 0 => 0x80
    case 1 => 0x40
    case 2 => 0x20
    case 3 => 0x10
    case 4 => 0x08
    case 5 => 0x04
    case 6 => 0x02
    case _ => 0x01
  }

  /** A byte is its eight columns, the leftmost in the highest place. */
  lemma ColumnsOfByte(b: bv8)
    ensures b == One(b, 0) * 0x80 + One(b, 1) * 0x40 + One(b, 2) * 0x20 + One(b, 3) * 0x10
                 + One(b, 4) * 0x08 + One(b, 5) * 0x04 + One(b, 6) * 0x02 + One(b, 7)
  {
  }

  function One(b: bv8, k: nat): bv8
    requires k < 8
  {
    if PlaneBit(b, k) then 1 else 0
  }

  /** A colour is a bit for each plane, plane 0 in the lowest place. */
  lemma PlanesOfColour(colour: bv8)
    ensures colour & 0x0F == (if ColourBit(colour, 0) then 1 else 0) + (if ColourBit(colour, 1) then 2 else 0)
                             + (if ColourBit(colour, 2) then 4 else 0) + (if ColourBit(colour, 3) then 8 else 0)
  {
  }

  /** A write through the bit mask takes the data under the mask and the latch elsewhere. */
  lemma ThroughMask(data: bv8, latch: bv8, k: nat, j: nat)
    requires k < 8 && j < 8
    ensures var m := ColumnMask(k);
            (((data & m) | (latch & !m)) & ColumnMask(j) != 0)
            == if j == k then data & ColumnMask(k) != 0 else latch & ColumnMask(j) != 0
  {
    var m, n := ColumnMask(k), ColumnMask(j);
    MasksApart(k, j);
    assert ((data & m) | (latch & !m)) & n == ((data & m) & n) | ((latch & !m) & n);
    if j == k {
      assert (latch & !m) & m == 0;
    } else {
      assert (data & m) & n == data & (m & n) && (latch & !m) & n == latch & (!m & n);
    }
  }

  lemma MasksApart(k: nat, j: nat)
    requires k < 8 && j < 8
    ensures j != k ==> ColumnMask(k) & ColumnMask(j) == 0 && !ColumnMask(k) & ColumnMask(j) == ColumnMask(j)
  {
  }

  predicate PlaneBit(b: bv8, k: nat)
    requires k < 8
  {
    b & ColumnMask(k) != 0
  }

  /** The data of write mode 2: a plane whose colour bit is set gets ones. */
  function Expanded(colour: bv8, p: nat): bv8
    requires p < 4
  {
    if ColourBit(colour, p) then 0xFF else 0x00
  }

  /** The byte that one plane receives from a mode-2 write. */
  function PlaneByte(latch: bv8, colour: bv8, p: nat, mask: bv8, xor: bool): bv8
    requires p < 4
  {
    var data := if xor then Expanded(colour, p) ^ latch else Expanded(colour, p);
    (data & mask) | (latch & !mask)
  }

  lemma PlaneByteBits(latch: bv8, colour: bv8, p: nat, k: nat, j: nat, xor: bool)
    requires p < 4 && k < 8 && j < 8
    ensures PlaneBit(PlaneByte(latch, colour, p, ColumnMask(k), xor), j)
         == if j == k then ColourBit(colour, p) != (xor && PlaneBit(latch, j)) else PlaneBit(latch, j)
  {
    var data := if xor then Expanded(colour, p) ^ latch else Expanded(colour, p);
    ThroughMask(data, latch, k, j);
    ExpandedBit(latch, ColourBit(colour, p), k, xor);
  }

  lemma ExpandedBit(latch: bv8, ones: bool, k: nat, xor: bool)
    requires k < 8
    ensures var data: bv8 := if ones then 0xFF else 0x00;
            PlaneBit(if xor then data ^ latch else data, k) == (ones != (xor && PlaneBit(latch, k)))
  {
  }

  predicate OnPlanes(cols: nat, x: nat, y: nat) {
    x / 8 < cols && x / 8 + y * cols < 0x1_0000
  }

  lemma MaskedXorTwice(ones: bv8, latch: bv8, mask: bv8)
    ensures var once := ((ones ^ latch) & mask) | (latch & !mask); ((ones ^ once) & mask) | (once & !mask) == latch
  {
  }

  lemma MixedTwice(latch: bv8, colour: bv8, p: nat, mask: bv8)
    requires p < 4
    ensures PlaneByte(PlaneByte(latch, colour, p, mask, true), colour, p, mask, true) == latch
  {
    MaskedXorTwice(Expanded(colour, p), latch, mask);
  }

  lemma PlaneAdded(attr: bv8, i: nat, p: nat)
    requires i < 4 && p < 4
    ensures ColourBit(attr | PlaneWeight(i), p) == (ColourBit(attr, p) || p == i)
    ensures attr & 0xF0 == 0 ==> (attr | PlaneWeight(i)) & 0xF0 == 0
  {
  }

  /** What a plane's byte, written if it is the pixel's, shows at a pixel. */
  lemma PixelAfter(cols: nat, before: bv8, al: bv8, p: nat, cx: nat, dx: nat, x: nat, y: nat, xor: bool)
    requires p < 4 && OnPlanes(cols, cx, dx) && OnPlanes(cols, x, y)
    ensures var same := x / 8 + y * cols == cx / 8 + dx * cols;
            var after := if same then PlaneByte(before, al, p, ColumnMask(cx % 8), xor) else before;
            PlaneBit(after, x % 8)
            == if x == cx && y == dx then ColourBit(al, p) != (xor && PlaneBit(before, x % 8))
               else PlaneBit(before, x % 8)
  {
    if x / 8 + y * cols == cx / 8 + dx * cols {
      RowMajorApart(x / 8, y, cx / 8, dx, cols);
      PlaneByteBits(before, al, p, cx % 8, x % 8, xor);
    }
  }

  /** The graphics controller, its latches and the four planes. The map mask lets every plane be
      written, as the mode set leaves it. */
  class Vga {
    const planes: array2<bv8>
    var latches: seq<bv8>
    var bitMask: bv8
    var writeMode: bv8
    var mix: bv8
    var readMap: nat

    ghost predicate Valid()
      reads this
    {
      planes.Length0 == 4 && planes.Length1 == 0x1_0000 && |latches| == 4 && readMap < 4
    }

    constructor (planes: array2<bv8>)
      requires planes.Length0 == 4 && planes.Length1 == 0x1_0000
      ensures Valid() && this.planes == planes
    {
      this.planes, latches, bitMask, writeMode, mix, readMap := planes, [0, 0, 0, 0], 0xFF, 0, 0, 0;
    }

    /** A read by the processor fills the latches and returns the byte of the selected plane. */
    method ReadByte(addr: nat) returns (b: bv8)
      requires Valid() && addr < 0x1_0000
      modifies this`latches
      ensures Valid() && b == planes[readMap, addr]
      ensures latches == [planes[0, addr], planes[1, addr], planes[2, addr], planes[3, addr]]
    {
      latches := [planes[0, addr], planes[1, addr], planes[2, addr], planes[3, addr]];
      b := planes[readMap, addr];
    }

    /** A write by the processor in write mode 2. */
    method WriteByte(addr: nat, v: bv8)
      requires Valid() && addr < 0x1_0000 && writeMode == 0x02
      modifies planes
      ensures forall p, a :: 0 <= p < 4 && 0 <= a < 0x1_0000 ==>
        planes[p, a] == if a == addr then PlaneByte(latches[p], v, p, bitMask, mix == 0x18) else old(planes[p, a])
    {
      for p := 0 to 4
        invariant forall q, a :: 0 <= q < 4 && 0 <= a < 0x1_0000 ==>
          planes[q, a] == if a == addr && q < p then PlaneByte(latches[q], v, q, bitMask, mix == 0x18)
                          else old(planes[q, a])
      {
        planes[p, addr] := PlaneByte(latches[p], v, p, bitMask, mix == 0x18);
      }
    }

    /** Plane p's share of the pixel at (x, y). */
    ghost predicate PixelBit(cols: nat, p: nat, x: nat, y: nat)
      requires Valid() && p < 4 && OnPlanes(cols, x, y)
      reads this, planes
    {
      PlaneBit(planes[p, x / 8 + y * cols], x % 8)
    }

    /** The register accesses around one byte: bit mask, write mode 2, the latches loaded and the byte
        written, and everything set back. */
    method WriteThrough(addr: nat, column: nat, al: bv8)
      requires Valid() && mix == 0 && addr < 0x1_0000 && column < 8
      modifies this, planes
      ensures Valid() && bitMask == 0xFF && writeMode == 0 && mix == 0
      ensures forall p, a :: 0 <= p < 4 && 0 <= a < 0x1_0000 ==>
        planes[p, a] == if a == addr then PlaneByte(old(planes[p, a]), al, p, ColumnMask(column), al & 0x80 != 0)
                        else old(planes[p, a])
    {
      ghost var mask, xor := ColumnMask(column), al & 0x80 != 0;
      bitMask := ColumnMask(column);
      writeMode := 0x02;
      var data := ReadByte(addr);
      assert forall p :: 0 <= p < 4 ==> latches[p] == old(planes[p, addr]);
      if al & 0x80 != 0 {
        mix := 0x18;
      }
      assert bitMask == mask && (mix == 0x18) == xor;
      WriteByte(addr, al);
      bitMask, writeMode, mix := 0xFF, 0, 0;
    }

    /** The planar case of biosfn_write_pixel: the pixel takes the colour, or with bit 7 set is mixed
        with it, in all four planes; every other pixel stays, and the controller is as it was found
        by the next user. */
    method WritePixel(cols: nat, al: bv8, cx: nat, dx: nat)
      requires Valid() && mix == 0 && OnPlanes(cols, cx, dx)
      modifies this, planes
      ensures Valid() && bitMask == 0xFF && writeMode == 0 && mix == 0
      ensures forall p, a :: 0 <= p < 4 && 0 <= a < 0x1_0000 ==>
        planes[p, a] == if a == cx / 8 + dx * cols
                        then PlaneByte(old(planes[p, a]), al, p, ColumnMask(cx % 8), al & 0x80 != 0)
                        else old(planes[p, a])
      ensures forall p: nat, x: nat, y: nat :: p < 4 && OnPlanes(cols, x, y) ==>
        PixelBit(cols, p, x, y)
        == if x == cx && y == dx then ColourBit(al, p) != (al & 0x80 != 0 && old(PixelBit(cols, p, x, y)))
           else old(PixelBit(cols, p, x, y))
    {
      ghost var xor := al & 0x80 != 0;
      WriteThrough(cx / 8 + dx * cols, cx % 8, al);
      forall p: nat, x: nat, y: nat | p < 4 && OnPlanes(cols, x, y)
        ensures PixelBit(cols, p, x, y)
             == if x == cx && y == dx then ColourBit(al, p) != (xor && old(PixelBit(cols, p, x, y)))
                else old(PixelBit(cols, p, x, y))
      {
        PixelAfter(cols, old(planes[p, x / 8 + y * cols]), al, p, cx, dx, x, y, xor);
      }
    }

    /** Drawing a pixel twice with bit 7 set restores all four planes. */
    method DrawTwice(cols: nat, al: bv8, cx: nat, dx: nat)
      requires Valid() && mix == 0 && OnPlanes(cols, cx, dx) && al & 0x80 != 0
      modifies this, planes
      ensures forall p, a :: 0 <= p < 4 && 0 <= a < 0x1_0000 ==> planes[p, a] == old(planes[p, a])
    {
      WritePixel(cols, al, cx, dx);
      WritePixel(cols, al, cx, dx);
      forall p, a | 0 <= p < 4 && 0 <= a < 0x1_0000 ensures planes[p, a] == old(planes[p, a]) {
        MixedTwice(old(planes[p, a]), al, p, ColumnMask(cx % 8));
      }
    }

    /** The planar case of biosfn_read_pixel: one bit from each plane. */
    method ReadPixel(cols: nat, cx: nat, dx: nat) returns (attr: bv8)
      requires Valid() && OnPlanes(cols, cx, dx)
      modifies this`latches, this`readMap
      ensures Valid() && attr & 0xF0 == 0
      ensures forall p: nat :: p < 4 ==> ColourBit(attr, p) == PixelBit(cols, p, cx, dx)
    {
      var addr := cx / 8 + dx * cols;
      var mask := ColumnMask(cx % 8);
      attr := 0x00;
      for i := 0 to 4
        invariant Valid() && attr & 0xF0 == 0
        invariant forall p: nat :: p < 4 ==> ColourBit(attr, p) == (p < i && PlaneBit(planes[p, addr], cx % 8))
      {
        readMap := i;
        var data := ReadByte(addr);
        data := data & mask;
        forall p: nat | p < 4 ensures ColourBit(attr | PlaneWeight(i), p) == (ColourBit(attr, p) || p == i) {
          PlaneAdded(attr, i, p);
        }
        if data > 0 {
          attr := attr | PlaneWeight(i);
        }
      }
    }
  }

  function PlaneWeight(p: nat): bv8
    requires p < 4
  {
    match p
    case 0 => 0x01
    case 1 => 0x02
    case 2 => 0x04
    case _ => 0x08
  }
}
