/** The display start of the Cirrus extended BIOS (sw/vgabios/clext.c): function 07h of section 4.10
    of VBE Core Functions 3.0, through the start-address bits scattered over four CRTC registers.
    Registers are numbers; an `and` or `or` with a fixed mask is written as arithmetic on its bits. */
module CirrusStart {
  import opened Basics

  const WORD := 0x1_0000

  /** Bit i of a register, i at most 7. */
  function BitOf(v: nat, i: nat): (b: nat)
    requires i < 8
    ensures b < 2
  {
    match i
    case 0 => v % 2
    case 1 => v / 2 % 2
    case 2 => v / 4 % 2
    case 3 => v / 8 % 2
    case 4 => v / 16 % 2
    case 5 => v / 32 % 2
    case 6 => v / 64 % 2
    case _ => v / 128 % 2
  }

  lemma AddTop(u: nat)
    requires u < 0x80
    ensures BitOf(u, 7) == 0 && BitOf(u + 0x80, 7) == 1
    ensures forall i :: 0 <= i < 7 ==> BitOf(u + 0x80, i) == BitOf(u, i)
  {
    LowerHalvesPlus(u);
    UpperHalvesPlus(u / 8);
    EighthsAgain(u);
    EighthsAgain(u + 0x80);
  }

  lemma LowerHalvesPlus(u: nat)
    ensures var w := u + 0x80;
            && w % 2 == u % 2 && w / 2 % 2 == u / 2 % 2 && w / 4 % 2 == u / 4 % 2
            && w / 8 == u / 8 + 0x10
  {
    HalfPlus(u, 0x40);
    HalfPlus(u / 2, 0x20);
    HalfPlus(u / 4, 0x10);
    Halves(u);
    Halves(u + 0x80);
  }

  lemma UpperHalvesPlus(u: nat)
    ensures var w := u + 0x10;
            && w % 2 == u % 2 && w / 2 % 2 == u / 2 % 2 && w / 4 % 2 == u / 4 % 2 && w / 8 % 2 == u / 8 % 2
            && w / 16 == u / 16 + 1
  {
    HalfPlus(u, 8);
    HalfPlus(u / 2, 4);
    HalfPlus(u / 4, 2);
    HalfPlus(u / 8, 1);
    Halves(u);
    Halves(u + 0x10);
  }

  lemma EighthsAgain(n: nat)
    ensures n / 8 / 2 == n / 16 && n / 8 / 4 == n / 32 && n / 8 / 8 == n / 64 && n / 8 / 16 == n / 128
  {
  }

  lemma HalfPlus(n: nat, c: nat)
    ensures (n + 2 * c) / 2 == n / 2 + c && (n + 2 * c) % 2 == n % 2
  {
  }

  /** Setting the top bit of a byte keeps the other seven. */
  lemma TopBitSet(v: nat, b: nat)
    requires v < 0x100 && b < 2
    ensures var w := v % 0x80 + 0x80 * b; w < 0x100 && BitOf(w, 7) == b
    ensures forall i :: 0 <= i < 7 ==> BitOf(v % 0x80 + 0x80 * b, i) == BitOf(v, i)
  {
    AddTop(v % 0x80);
    assert v == v % 0x80 || v == v % 0x80 + 0x80;
  }

  /** Setting bits 0, 2 and 3 of a byte keeps bit 1 and the high half. */
  lemma LowBitsSet(v: nat, b0: nat, b2: nat, b3: nat)
    requires v < 0x100 && b0 < 2 && b2 < 2 && b3 < 2
    ensures var w := 2 * BitOf(v, 1) + 0x10 * (v / 0x10) + b0 + 4 * b2 + 8 * b3;
            && w < 0x100 && BitOf(w, 0) == b0 && BitOf(w, 1) == BitOf(v, 1) && BitOf(w, 2) == b2 && BitOf(w, 3) == b3
            && BitOf(w, 4) == BitOf(v, 4) && BitOf(w, 5) == BitOf(v, 5) && BitOf(w, 6) == BitOf(v, 6)
            && BitOf(w, 7) == BitOf(v, 7)
  {
    var b1, h := BitOf(v, 1), v / 0x10;
    var w := 2 * b1 + 0x10 * h + b0 + 4 * b2 + 8 * b3;
    Digits(w, b0, b1, b2, b3, h);
    HighBits(w, v);
  }

  lemma Digits(w: nat, b0: nat, b1: nat, b2: nat, b3: nat, h: nat)
    requires b0 < 2 && b1 < 2 && b2 < 2 && b3 < 2 && w == b0 + 2 * b1 + 4 * b2 + 8 * b3 + 16 * h
    ensures w / 16 == h && BitOf(w, 0) == b0 && BitOf(w, 1) == b1 && BitOf(w, 2) == b2 && BitOf(w, 3) == b3
  {
    Peel(w, b0, b1 + 2 * b2 + 4 * b3 + 8 * h);
    Peel(w / 2, b1, b2 + 2 * b3 + 4 * h);
    Peel(w / 4, b2, b3 + 2 * h);
    Peel(w / 8, b3, h);
    Halves(w);
  }

  lemma Peel(w: nat, b: nat, rest: nat)
    requires b < 2 && w == b + 2 * rest
    ensures w % 2 == b && w / 2 == rest
  {
  }

  lemma HighBits(v: nat, w: nat)
    requires v / 16 == w / 16
    ensures forall i :: 4 <= i < 8 ==> BitOf(v, i) == BitOf(w, i)
  {
    HighHalf(v, v / 16);
    HighHalf(w, w / 16);
  }

  lemma HighHalf(v: nat, h: nat)
    requires v / 0x10 == h
    ensures v / 16 == h && v / 32 == h / 2 && v / 64 == h / 4 && v / 128 == h / 8
  {
  }

  lemma Nibble(n: nat)
    ensures n % 16 == BitOf(n, 0) + 2 * BitOf(n, 1) + 4 * BitOf(n, 2) + 8 * BitOf(n, 3)
  {
    Halves(n);
    Halves(n / 2);
    Halves(n / 4);
    Halves(n / 8);
  }

  lemma Halves(n: nat)
    ensures n == 2 * (n / 2) + n % 2 && n / 2 / 2 == n / 4 && n / 4 / 2 == n / 8 && n / 8 / 2 == n / 16
    ensures n / 16 / 2 == n / 32 && n / 32 / 2 == n / 64 && n / 64 / 2 == n / 128
  {
  }

  /** A quotient and a remainder below the divisor are the only ones. */
  lemma DivideBack(q: nat, r: nat, d: nat)
    requires r < d
    ensures (q * d + r) / d == q && (q * d + r) % d == r
  {
    var n := q * d + r;
    var q', r' := n / d, n % d;
    assert n == q' * d + r';
    if q < q' { MulMono(q + 1, q', d); }
    if q' < q { MulMono(q' + 1, q, d); }
  }

  /** Lines begin at multiples of eight bytes. */
  lemma LinesAligned(y: nat, lines8: nat, rest: nat)
    ensures (y * (8 * lines8) + rest) % 4 == rest % 4
  {
    assert y * (8 * lines8) == 4 * (2 * (y * lines8));
  }

  class Cirrus {
    var cr0c: nat
    var cr0d: nat
    var cr13: nat
    var cr1b: nat
    var cr1d: nat
    var sr7: nat

    ghost predicate Valid()
      reads this
    {
      cr0c < 0x100 && cr0d < 0x100 && cr13 < 0x100 && cr1b < 0x100 && cr1d < 0x100 && sr7 < 0x100
    }

    /** The 20 bits of the start address, in units of four bytes. */
    function StartField(): (start: nat)
      reads this
      ensures start == cr0d + 0x100 * cr0c + 0x1_0000 * (cr1b % 2) + 0x2_0000 * (cr1b / 4 % 2)
                       + 0x4_0000 * (cr1b / 8 % 2) + 0x8_0000 * (cr1d / 128 % 2)
    {
      cr0d + 0x100 * cr0c + 0x1_0000 * (BitOf(cr1b, 0) + 2 * BitOf(cr1b, 2) + 4 * BitOf(cr1b, 3) + 8 * BitOf(cr1d, 7))
    }

    /** cirrus_get_line_offset. */
    function LineOffset(): (bytes: nat)
      reads this
      ensures bytes == 8 * cr13 + 0x800 * (cr1b / 16 % 2)
    {
      8 * (cr13 + 0x100 * BitOf(cr1b, 4))
    }

    /** cirrus_get_bpp_bytes: three bits of the sequencer select the depth; value 6 counts as 2 and
        only value 8 is not raised by one. So 0, 2, 4 and 6 mean one, two, three and again two bytes, and 8
        means four. */
    function BppBytes(): (n: nat)
      reads this
      ensures n == [1, 2, 3, 2, 4, 6, 7, 8][sr7 / 2 % 8]
    {
      var depth := sr7 / 2 % 8;
      var half := if depth == 3 then 1 else depth;
      if half == 4 then half else half + 1
    }

    constructor (cr13: nat, cr1b: nat, cr1d: nat, sr7: nat)
      requires cr13 < 0x100 && cr1b < 0x100 && cr1d < 0x100 && sr7 < 0x100
      ensures Valid()
    {
      this.cr13, this.cr1b, this.cr1d, this.sr7, cr0c, cr0d := cr13, cr1b, cr1d, sr7, 0, 0;
    }

    /** Register 1Dh: `and al, #0x7f`, then the given top bit. */
    method PutTopBit(b: nat)
      requires Valid() && b < 2
      modifies this`cr1d
      ensures Valid() && BitOf(cr1d, 7) == b
      ensures forall i :: 0 <= i < 7 ==> BitOf(cr1d, i) == BitOf(old(cr1d), i)
    {
      TopBitSet(cr1d, b);
      cr1d := cr1d % 0x80 + 0x80 * b;
    }

    /** Register 1Bh: `and al, #0xf2`, then the given bits 0, 2 and 3. */
    method PutLowBits(b0: nat, b2: nat, b3: nat)
      requires Valid() && b0 < 2 && b2 < 2 && b3 < 2
      modifies this`cr1b
      ensures Valid() && BitOf(cr1b, 0) == b0 && BitOf(cr1b, 2) == b2 && BitOf(cr1b, 3) == b3
      ensures forall i :: i == 1 || 4 <= i < 8 ==> BitOf(cr1b, i) == BitOf(old(cr1b), i)
    {
      LowBitsSet(cr1b, b0, b2, b3);
      cr1b := 2 * BitOf(cr1b, 1) + 0x10 * (cr1b / 0x10) + b0 + 4 * b2 + 8 * b3;
    }

    /** cirrus_set_start_addr. The low 20 bits of DX:AX become the start address; the bits of the
        extension registers that do not belong to it stay, and with them the line offset. */
    method SetStartAddr(dx: nat, ax: nat)
      requires Valid() && dx < WORD && ax < WORD
      modifies this`cr0c, this`cr0d, this`cr1b, this`cr1d
      ensures Valid() && StartField() == dx % 16 * WORD + ax && LineOffset() == old(LineOffset())
      ensures forall i :: i == 1 || 4 <= i < 8 ==> BitOf(cr1b, i) == BitOf(old(cr1b), i)
      ensures forall i :: 0 <= i < 7 ==> BitOf(cr1d, i) == BitOf(old(cr1d), i)
    {
      cr0d := ax % 0x100;
      cr0c := ax / 0x100;
      PutTopBit(BitOf(dx, 3));
      PutLowBits(BitOf(dx, 0), BitOf(dx, 1), BitOf(dx, 2));
      Nibble(dx);
    }

    /** cirrus_get_start_addr. */
    method GetStartAddr() returns (dx: nat, ax: nat)
      requires Valid()
      ensures dx < 16 && ax < WORD && dx * WORD + ax == StartField()
    {
      ax := 0x100 * cr0c + cr0d;
      dx := BitOf(cr1b, 0) + 2 * BitOf(cr1b, 2) + 4 * BitOf(cr1b, 3) + 8 * BitOf(cr1d, 7);
    }

    /** Function 07h, set: the byte address of (cx, dx), a quarter of it as the display start. */
    method SetDisplayStart(cx: nat, dx: nat)
      requires Valid() && cx < WORD && dx < WORD
      modifies this`cr0c, this`cr0d, this`cr1b, this`cr1d
      ensures Valid() && LineOffset() == old(LineOffset()) && BppBytes() == old(BppBytes())
      ensures StartField() == StartFor(cx, dx, LineOffset(), BppBytes())
    {
      var bytes := cx * BppBytes() % WORD;
      var product := dx * LineOffset();
      LineBound(cr13 + 0x100 * BitOf(cr1b, 4), dx);
      var high, low := AddWord(product, bytes);
      QuarterSplit(product + bytes, high, low);
      var quotient := (high % 4 * WORD + low) / 4;
      SetStartAddr(high / 4, quotient);
    }

    /** Function 07h, get: four times the display start, split into line and pixel. The processor
        divides only when the line number fits 16 bits. */
    method GetDisplayStart() returns (cx: nat, dx: nat)
      requires Valid() && LineOffset() > 0 && 4 * StartField() < WORD * LineOffset()
      ensures dx == 4 * StartField() / LineOffset() && cx == 4 * StartField() % LineOffset() / BppBytes()
    {
      var upper, ax := GetStartAddr();
      FourTimes(upper, ax);
      cx, dx := LineAndPixel((upper * 4 + ax * 4 / WORD) * WORD + ax * 4 % WORD, LineOffset(), BppBytes());
    }

    /** What is set is got back, for every pixel within its line whose byte address the 20 bits can
        hold, exactly when that address is divisible by four. */
    method SetThenGet(x: nat, y: nat) returns (x': nat, y': nat)
      requires Valid() && x < WORD && y < WORD && x * BppBytes() < LineOffset()
      requires y * LineOffset() + x * BppBytes() < 0x40_0000
      modifies this`cr0c, this`cr0d, this`cr1b, this`cr1d
      ensures (x', y') == (x, y) <==> old(y * LineOffset() + x * BppBytes()) % 4 == 0
    {
      ghost var line, bpp := LineOffset(), BppBytes();
      assert line < WORD;
      RoundTrip(x, y, line, cr13 + 0x100 * BitOf(cr1b, 4), bpp);
      SetDisplayStart(x, y);
      StartExact(x, y, line, bpp);
      MulMono(y + 1, WORD, line);
      assert (y + 1) * line == y * line + line;
      x', y' := GetDisplayStart();
    }
  }

  /** The display start for a pixel: its byte address, the pixel's part cut to 16 bits, divided by four
      and cut to 20 bits. */
  function StartFor(x: nat, y: nat, line: nat, bpp: nat): nat {
    (y * line + x * bpp % WORD) / 4 % 0x10_0000
  }

  lemma StartExact(x: nat, y: nat, line: nat, bpp: nat)
    requires x * bpp < line < WORD && y * line + x * bpp < 0x40_0000
    ensures StartFor(x, y, line, bpp) == (y * line + x * bpp) / 4
  {
  }

  lemma LineBound(units: nat, dx: nat)
    requires units < 0x200 && dx < WORD
    ensures dx * (8 * units) < 0x1000 * WORD
  {
    MulMono(8 * units, 0xFFF, dx);
  }

  /** `add ax, bx`, with the carry going to DX. */
  method AddWord(product: nat, bytes: nat) returns (high: nat, low: nat)
    requires product < 0x1000 * WORD && bytes < WORD
    ensures low < WORD && high < WORD && high * WORD + low == product + bytes
  {
    high, low := product / WORD, product % WORD + bytes;
    if low >= WORD {
      low := low - WORD;
      high := high + 1;
    }
  }

  /** The two divisions, by the line offset and by the bytes of a pixel. */
  method LineAndPixel(address: nat, line: nat, bpp: nat) returns (cx: nat, dx: nat)
    requires line > 0 && bpp > 0
    ensures dx == address / line && cx == address % line / bpp
  {
    dx := address / line;
    cx := address % line / bpp;
  }

  lemma FourTimes(upper: nat, ax: nat)
    ensures (upper * 4 + ax * 4 / WORD) * WORD + ax * 4 % WORD == 4 * (upper * WORD + ax)
  {
  }

  /** Dividing the low 18 bits by four and shifting the rest is dividing the whole by four. */
  lemma QuarterSplit(address: nat, high: nat, low: nat)
    requires address == high * WORD + low && low < WORD && high < WORD
    ensures (high % 4 * WORD + low) / 4 < WORD
    ensures high / 4 % 16 * WORD + (high % 4 * WORD + low) / 4 == address / 4 % 0x10_0000
  {
    assert high == 4 * (high / 4) + high % 4;
    assert address / 4 == high / 4 * WORD + (high % 4 * WORD + low) / 4;
  }

  lemma RoundTrip(x: nat, y: nat, line: nat, line8: nat, bpp: nat)
    requires bpp > 0 && x * bpp < line && line == 8 * line8
    ensures var address := y * line + x * bpp;
            var got := 4 * (address / 4);
            (got / line == y && got % line / bpp == x) <==> address % 4 == 0
  {
    var bytes := x * bpp;
    var address := y * line + bytes;
    LinesAligned(y, line8, bytes);
    var r := address % 4;
    assert 4 * (address / 4) == y * line + (bytes - r);
    DivideBack(y, bytes - r, line);
    if r == 0 {
      DivideBack(x, 0, bpp);
    } else {
      PixelBelow(x, bpp, bytes - r);
    }
  }

  lemma PixelBelow(x: nat, bpp: nat, bytes: nat)
    requires bpp > 0 && bytes < x * bpp
    ensures bytes / bpp < x
  {
    var q := bytes / bpp;
    if q >= x {
      MulMono(x, q, bpp);
    }
  }
}
