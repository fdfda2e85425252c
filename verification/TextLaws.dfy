/** What strings of bytes do to the text screen of the VGA BIOS (sw/vgabios/vgabios.c): text of any length,
    line ends, backspaces and tabs. */
module TextLaws {
  import opened Basics
  import opened TextScreen

  /** A string in one attribute. */
  function Ink(bytes: seq<byte>, attr: byte): (text: seq<Cell>)
    ensures |text| == |bytes| && forall i :: 0 <= i < |bytes| ==> text[i] == Cell(bytes[i], attr)
  {
    TextCells(bytes, |bytes|, false, attr)
  }

  lemma {:induction false} PutAppend(t: Terminal, a: seq<Cell>, b: seq<Cell>)
    requires t.Valid() && TabsEnd(t.cols, a) && TabsEnd(t.cols, b)
    ensures TabsEnd(t.cols, a + b) && PutAll(t, a + b) == PutAll(PutAll(t, a), b)
    decreases |b|
  {
    if b == [] {
      assert a + b == a;
    } else {
      var n := |b| - 1;
      PutAppend(t, a, b[..n]);
      assert (a + b)[..|a + b| - 1] == a + b[..n] && (a + b)[|a + b| - 1] == b[n];
    }
  }

  // ------------------------------------------------------------------ text of any length

  /** The endless paper of which the screen shows the last lines: what was on the screen, the text from
      the cursor on, and below it blanks, each line in the attribute with which the line above begins. */
  function Paper(t: Terminal, text: seq<Cell>, q: nat): Cell
    requires t.Valid()
    decreases q
  {
    PositionBound(t.y, t.x, t.rows, t.cols);
    var p := t.Position();
    if p <= q < p + |text| then text[q - p]
    else if q < t.rows * t.cols then t.cells[q]
    else
      LineAbove(t, q);
      Cell(0x20, Paper(t, text, (q / t.cols - 1) * t.cols).attr)
  }

  lemma LineAbove(t: Terminal, q: nat)
    requires t.Valid() && q >= t.rows * t.cols
    ensures q / t.cols >= t.rows && 0 <= (q / t.cols - 1) * t.cols < q
  {
    assert q / t.cols >= t.rows by {
      if q / t.cols < t.rows { MulMono(q / t.cols + 1, t.rows, t.cols); }
      assert q == q / t.cols * t.cols + q % t.cols;
    }
    assert (q / t.cols - 1) * t.cols == q / t.cols * t.cols - t.cols;
  }

  /** The lines that have left the screen when the text has reached position q of the paper. */
  function Gone(t: Terminal, q: nat): nat
    requires t.Valid()
  {
    if q / t.cols < t.rows then 0 else q / t.cols - (t.rows - 1)
  }

  /** The screen shows the last lines of the paper, and the cursor is where the text ends on it. */
  ghost predicate ShowsPaper(t: Terminal, text: seq<Cell>, u: Terminal)
    requires t.Valid()
  {
    var q := t.Position() + |text|;
    && u.Valid() && u.rows == t.rows && u.cols == t.cols
    && u.Position() + Gone(t, q) * t.cols == q
    && forall i: nat :: i < t.rows * t.cols ==> u.cells[i] == Paper(t, text, i + Gone(t, q) * t.cols)
  }

  lemma LineOf(q: nat, line: nat, x: nat, cols: nat)
    requires cols > 0 && q == line * cols + x && x < cols
    ensures q / cols == line
  {
    DivideUnique(q / cols, q % cols, line, x, cols);
  }

  lemma DivideUnique(q: nat, r: nat, q': nat, r': nat, d: nat)
    requires r < d && r' < d && q * d + r == q' * d + r'
    ensures q == q'
  {
    if q < q' { MulMono(q + 1, q', d); }
    if q' < q { MulMono(q' + 1, q, d); }
  }

  /** One more character does not change the paper elsewhere, as far down as lines have been begun. */
  lemma {:induction false} PaperStays(t: Terminal, a: seq<Cell>, c: Cell, q: nat)
    requires t.Valid() && q != t.Position() + |a|
    requires q < t.rows * t.cols || q / t.cols * t.cols <= t.Position() + |a|
    ensures Paper(t, a + [c], q) == Paper(t, a, q)
    decreases q
  {
    var p := t.Position();
    if q >= t.rows * t.cols && !(p <= q < p + |a|) {
      LineAbove(t, q);
      var start := (q / t.cols - 1) * t.cols;
      assert start == q / t.cols * t.cols - t.cols;
      LineOf(start, q / t.cols - 1, 0, t.cols);
      PaperStays(t, a, c, start);
    }
  }

  /** The line of the paper that the cursor is in. */
  lemma CursorLine(t: Terminal, a: seq<Cell>, u: Terminal)
    requires t.Valid() && ShowsPaper(t, a, u)
    ensures var q := t.Position() + |a|;
            && q / t.cols == u.y + Gone(t, q) && (Gone(t, q) > 0 ==> u.y + 1 == t.rows)
            && q == (u.y + Gone(t, q)) * t.cols + u.x
  {
    var q := t.Position() + |a|;
    assert q == (u.y + Gone(t, q)) * t.cols + u.x;
    LineOf(q, u.y + Gone(t, q), u.x, t.cols);
  }

  /** The character itself, before wrapping and scrolling. */
  lemma CellWritten(t: Terminal, a: seq<Cell>, c: Cell, u: Terminal, i: nat)
    requires t.Valid() && ShowsPaper(t, a, u) && i < t.rows * t.cols && u.Position() < |u.cells|
    ensures u.cells[u.Position() := c][i] == Paper(t, a + [c], i + Gone(t, t.Position() + |a|) * t.cols)
  {
    var q := t.Position() + |a|;
    var g := Gone(t, q);
    if i != u.Position() {
      CursorLine(t, a, u);
      if g > 0 { LastLineBegun(i, g, t.rows, t.cols, q); }
      PaperStays(t, a, c, i + g * t.cols);
    }
  }

  lemma LastLineBegun(i: nat, g: nat, rows: nat, cols: nat, q: nat)
    requires cols > 0 && rows > 0 && i < rows * cols && q >= (rows - 1 + g) * cols
    ensures (i + g * cols) / cols * cols <= q
  {
    var line, x := i / cols, i % cols;
    LineBelow(i, line, x, rows, cols);
    LineMoved(i, line, x, g, cols);
    LineOf(i + g * cols, line + g, x, cols);
    MulMono(line + g, rows - 1 + g, cols);
  }

  lemma LineBelow(i: nat, line: nat, x: nat, rows: nat, cols: nat)
    requires cols > 0 && i < rows * cols && line == i / cols && x == i % cols
    ensures line < rows && i == line * cols + x && x < cols
  {
    if line >= rows { MulMono(rows, line, cols); }
  }

  lemma LineMoved(i: nat, line: nat, x: nat, g: nat, cols: nat)
    requires i == line * cols + x
    ensures i + g * cols == (line + g) * cols + x
  {
  }

  /** Below the text every line is blank in the attribute with which the line above begins. */
  lemma PaperBelow(t: Terminal, text: seq<Cell>, above: nat, x: nat)
    requires t.Valid() && x < t.cols && above + 1 >= t.rows && t.Position() + |text| <= (above + 1) * t.cols
    ensures Paper(t, text, (above + 1) * t.cols + x) == Cell(0x20, Paper(t, text, above * t.cols).attr)
  {
    LineOf((above + 1) * t.cols + x, above + 1, x, t.cols);
    MulMono(t.rows, above + 1, t.cols);
  }

  /** The blank line that comes up is that of the paper. */
  lemma LineComesUp(t: Terminal, text: seq<Cell>, first: nat, g: nat, x: nat)
    requires t.Valid() && x < t.cols && first == (t.rows - 1) * t.cols
    requires t.Position() + |text| == (t.rows + g) * t.cols
    ensures Paper(t, text, first + x + (g + 1) * t.cols) == Cell(0x20, Paper(t, text, first + g * t.cols).attr)
  {
    PaperBelow(t, text, t.rows - 1 + g, x);
    LineMoved(first + x, t.rows - 1, x, g + 1, t.cols);
    LineMoved(first, t.rows - 1, 0, g, t.cols);
  }

  lemma OneMore(t: Terminal, a: seq<Cell>, c: Cell, u: Terminal)
    requires t.Valid() && ShowsPaper(t, a, u) && Printable(c.glyph)
    ensures ShowsPaper(t, a + [c], Put(u, c.glyph, Some(c.attr)))
  {
    var q := t.Position() + |a|;
    var g := Gone(t, q);
    CursorLine(t, a, u);
    PositionBound(u.y, u.x, u.rows, u.cols);
    var v := u.(cells := u.cells[u.Position() := c], x := u.x + 1);
    forall i: nat | i < t.rows * t.cols ensures v.cells[i] == Paper(t, a + [c], i + g * t.cols) {
      CellWritten(t, a, c, u, i);
    }
    assert Put(u, c.glyph, Some(c.attr)) == Settled(v);
    SettledShows(t, a + [c], u, v, g);
  }

  /** Wrapping and scrolling show the paper again. */
  lemma SettledShows(t: Terminal, text: seq<Cell>, u: Terminal, v: Terminal, g: nat)
    requires t.Valid() && u.Valid() && u.rows == t.rows && u.cols == t.cols && |text| > 0
    requires v == u.(cells := v.cells, x := u.x + 1) && |v.cells| == t.rows * t.cols
    requires t.Position() + |text| == (u.y + g) * t.cols + u.x + 1 && (g > 0 ==> u.y + 1 == t.rows)
    requires forall i: nat :: i < t.rows * t.cols ==> v.cells[i] == Paper(t, text, i + g * t.cols)
    ensures ShowsPaper(t, text, Settled(v))
  {
    var q := t.Position() + |text|;
    if v.x < t.cols {
      LineOf(q, u.y + g, v.x, t.cols);
    } else {
      assert q == (u.y + g + 1) * t.cols;
      LineOf(q, u.y + g + 1, 0, t.cols);
      if u.y + 1 == t.rows { ScrolledShows(t, text, v, g); }
    }
  }

  lemma ScrolledShows(t: Terminal, text: seq<Cell>, v: Terminal, g: nat)
    requires t.Valid() && v.rows == t.rows && v.cols == t.cols && |v.cells| == t.rows * t.cols
    requires v.x == t.cols && v.y + 1 == t.rows && t.Position() + |text| == (t.rows + g) * t.cols
    requires (t.Position() + |text|) / t.cols == t.rows + g
    requires forall i: nat :: i < t.rows * t.cols ==> v.cells[i] == Paper(t, text, i + g * t.cols)
    ensures ShowsPaper(t, text, Settled(v))
  {
    ScrolledCells(v);
    UpShows(t, text, v, Settled(v), (v.rows - 1) * v.cols, g);
  }

  lemma UpShows(t: Terminal, text: seq<Cell>, v: Terminal, u: Terminal, first: nat, g: nat)
    requires t.Valid() && u.Valid() && u.rows == t.rows && u.cols == t.cols
    requires first == (t.rows - 1) * t.cols && first + t.cols == t.rows * t.cols == |v.cells|
    requires u.x == 0 && u.y + 1 == t.rows && t.Position() + |text| == (t.rows + g) * t.cols
    requires (t.Position() + |text|) / t.cols == t.rows + g
    requires forall i: nat :: i < first + t.cols ==> v.cells[i] == Paper(t, text, i + g * t.cols)
    requires forall i: nat :: i < first ==> u.cells[i] == v.cells[i + t.cols]
    requires forall i: nat :: first <= i < first + t.cols ==> u.cells[i] == Cell(0x20, v.cells[first].attr)
    ensures ShowsPaper(t, text, u)
  {
    LineMoved(first, t.rows - 1, 0, g + 1, t.cols);
    forall i: nat | i < t.rows * t.cols ensures u.cells[i] == Paper(t, text, i + (g + 1) * t.cols) {
      PaperUp(t, text, v, u, first, g, i);
    }
  }

  lemma ScrolledCells(v: Terminal)
    requires v.rows > 0 && v.cols > 0 && |v.cells| == v.rows * v.cols && v.x == v.cols && v.y + 1 == v.rows
    ensures var u, first := Settled(v), (v.rows - 1) * v.cols;
            && first + v.cols == v.rows * v.cols
            && u.x == 0 && u.y == v.y && |u.cells| == |v.cells|
            && (forall i: nat :: i < first ==> u.cells[i] == v.cells[i + v.cols])
            && (forall i: nat :: first <= i < v.rows * v.cols ==> u.cells[i] == Cell(0x20, v.cells[first].attr))
  {
    PositionBound(v.rows - 1, 0, v.rows, v.cols);
  }

  lemma PaperUp(t: Terminal, text: seq<Cell>, v: Terminal, u: Terminal, first: nat, g: nat, i: nat)
    requires t.Valid() && first == (t.rows - 1) * t.cols && first + t.cols == t.rows * t.cols
    requires |v.cells| == |u.cells| == first + t.cols && i < first + t.cols
    requires t.Position() + |text| == (t.rows + g) * t.cols
    requires forall i: nat :: i < first + t.cols ==> v.cells[i] == Paper(t, text, i + g * t.cols)
    requires if i < first then u.cells[i] == v.cells[i + t.cols] else u.cells[i] == Cell(0x20, v.cells[first].attr)
    ensures u.cells[i] == Paper(t, text, i + (g + 1) * t.cols)
  {
    if i < first {
      assert i + t.cols + g * t.cols == i + (g + 1) * t.cols;
    } else {
      LineComesUp(t, text, first, g, i - first);
    }
  }

  /** Printable text of any length: the screen shows the end of the paper. */
  lemma {:induction false} LongText(t: Terminal, text: seq<Cell>)
    requires t.Valid() && AllPrintable(text)
    ensures ShowsPaper(t, text, PutAll(t, text))
    decreases |text|
  {
    if text == [] {
      LineOf(t.Position(), t.y, t.x, t.cols);
    } else {
      var a, c := text[..|text| - 1], text[|text| - 1];
      assert text == a + [c];
      LongText(t, a);
      OneMore(t, a, c, PutAll(t, a));
    }
  }

  // ------------------------------------------------------------------ control characters

  /** The screen one line further down, with a blank line in an attribute. */
  function OneUp(t: Terminal, attr: byte): (cells: seq<Cell>)
    requires t.Valid()
    ensures |cells| == t.rows * t.cols
  {
    PositionBound(0, 0, t.rows, t.cols);
    MulMono(1, t.rows, t.cols);
    t.cells[t.cols..] + Blank(t.cols, attr)
  }

  /** The attribute of a cell of the last line. */
  function LastLineAttr(t: Terminal, x: nat): byte
    requires t.Valid() && x < t.cols
  {
    PositionBound(t.rows - 1, x, t.rows, t.cols);
    t.cells[(t.rows - 1) * t.cols + x].attr
  }

  /** The string takes the terminal from t to u. */
  predicate Feeds(t: Terminal, bytes: seq<byte>, attr: byte, u: Terminal) {
    t.Valid() && u.Valid() && TabsEnd(t.cols, Ink(bytes, attr)) && u == PutAll(t, Ink(bytes, attr))
  }

  lemma FeedsOne(t: Terminal, car: byte, attr: byte, u: Terminal)
    requires t.Valid() && (car == TAB ==> t.cols > 1) && u == Put(t, car, Some(attr))
    ensures Feeds(t, [car], attr, u)
  {
    var text := Ink([car], attr);
    assert text[..|text| - 1] == [] && PutAll(t, []) == t;
  }

  lemma FeedsOn(t: Terminal, a: seq<byte>, b: seq<byte>, attr: byte, u: Terminal, v: Terminal)
    requires Feeds(t, a, attr, u) && Feeds(u, b, attr, v)
    ensures Feeds(t, a + b, attr, v)
  {
    PutAppend(t, Ink(a, attr), Ink(b, attr));
    assert Ink(a + b, attr) == Ink(a, attr) + Ink(b, attr);
  }

  /** 0Dh goes to the first column and keeps the row. */
  lemma CarriageReturn(t: Terminal, attr: byte)
    requires t.Valid()
    ensures Feeds(t, [0x0D], attr, t.(x := 0))
  {
    FeedsOne(t, 0x0D, attr, t.(x := 0));
  }

  /** 0Ah goes down and keeps the column. At the bottom everything moves up; the new line takes the attribute
      found at the cursor's column. */
  lemma LineFeed(t: Terminal, attr: byte)
    requires t.Valid()
    ensures Feeds(t, [0x0A], attr,
                  if t.y + 1 < t.rows then t.(y := t.y + 1) else t.(cells := OneUp(t, LastLineAttr(t, t.x))))
  {
    FeedsOne(t, 0x0A, attr, Put(t, 0x0A, Some(attr)));
  }

  /** 08h steps back, but not beyond the first column, and erases nothing; 07h does nothing. */
  lemma BackspaceAndBell(t: Terminal, attr: byte)
    requires t.Valid()
    ensures Feeds(t, [0x08], attr, t.(x := if t.x == 0 then 0 else t.x - 1)) && Feeds(t, [0x07], attr, t)
  {
    FeedsOne(t, 0x08, attr, t.(x := if t.x == 0 then 0 else t.x - 1));
    FeedsOne(t, 0x07, attr, t);
  }

  /** After a line end: the first column of the next row, or of the last one after a scroll. */
  function NextLine(t: Terminal): (u: Terminal)
    requires t.Valid()
    ensures u.Valid() && u.rows == t.rows && u.cols == t.cols
  {
    if t.y + 1 < t.rows then t.(x := 0, y := t.y + 1) else t.(x := 0, cells := OneUp(t, LastLineAttr(t, 0)))
  }

  lemma LineEnd(t: Terminal, attr: byte)
    requires t.Valid()
    ensures Feeds(t, [0x0D, 0x0A], attr, NextLine(t))
  {
    CarriageReturn(t, attr);
    LineFeed(t.(x := 0), attr);
    FeedsOn(t, [0x0D], [0x0A], attr, t.(x := 0), NextLine(t));
    assert [0x0D as byte] + [0x0A] == [0x0D, 0x0A];
  }

  /** Bytes that are written as they are. */
  predicate Plain(bytes: seq<byte>) {
    forall i :: 0 <= i < |bytes| ==> bytes[i] != 0x07 && bytes[i] != 0x08 && bytes[i] != 0x09 && bytes[i] != 0x0A
                                     && bytes[i] != 0x0D
  }

  lemma PlainAppears(t: Terminal, bytes: seq<byte>, attr: byte) returns (u: Terminal)
    requires t.Valid() && Plain(bytes) && t.Position() + |bytes| < t.rows * t.cols
    ensures Feeds(t, bytes, attr, u) && u.rows == t.rows && u.cols == t.cols
    ensures u.Position() == t.Position() + |bytes| && u.cells == Splice(t.cells, t.Position(), Ink(bytes, attr))
    ensures u.y == (t.Position() + |bytes|) / t.cols
  {
    TextAppears(t, Ink(bytes, attr));
    u := PutAll(t, Ink(bytes, attr));
    LineOf(u.Position(), u.y, u.x, u.cols);
  }

  /** The screen with a string put over it from the cursor on. */
  function Over(t: Terminal, bytes: seq<byte>, attr: byte): (u: Terminal)
    requires t.Valid() && t.Position() + |bytes| <= t.rows * t.cols
    ensures u.Valid() && u.Position() == t.Position()
  {
    t.(cells := Splice(t.cells, t.Position(), Ink(bytes, attr)))
  }

  /** Two lines of text: the first stands at the cursor, the second at the beginning of the next row. */
  lemma TwoLines(t: Terminal, a: seq<byte>, b: seq<byte>, attr: byte, y: nat) returns (u: Terminal)
    requires t.Valid() && Plain(a) && Plain(b) && t.Position() + |a| < t.rows * t.cols
    requires y == (t.Position() + |a|) / t.cols && y + 1 < t.rows && (y + 1) * t.cols + |b| < t.rows * t.cols
    ensures Feeds(t, a + [0x0D, 0x0A] + b, attr, u) && u.cols == t.cols
    ensures u.Position() == (y + 1) * t.cols + |b|
    ensures u.cells == Splice(Over(t, a, attr).cells, (y + 1) * t.cols, Ink(b, attr))
  {
    var first := PlainAppears(t, a, attr);
    SecondLineFits(first, |b|);
    u := SecondLine(t, first, a, b, attr);
  }

  /** When the first ends in the last row everything moves up by one row, and the second stands in the last
      row, which is otherwise blank in the attribute with which the row above begins. */
  lemma TwoLinesAtBottom(t: Terminal, a: seq<byte>, b: seq<byte>, attr: byte, y: nat) returns (u: Terminal)
    requires t.Valid() && Plain(a) && Plain(b) && t.Position() + |a| < t.rows * t.cols
    requires y == (t.Position() + |a|) / t.cols && y + 1 == t.rows && |b| < t.cols
    ensures Feeds(t, a + [0x0D, 0x0A] + b, attr, u) && u.cols == t.cols
    ensures u.Position() == y * t.cols + |b| && y * t.cols + |b| < t.rows * t.cols
    ensures u.cells == Splice(OneUp(Over(t, a, attr), LastLineAttr(Over(t, a, attr), 0)), y * t.cols, Ink(b, attr))
  {
    var first := PlainAppears(t, a, attr);
    SecondLineFits(first, |b|);
    u := SecondLine(t, first, a, b, attr);
  }

  lemma SecondLine(t: Terminal, first: Terminal, a: seq<byte>, b: seq<byte>, attr: byte) returns (u: Terminal)
    requires Feeds(t, a, attr, first) && Plain(b)
    requires NextLine(first).Position() + |b| < first.rows * first.cols
    ensures Feeds(t, a + [0x0D, 0x0A] + b, attr, u) && u.cols == first.cols
    ensures u.Position() == NextLine(first).Position() + |b|
    ensures u.cells == Over(NextLine(first), b, attr).cells
  {
    LineEnd(first, attr);
    FeedsOn(t, a, [0x0D, 0x0A], attr, first, NextLine(first));
    u := PlainAppears(NextLine(first), b, attr);
    FeedsOn(t, a + [0x0D, 0x0A], b, attr, NextLine(first), u);
  }

  lemma SecondLineFits(t: Terminal, n: nat)
    requires t.Valid() && if t.y + 1 < t.rows then (t.y + 1) * t.cols + n < t.rows * t.cols else n < t.cols
    ensures NextLine(t).Position() == (if t.y + 1 < t.rows then t.y + 1 else t.y) * t.cols
    ensures NextLine(t).Position() + n < t.rows * t.cols
  {
    PositionBound(t.y, 0, t.rows, t.cols);
    assert (t.rows - 1) * t.cols + t.cols == t.rows * t.cols;
  }

  // ------------------------------------------------------------------ backspaces

  function Backspaces(k: nat): (bytes: seq<byte>)
    ensures |bytes| == k && forall i :: 0 <= i < k ==> bytes[i] == 0x08
  {
    seq(k, _ => 0x08)
  }

  /** Backspaces erase nothing. */
  lemma {:induction false} BackspacesStepBack(t: Terminal, k: nat, attr: byte)
    requires t.Valid() && k <= t.x
    ensures Feeds(t, Backspaces(k), attr, t.(x := t.x - k))
  {
    if k > 0 {
      BackspacesStepBack(t, k - 1, attr);
      assert Backspaces(k) == Backspaces(k - 1) + [0x08];
      BackspaceAndBell(t.(x := t.x - (k - 1)), attr);
      FeedsOn(t, Backspaces(k - 1), [0x08], attr, t.(x := t.x - (k - 1)), t.(x := t.x - k));
    }
  }

  lemma StaysInRow(t: Terminal, bytes: seq<byte>, attr: byte)
    requires t.Valid() && Plain(bytes) && t.x + |bytes| < t.cols
    ensures t.Position() + |bytes| < t.rows * t.cols
    ensures Feeds(t, bytes, attr, t.(x := t.x + |bytes|, cells := Splice(t.cells, t.Position(), Ink(bytes, attr))))
  {
    PositionBound(t.y, t.x + |bytes|, t.rows, t.cols);
    var u := PlainAppears(t, bytes, attr);
    LineOf(u.Position(), t.y, t.x + |bytes|, t.cols);
  }

  /** Text, as many backspaces, and other text: the other text is written over it. */
  lemma Overstrike(t: Terminal, a: seq<byte>, b: seq<byte>, attr: byte)
    requires t.Valid() && Plain(a) && Plain(b) && t.x + |a| < t.cols && t.x + |b| < t.cols
    ensures t.Position() + |a| < t.rows * t.cols && t.Position() + |b| < t.rows * t.cols
    ensures Feeds(t, a + Backspaces(|a|) + b, attr,
                  t.(x := t.x + |b|,
                     cells := Splice(Splice(t.cells, t.Position(), Ink(a, attr)), t.Position(), Ink(b, attr))))
  {
    StaysInRow(t, a, attr);
    var back := t.(cells := Splice(t.cells, t.Position(), Ink(a, attr)));
    BackspacesStepBack(back.(x := t.x + |a|), |a|, attr);
    FeedsOn(t, a, Backspaces(|a|), attr, back.(x := t.x + |a|), back);
    StaysInRow(back, b, attr);
    FeedsOn(t, a + Backspaces(|a|), b, attr, back,
            back.(x := t.x + |b|, cells := Splice(back.cells, t.Position(), Ink(b, attr))));
  }

  // ------------------------------------------------------------------ tabs

  function Blanks(k: nat): (bytes: seq<byte>)
    ensures |bytes| == k && forall i :: 0 <= i < k ==> bytes[i] == 0x20
  {
    seq(k, _ => 0x20)
  }

  /** After each number of blanks but the last the column is divisible by eight. */
  ghost predicate BlankedTo(t: Terminal, u: Terminal, k: nat, attr: byte) {
    Feeds(t, Blanks(k), attr, u) && u.cols == t.cols
    && forall j, v :: 1 <= j < k && Feeds(t, Blanks(j), attr, v) ==> v.x % 8 == 0
  }

  lemma BlankedOn(t: Terminal, u: Terminal, k: nat, attr: byte)
    requires BlankedTo(t, u, k, attr) && (k > 0 ==> u.x % 8 == 0)
    ensures BlankedTo(t, Put(u, 0x20, Some(attr)), k + 1, attr)
  {
    FeedsOne(u, 0x20, attr, Put(u, 0x20, Some(attr)));
    FeedsOn(t, Blanks(k), [0x20], attr, u, Put(u, 0x20, Some(attr)));
    assert Blanks(k + 1) == Blanks(k) + [0x20];
  }

  /** A tab is one, two or three blanks, as many as lead to a column that is not divisible by eight: it
      does not end at a tab stop but just behind one or before it. */
  lemma TabIsBlanks(t: Terminal, attr: byte) returns (u: Terminal, k: nat)
    requires t.Valid() && t.cols > 1
    ensures Feeds(t, [0x09], attr, u) && BlankedTo(t, u, k, attr) && 1 <= k <= 3 && u.x % 8 != 0
  {
    u := Put(t, 0x09, Some(attr));
    FeedsOne(t, 0x09, attr, u);
    assert Ink(Blanks(0), attr) == [];
    k := TabbedIsBlanks(t, t, 0, attr);
  }

  lemma {:induction false} TabbedIsBlanks(t: Terminal, now: Terminal, n: nat, attr: byte) returns (k: nat)
    requires t.Valid() && t.cols > 1 && BlankedTo(t, now, n, attr)
    requires n == 0 || (n == 1 && now.x % 8 == 0) || (n == 2 && now.x == 0)
    ensures n < k <= 3 && BlankedTo(t, Tabbed(now, Some(attr)), k, attr) && Tabbed(now, Some(attr)).x % 8 != 0
    decreases 3 - n
  {
    BlankedOn(t, now, n, attr);
    var next := Put(now, 0x20, Some(attr));
    k := n + 1;
    if next.x % 8 == 0 { k := TabbedIsBlanks(t, next, n + 1, attr); }
  }
}
