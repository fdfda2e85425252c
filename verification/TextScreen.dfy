/** The text screen of the VGA BIOS (sw/vgabios/vgabios.c): scrolling a window up in place and the
    teletype output built on it, against a reference terminal. */
module TextScreen {
  import opened Basics

  datatype Cell = Cell(glyph: byte, attr: byte)

  // ------------------------------------------------------------------ the reference terminal

  /** A screen of rows * cols cells, row by row, and a cursor. */
  datatype Terminal = Terminal(rows: nat, cols: nat, cells: seq<Cell>, x: nat, y: nat) {
    predicate Valid() {
      rows > 0 && cols > 0 && |cells| == rows * cols && x < cols && y < rows
    }

    function Position(): nat {
      y * cols + x
    }
  }

  const BEL: byte := 7
  const BS: byte := 8
  const TAB: byte := 9
  const LF: byte := 10
  const CR: byte := 13

  predicate Printable(car: byte) {
    car != BEL && car != BS && car != TAB && car != LF && car != CR
  }

  lemma PositionBound(y: nat, x: nat, rows: nat, cols: nat)
    requires x < cols && y < rows
    ensures y * cols + x < rows * cols
    ensures (rows - 1) * cols + x < rows * cols
  {
    assert (y + 1) * cols <= rows * cols;
    assert (rows - 1) * cols + cols == rows * cols;
  }

  function Blank(n: nat, attr: byte): (cells: seq<Cell>)
    ensures |cells| == n && forall i :: 0 <= i < n ==> cells[i] == Cell(0x20, attr)
  {
    seq(n, _ => Cell(0x20, attr))
  }

  /** All lines move up by one; the last line becomes blank. */
  function ScrolledUp(t: Terminal, attr: byte): (u: Terminal)
    requires t.rows > 0 && t.cols > 0 && |t.cells| == t.rows * t.cols
    ensures |u.cells| == u.rows * u.cols
  {
    assert t.cols <= t.rows * t.cols by { PositionBound(0, 0, t.rows, t.cols); assert t.cols * 1 <= t.cols * t.rows; }
    t.(cells := t.cells[t.cols..] + Blank(t.cols, attr))
  }

  /** Wrapping at the right edge and scrolling at the bottom; the new line takes the attribute of the
      cell at the cursor's column in the last line. */
  function Settled(t: Terminal): (u: Terminal)
    requires t.rows > 0 && t.cols > 0 && |t.cells| == t.rows * t.cols && t.x <= t.cols && t.y <= t.rows
    requires t.x == t.cols ==> t.y < t.rows
    ensures u.Valid() && u.rows == t.rows && u.cols == t.cols
  {
    var w := if t.x == t.cols then t.(x := 0, y := t.y + 1) else t;
    if w.y == w.rows then
      PositionBound(w.rows - 1, w.x, w.rows, w.cols);
      ScrolledUp(w, w.cells[(w.rows - 1) * w.cols + w.x].attr).(y := w.y - 1)
    else w
  }

  /** A tab is blanks until the column is not divisible by eight. */
  function Tabbed(t: Terminal, attr: Option<byte>): (u: Terminal)
    requires t.Valid() && t.cols > 1
    ensures u.Valid() && u.rows == t.rows && u.cols == t.cols
    decreases TabRank(t.x)
  {
    var u := Put(t, 0x20, attr);
    if u.x % 8 == 0 then Tabbed(u, attr) else u
  }

  /** A tab that is to end in `goal` has come as far as `now`. */
  ghost predicate ToTab(now: Terminal, attr: Option<byte>, goal: Terminal, more: bool) {
    now.Valid() && now.cols > 1 && goal == if more then Tabbed(now, attr) else now
  }

  lemma TabStep(now: Terminal, attr: Option<byte>, goal: Terminal, u: Terminal, more: bool)
    requires ToTab(now, attr, goal, true) && u == Put(now, 0x20, attr) && more == (u.x % 8 == 0)
    ensures ToTab(u, attr, goal, more) && (more ==> TabRank(u.x) < TabRank(now.x))
  {
  }

  /** Columns divisible by eight follow on each other at most where a line begins. */
  function TabRank(x: nat): (rank: nat)
    ensures rank > 0
  {
    if x % 8 != 0 then 6 else if x != 0 then 4 else 2
  }

  /** One character. Without an attribute the cell keeps the one it has. On a screen of one column a tab
      would go on for ever. */
  function Put(t: Terminal, car: byte, attr: Option<byte>): (u: Terminal)
    requires t.Valid() && (car == TAB ==> t.cols > 1)
    ensures u.Valid() && u.rows == t.rows && u.cols == t.cols
    ensures car == 0x20 ==> u.x == if t.x + 1 == t.cols then 0 else t.x + 1
    decreases if car == TAB then TabRank(t.x) + 1 else 0
  {
    PositionBound(t.y, t.x, t.rows, t.cols);
    if car == TAB then Tabbed(t, attr)
    else if car == BEL then t
    else if car == BS then if t.x > 0 then t.(x := t.x - 1) else t
    else if car == CR then t.(x := 0)
    else if car == LF then Settled(t.(y := t.y + 1))
    else
      var p := t.Position();
      var cell := Cell(car, if attr.Some? then attr.value else t.cells[p].attr);
      Settled(t.(cells := t.cells[p := cell], x := t.x + 1))
  }

  predicate AllPrintable(text: seq<Cell>): (all: bool)
    ensures all ==> TabsEnd(1, text)
  {
    forall i :: 0 <= i < |text| ==> Printable(text[i].glyph)
  }

  /** On a screen of one column there is no tab in the text. */
  predicate TabsEnd(cols: nat, text: seq<Cell>) {
    cols > 1 || forall i :: 0 <= i < |text| ==> text[i].glyph != TAB
  }

  function PutAll(t: Terminal, text: seq<Cell>): (u: Terminal)
    requires t.Valid() && TabsEnd(t.cols, text)
    ensures u.Valid() && u.rows == t.rows && u.cols == t.cols
  {
    if text == [] then t
    else var last := text[|text| - 1]; Put(PutAll(t, text[..|text| - 1]), last.glyph, Some(last.attr))
  }

  lemma PutPrintable(t: Terminal, car: byte, attr: byte)
    requires t.Valid() && Printable(car) && t.Position() + 1 < t.rows * t.cols
    ensures var u := Put(t, car, Some(attr));
            u.Position() == t.Position() + 1 && u.cells == t.cells[t.Position() := Cell(car, attr)]
  {
    PositionBound(t.y, t.x, t.rows, t.cols);
    if t.x + 1 == t.cols {
      assert (t.y + 1) * t.cols == t.y * t.cols + t.cols;
      if t.y + 1 == t.rows {
        assert false;
      }
    }
  }

  /** Text that fits is on the screen in reading order, wrapped at the right edge, and nothing else
      has changed. */
  lemma {:induction false} TextAppears(t: Terminal, text: seq<Cell>)
    requires t.Valid() && t.Position() + |text| < t.rows * t.cols
    requires AllPrintable(text)
    ensures var u := PutAll(t, text);
            u.Position() == t.Position() + |text| && u.cells == Splice(t.cells, t.Position(), text)
    decreases |text|
  {
    if text != [] {
      var n := |text| - 1;
      TextAppears(t, text[..n]);
      PutPrintable(PutAll(t, text[..n]), text[n].glyph, text[n].attr);
    }
  }

  // ------------------------------------------------------------------ video memory

  /** Video memory as cells: character and attribute in adjoining bytes. */
  function Cells(m: seq<byte>): (cells: seq<Cell>)
    ensures |cells| == |m| / 2
  {
    seq(|m| / 2, k requires 0 <= k < |m| / 2 => Cell(m[2 * k], m[2 * k + 1]))
  }

  method StoreWord(mem: array<byte>, k: nat, cell: Cell)
    requires k < mem.Length / 2
    modifies mem
    ensures Cells(mem[..]) == old(Cells(mem[..]))[k := cell]
  {
    mem[2 * k] := cell.glyph;
    mem[2 * k + 1] := cell.attr;
  }

  method LoadWord(mem: array<byte>, k: nat) returns (cell: Cell)
    requires k < mem.Length / 2
    ensures cell == Cells(mem[..])[k]
  {
    cell := Cell(mem[2 * k], mem[2 * k + 1]);
  }

  /** `rep stosw`. */
  method FillWords(mem: array<byte>, k: nat, n: nat, cell: Cell)
    requires k + n <= mem.Length / 2
    modifies mem
    ensures Cells(mem[..]) == Splice(old(Cells(mem[..])), k, seq(n, _ => cell))
  {
    for i := 0 to n
      invariant Cells(mem[..]) == Splice(old(Cells(mem[..])), k, seq(i, _ => cell))
    {
      StoreWord(mem, k + i, cell);
    }
  }

  /** `rep movsw`, upwards: right also when the two stretches overlap, as long as the destination is
      the lower one. */
  method CopyWords(mem: array<byte>, dst: nat, src: nat, n: nat)
    requires dst <= src && src + n <= mem.Length / 2
    modifies mem
    ensures Cells(mem[..]) == Splice(old(Cells(mem[..])), dst, old(Cells(mem[..]))[src..src + n])
  {
    ghost var c0 := Cells(mem[..]);
    for i := 0 to n
      invariant Cells(mem[..]) == Splice(c0, dst, c0[src..src + i])
    {
      var cell := LoadWord(mem, src + i);
      StoreWord(mem, dst + i, cell);
    }
  }

  // ------------------------------------------------------------------ scrolling a window

  lemma RowsApart(r: nat, r': nat, cols: nat)
    requires r < r'
    ensures r * cols + cols <= r' * cols
  {
    assert (r + 1) * cols <= r' * cols;
  }

  lemma LessByProduct(r: nat, rows: nat, cols: nat)
    requires r * cols < rows * cols
    ensures r < rows
  {
  }

  /** The cell in row r and column c; memory may go on behind the screen. */
  function At(cells: seq<Cell>, rows: nat, cols: nat, r: nat, c: nat): Cell
    requires |cells| >= rows * cols && r < rows && c < cols
  {
    PositionBound(r, c, rows, cols);
    cells[r * cols + c]
  }

  /** Replacing part of a row changes that part of that row. */
  lemma RowSpliced(cells: seq<Cell>, rows: nat, cols: nat, row: nat, left: nat, bs: seq<Cell>, r: nat, c: nat)
    requires |cells| >= rows * cols && r < rows && c < cols && row < rows && left + |bs| <= cols
    requires row * cols + left + |bs| <= rows * cols
    ensures At(Splice(cells, row * cols + left, bs), rows, cols, r, c)
         == if r == row && left <= c < left + |bs| then bs[c - left] else At(cells, rows, cols, r, c)
  {
    PositionBound(r, c, rows, cols);
    if r < row {
      RowsApart(r, row, cols);
    } else if r > row {
      RowsApart(row, r, cols);
    }
  }

  lemma RowRoom(rows: nat, cols: nat, row: nat, left: nat, n: nat)
    requires row < rows && left + n <= cols
    ensures row * cols + left + n <= rows * cols
  {
    assert (row + 1) * cols <= rows * cols;
  }

  datatype Window = Window(top: nat, left: nat, bottom: nat, right: nat)

  /** What a cell holds after the window has been scrolled up by n lines; n = 0 blanks it. */
  function Scrolled(cells: seq<Cell>, rows: nat, cols: nat, w: Window, n: nat, blank: Cell, r: nat, c: nat): Cell
    requires |cells| >= rows * cols && r < rows && c < cols && w.bottom < rows
  {
    if !(w.top <= r <= w.bottom && w.left <= c <= w.right) then At(cells, rows, cols, r, c)
    else if n == 0 || r + n > w.bottom then blank
    else At(cells, rows, cols, r + n, c)
  }

  // ------------------------------------------------------------------ the scroll loop over memory

  /** The rows of a scroll: `width` cells from column `left` on, each n rows up, blank at the bottom. */
  datatype Job = Job(cols: nat, n: nat, bottom: nat, left: nat, width: nat, blank: Cell) {
    /** Where row i of the window begins. */
    function Begin(i: nat): nat {
      i * cols + left
    }

    /** Memory reaches as far as the last row that is touched. */
    predicate Fits(size: nat) {
      Begin(bottom) + width <= size
    }

    lemma RowFits(i: nat, size: nat)
      requires Fits(size) && i <= bottom
      ensures Begin(i) + width <= size
    {
      MulMono(i, bottom, cols);
    }

    /** What row i receives. */
    function RowFor(cells: seq<Cell>, i: nat): (row: seq<Cell>)
      requires Fits(|cells|)
      ensures |row| == width
    {
      if i + n > bottom || n == 0 then seq(width, _ => blank)
      else
        RowFits(i + n, |cells|);
        cells[Begin(i + n)..Begin(i + n) + width]
    }

    /** Memory after one row. */
    function RowDone(cells: seq<Cell>, i: nat): (after: seq<Cell>)
      requires Fits(|cells|) && i <= bottom
      ensures |after| == |cells|
    {
      RowFits(i, |cells|);
      Splice(cells, Begin(i), RowFor(cells, i))
    }

    /** Memory after the rows from i to the last one, in this order. */
    function Moved(cells: seq<Cell>, i: nat): (after: seq<Cell>)
      requires Fits(|cells|)
      ensures |after| == |cells|
      decreases bottom + 1 - i
    {
      if i > bottom then cells else Moved(RowDone(cells, i), i + 1)
    }
  }

  /** One row in memory: copied from n rows below, or blanked. */
  method ScrollRow(mem: array<byte>, job: Job, i: nat)
    requires job.Fits(mem.Length / 2) && i <= job.bottom
    modifies mem
    ensures Cells(mem[..]) == job.RowDone(old(Cells(mem[..])), i)
  {
    if i + job.n > job.bottom || job.n == 0 {
      var dst := RowStart(job, i, mem.Length / 2);
      FillWords(mem, dst, job.width, job.blank);
    } else {
      var dst, src := RowStarts(job, i, mem.Length / 2);
      CopyWords(mem, dst, src, job.width);
    }
  }

  method RowStart(job: Job, i: nat, size: nat) returns (dst: nat)
    requires job.Fits(size) && i <= job.bottom
    ensures dst == job.Begin(i) && dst + job.width <= size
  {
    job.RowFits(i, size);
    dst := job.Begin(i);
  }

  method RowStarts(job: Job, i: nat, size: nat) returns (dst: nat, src: nat)
    requires job.Fits(size) && i + job.n <= job.bottom
    ensures dst == job.Begin(i) && src == job.Begin(i + job.n) && dst <= src && src + job.width <= size
  {
    job.RowFits(i + job.n, size);
    MulMono(i, i + job.n, job.cols);
    dst, src := job.Begin(i), job.Begin(i + job.n);
  }

  /** What is left to do from row i on makes `goal` of memory m. */
  ghost predicate Leads(job: Job, m: seq<byte>, i: nat, goal: seq<Cell>) {
    job.Fits(|m| / 2) && job.Moved(Cells(m), i) == goal
  }

  /** One round of the loop. */
  method ScrollRound(mem: array<byte>, job: Job, i: nat, ghost goal: seq<Cell>)
    requires Leads(job, mem[..], i, goal) && i <= job.bottom
    modifies mem
    ensures Leads(job, mem[..], i + 1, goal)
  {
    ScrollRow(mem, job, i);
  }

  method ScrollRows(mem: array<byte>, job: Job, top: nat)
    requires job.Fits(mem.Length / 2)
    modifies mem
    ensures Cells(mem[..]) == job.Moved(old(Cells(mem[..])), top)
  {
    ghost var goal := job.Moved(Cells(mem[..]), top);
    var i := top;
    while i <= job.bottom
      invariant Leads(job, mem[..], i, goal)
    {
      ScrollRound(mem, job, i, goal);
      i := i + 1;
    }
  }

  /** The width as the program counts it, in 8 bits. */
  function Width(left: nat, right: nat): nat
    requires left < 0x100
  {
    (right + 0x101 - left) % 0x100
  }

  function Least(a: nat, b: nat): nat {
    if a < b then a else b
  }

  predicate Bytes(nblines: nat, rul: nat, cul: nat, rlr: nat, clr: nat) {
    nblines < 0x100 && rul < 0x100 && cul < 0x100 && rlr < 0x100 && clr < 0x100
  }

  /** What the scroll loop is asked for once the lower right corner has been brought onto the screen. */
  function ScrollJob(rows: nat, cols: nat, nblines: nat, attr: byte, cul: nat, rlr: nat, clr: nat): Job
    requires rows > 0 && cols > 0 && cul < 0x100
  {
    Job(cols, if nblines > rows then 0 else nblines, Least(rlr, rows - 1), cul, Width(cul, Least(clr, cols - 1)),
        Cell(0x20, attr))
  }

  /** Memory behind the screen is only reached by a window that begins behind its right edge. */
  predicate Roomy(size: nat, rows: nat, cols: nat, cul: nat) {
    size >= rows * cols + (if cul <= cols then 0 else 0x200)
  }

  lemma JobFits(size: nat, rows: nat, cols: nat, nblines: nat, attr: byte, cul: nat, rlr: nat, clr: nat)
    requires 0 < rows && 0 < cols < 0x100 && cul <= clr < 0x100 && Roomy(size, rows, cols, cul)
    ensures ScrollJob(rows, cols, nblines, attr, cul, rlr, clr).Fits(size)
    ensures cul <= cols ==> Width(cul, Least(clr, cols - 1)) == Least(clr, cols - 1) + 1 - cul
    ensures cul > cols ==> Width(cul, Least(clr, cols - 1)) == 0x100 + cols - cul > 0
  {
    var bottom := Least(rlr, rows - 1);
    RowRoom(rows, cols, bottom, 0, cols);
  }

  /** Memory after biosfn_scroll, upwards, in a text mode. */
  function AfterScroll(cells: seq<Cell>, rows: nat, cols: nat, nblines: nat, attr: byte,
                       rul: nat, cul: nat, rlr: nat, clr: nat): (after: seq<Cell>)
    requires 0 < rows && 0 < cols < 0x100 && Bytes(nblines, rul, cul, rlr, clr) && Roomy(|cells|, rows, cols, cul)
    ensures |after| == |cells|
  {
    if rul > rlr || cul > clr then cells
    else
      var job := ScrollJob(rows, cols, nblines, attr, cul, rlr, clr);
      JobFits(|cells|, rows, cols, nblines, attr, cul, rlr, clr);
      if job.n == 0 && rul == 0 && cul == 0 && job.bottom == rows - 1 && Least(clr, cols - 1) == cols - 1
        then Splice(cells, 0, seq(rows * cols, _ => job.blank))
      else job.Moved(cells, rul)
  }

  /** biosfn_scroll, upwards, in a text mode, for all its byte arguments. */
  method ScrollMemory(mem: array<byte>, rows: nat, cols: nat, nblines: nat, attr: byte,
                      rul: nat, cul: nat, rlr: nat, clr: nat)
    requires 0 < rows && 0 < cols < 0x100 && Bytes(nblines, rul, cul, rlr, clr)
    requires Roomy(mem.Length / 2, rows, cols, cul)
    modifies mem
    ensures Cells(mem[..]) == AfterScroll(old(Cells(mem[..])), rows, cols, nblines, attr, rul, cul, rlr, clr)
    ensures rul > rlr || cul > clr ==> mem[..] == old(mem[..])
  {
    if rul > rlr { return; }
    if cul > clr { return; }
    var job, right := Clip(rows, cols, nblines, attr, cul, rlr, clr);
    JobFits(mem.Length / 2, rows, cols, nblines, attr, cul, rlr, clr);
    if job.n == 0 && rul == 0 && cul == 0 && job.bottom == rows - 1 && right == cols - 1 {
      FillWords(mem, 0, rows * cols, job.blank);
    } else {
      ScrollRows(mem, job, rul);
    }
  }

  /** The lower right corner brought onto the screen, and the width in 8 bits. */
  method Clip(rows: nat, cols: nat, nblines: nat, attr: byte, cul: nat, rlr: nat, clr: nat)
    returns (job: Job, right: nat)
    requires rows > 0 && cols > 0 && cul < 0x100
    ensures job == ScrollJob(rows, cols, nblines, attr, cul, rlr, clr) && right == Least(clr, cols - 1)
  {
    var bottom, n := rlr, nblines;
    right := clr;
    if bottom >= rows { bottom := rows - 1; }
    if right >= cols { right := cols - 1; }
    if n > rows { n := 0; }
    job := Job(cols, n, bottom, cul, Width(cul, right), Cell(0x20, attr));
  }

  // ------------------------------------------------------------------ the loop and the window

  /** The job is one for a window on the screen. */
  predicate OnScreen(job: Job, rows: nat, w: Window, size: nat) {
    && job.bottom < rows && job.left + job.width <= job.cols && size >= rows * job.cols && job.Fits(size)
    && w.left == job.left && w.bottom == job.bottom && w.right + 1 == job.left + job.width
  }

  lemma RowForAt(job: Job, cells: seq<Cell>, rows: nat, w: Window, i: nat, c: nat)
    requires OnScreen(job, rows, w, |cells|) && i <= job.bottom && w.left <= c <= w.right
    ensures job.RowFor(cells, i)[c - job.left]
         == if i + job.n > job.bottom || job.n == 0 then job.blank else At(cells, rows, job.cols, i + job.n, c)
  {
    if i + job.n <= job.bottom {
      job.RowFits(i + job.n, |cells|);
    }
  }

  lemma RowDoneAt(job: Job, cells: seq<Cell>, rows: nat, w: Window, i: nat, r: nat, c: nat)
    requires OnScreen(job, rows, w, |cells|) && i <= job.bottom && r < rows && c < job.cols
    ensures At(job.RowDone(cells, i), rows, job.cols, r, c)
         == if r == i && w.left <= c <= w.right then job.RowFor(cells, i)[c - job.left]
            else At(cells, rows, job.cols, r, c)
  {
    RowRoom(rows, job.cols, i, job.left, job.width);
    RowSpliced(cells, rows, job.cols, i, job.left, job.RowFor(cells, i), r, c);
  }

  /** Above row i every cell has what scrolling makes of it, from there on and behind the screen what it
      had. */
  ghost predicate Treated(job: Job, cells: seq<Cell>, now: seq<Cell>, rows: nat, w: Window, i: nat) {
    && OnScreen(job, rows, w, |cells|) && |now| == |cells|
    && (forall r, c :: 0 <= r < rows && 0 <= c < job.cols ==>
          At(now, rows, job.cols, r, c) == if r < i then Scrolled(cells, rows, job.cols, w, job.n, job.blank, r, c)
                                           else At(cells, rows, job.cols, r, c))
    && forall k :: rows * job.cols <= k < |cells| ==> now[k] == cells[k]
  }

  lemma TreatedStart(job: Job, cells: seq<Cell>, rows: nat, w: Window, i: nat)
    requires OnScreen(job, rows, w, |cells|) && i <= w.top
    ensures Treated(job, cells, cells, rows, w, i)
  {
  }

  lemma TreatedNext(job: Job, cells: seq<Cell>, before: seq<Cell>, rows: nat, w: Window, i: nat)
    requires Treated(job, cells, before, rows, w, i) && w.top <= i <= job.bottom
    ensures Treated(job, cells, job.RowDone(before, i), rows, w, i + 1)
  {
    var after := job.RowDone(before, i);
    forall r, c | 0 <= r < rows && 0 <= c < job.cols
      ensures At(after, rows, job.cols, r, c) == if r < i + 1
              then Scrolled(cells, rows, job.cols, w, job.n, job.blank, r, c) else At(cells, rows, job.cols, r, c)
    {
      OneRowMoved(job, cells, before, rows, w, i, r, c);
    }
    forall k | rows * job.cols <= k < |cells| ensures after[k] == cells[k] {
      RowDoneBehind(job, before, rows, w, i, k);
    }
  }

  /** Behind the last row of the window there is nothing to do. */
  lemma TreatedRest(job: Job, cells: seq<Cell>, now: seq<Cell>, rows: nat, w: Window, i: nat)
    requires Treated(job, cells, now, rows, w, i) && i > job.bottom
    ensures Treated(job, cells, now, rows, w, rows)
  {
  }

  /** Working row by row in place equals moving the whole window at once. */
  lemma {:induction false} MovedTreated(job: Job, cells: seq<Cell>, now: seq<Cell>, rows: nat, w: Window, i: nat)
    requires Treated(job, cells, now, rows, w, i) && i >= w.top
    ensures Treated(job, cells, job.Moved(now, i), rows, w, rows)
    decreases job.bottom + 1 - i
  {
    if i > job.bottom {
      TreatedRest(job, cells, now, rows, w, i);
    } else {
      TreatedNext(job, cells, now, rows, w, i);
      MovedTreated(job, cells, job.RowDone(now, i), rows, w, i + 1);
    }
  }

  lemma OneRowMoved(job: Job, cells: seq<Cell>, before: seq<Cell>, rows: nat, w: Window, i: nat, r: nat, c: nat)
    requires |before| == |cells| && OnScreen(job, rows, w, |cells|)
    requires w.top <= i <= job.bottom && r < rows && c < job.cols
    requires At(before, rows, job.cols, r, c)
          == if r < i then Scrolled(cells, rows, job.cols, w, job.n, job.blank, r, c)
             else At(cells, rows, job.cols, r, c)
    requires r == i && i + job.n <= job.bottom ==>
      At(before, rows, job.cols, i + job.n, c) == At(cells, rows, job.cols, i + job.n, c)
    ensures At(job.RowDone(before, i), rows, job.cols, r, c)
         == if r < i + 1 then Scrolled(cells, rows, job.cols, w, job.n, job.blank, r, c)
            else At(cells, rows, job.cols, r, c)
  {
    RowDoneAt(job, before, rows, w, i, r, c);
    if r == i && w.left <= c <= w.right { RowForAt(job, before, rows, w, i, c); }
  }

  lemma RowDoneBehind(job: Job, cells: seq<Cell>, rows: nat, w: Window, i: nat, k: nat)
    requires OnScreen(job, rows, w, |cells|) && i <= job.bottom && rows * job.cols <= k < |cells|
    ensures job.RowDone(cells, i)[k] == cells[k]
  {
    RowRoom(rows, job.cols, i, job.left, job.width);
  }

  /** A window that begins on the screen, or at its right edge, is scrolled as a whole, and memory behind
      the screen stays. */
  lemma ScrollIsWindow(cells: seq<Cell>, rows: nat, cols: nat, nblines: nat, attr: byte,
                       rul: nat, cul: nat, rlr: nat, clr: nat)
    requires 0 < rows && 0 < cols < 0x100 && Bytes(nblines, rul, cul, rlr, clr) && |cells| >= rows * cols
    requires rul <= rlr && cul <= clr && cul <= cols
    ensures var after := AfterScroll(cells, rows, cols, nblines, attr, rul, cul, rlr, clr);
            var w := Window(rul, cul, Least(rlr, rows - 1), Least(clr, cols - 1));
            && (forall r, c :: 0 <= r < rows && 0 <= c < cols ==>
                  At(after, rows, cols, r, c)
                  == Scrolled(cells, rows, cols, w, if nblines > rows then 0 else nblines, Cell(0x20, attr), r, c))
            && forall k :: rows * cols <= k < |cells| ==> after[k] == cells[k]
  {
    var after := AfterScroll(cells, rows, cols, nblines, attr, rul, cul, rlr, clr);
    var w := Window(rul, cul, Least(rlr, rows - 1), Least(clr, cols - 1));
    var job := ScrollJob(rows, cols, nblines, attr, cul, rlr, clr);
    JobFits(|cells|, rows, cols, nblines, attr, cul, rlr, clr);
    if job.n == 0 && w == Window(0, 0, rows - 1, cols - 1) {
      Cleared(cells, rows, cols, job.blank);
    } else {
      MovedIsWindow(job, cells, rows, w);
    }
  }

  lemma Cleared(cells: seq<Cell>, rows: nat, cols: nat, blank: Cell)
    requires 0 < rows && 0 < cols && |cells| >= rows * cols
    ensures var after := Splice(cells, 0, seq(rows * cols, _ => blank));
            && (forall r, c :: 0 <= r < rows && 0 <= c < cols ==> At(after, rows, cols, r, c) == blank)
            && forall k :: rows * cols <= k < |cells| ==> after[k] == cells[k]
  {
    var after := Splice(cells, 0, seq(rows * cols, _ => blank));
    forall r, c | 0 <= r < rows && 0 <= c < cols ensures At(after, rows, cols, r, c) == blank {
      PositionBound(r, c, rows, cols);
    }
  }

  lemma MovedIsWindow(job: Job, cells: seq<Cell>, rows: nat, w: Window)
    requires OnScreen(job, rows, w, |cells|)
    ensures var after := job.Moved(cells, w.top);
            && (forall r, c :: 0 <= r < rows && 0 <= c < job.cols ==>
                  At(after, rows, job.cols, r, c) == Scrolled(cells, rows, job.cols, w, job.n, job.blank, r, c))
            && forall k :: rows * job.cols <= k < |cells| ==> after[k] == cells[k]
  {
    TreatedStart(job, cells, rows, w, w.top);
    MovedTreated(job, cells, cells, rows, w, w.top);
  }

  /** Cell k of memory is one of the window's. */
  predicate InWindow(rows: nat, cols: nat, w: Window, k: nat)
    requires cols > 0
  {
    k < rows * cols && w.top <= k / cols <= w.bottom && w.left <= k % cols <= w.right
  }

  /** Nothing outside the window changes. */
  ghost predicate StaysInside(cells: seq<Cell>, rows: nat, cols: nat, nblines: nat, attr: byte,
                              rul: nat, cul: nat, rlr: nat, clr: nat)
    requires 0 < rows && 0 < cols < 0x100 && Bytes(nblines, rul, cul, rlr, clr)
  {
    Roomy(|cells|, rows, cols, cul) ==>
      var w := Window(rul, cul, Least(rlr, rows - 1), Least(clr, cols - 1));
      forall k :: 0 <= k < |cells| && !InWindow(rows, cols, w, k) ==>
        AfterScroll(cells, rows, cols, nblines, attr, rul, cul, rlr, clr)[k] == cells[k]
  }

  lemma RowAndColumn(rows: nat, cols: nat, k: nat) returns (r: nat, c: nat)
    requires cols > 0 && k < rows * cols
    ensures r == k / cols && c == k % cols && r < rows && c < cols && k == r * cols + c
  {
    r, c := k / cols, k % cols;
    assert k == r * cols + c;
    LessByProduct(r, rows, cols);
  }

  lemma OnScreenStays(cells: seq<Cell>, rows: nat, cols: nat, nblines: nat, attr: byte,
                      rul: nat, cul: nat, rlr: nat, clr: nat)
    requires 0 < rows && 0 < cols < 0x100 && Bytes(nblines, rul, cul, rlr, clr)
    requires rul <= rlr && cul <= clr && cul <= cols
    ensures StaysInside(cells, rows, cols, nblines, attr, rul, cul, rlr, clr)
  {
    if |cells| >= rows * cols {
      var after := AfterScroll(cells, rows, cols, nblines, attr, rul, cul, rlr, clr);
      var w := Window(rul, cul, Least(rlr, rows - 1), Least(clr, cols - 1));
      ScrollIsWindow(cells, rows, cols, nblines, attr, rul, cul, rlr, clr);
      forall k | 0 <= k < |cells| && !InWindow(rows, cols, w, k) ensures after[k] == cells[k] {
        if k < rows * cols {
          var r, c := RowAndColumn(rows, cols, k);
          assert At(after, rows, cols, r, c) == At(cells, rows, cols, r, c);
        }
      }
    }
  }

  /** The last row treated is blank whatever it was. */
  lemma {:induction false} LastRowBlank(job: Job, cells: seq<Cell>, i: nat)
    requires job.Fits(|cells|) && i <= job.bottom && job.width > 0
    ensures var k := job.Begin(job.bottom); k < |cells| && job.Moved(cells, i)[k] == job.blank
    decreases job.bottom - i
  {
    if i < job.bottom {
      LastRowBlank(job, job.RowDone(cells, i), i + 1);
    } else {
      assert job.RowFor(cells, i)[0] == job.blank;
    }
  }

  /** Behind the right edge the last row fills cells that are not in the window. */
  lemma BehindEdgeSpoils(rows: nat, cols: nat, nblines: nat, attr: byte, rul: nat, cul: nat, rlr: nat, clr: nat)
    requires 0 < rows && 0 < cols < 0x100 && Bytes(nblines, rul, cul, rlr, clr)
    requires rul <= rlr && cul <= clr && cul > cols && rul < rows
    ensures exists cells :: !StaysInside(cells, rows, cols, nblines, attr, rul, cul, rlr, clr)
  {
    var cells := seq(rows * cols + 0x200, _ => Cell(0x21, attr));
    var job := ScrollJob(rows, cols, nblines, attr, cul, rlr, clr);
    JobFits(|cells|, rows, cols, nblines, attr, cul, rlr, clr);
    LastRowBlank(job, cells, rul);
    SpoiltAt(cells, rows, cols, nblines, attr, rul, cul, rlr, clr, job.Begin(job.bottom));
  }

  lemma SpoiltAt(cells: seq<Cell>, rows: nat, cols: nat, nblines: nat, attr: byte,
                 rul: nat, cul: nat, rlr: nat, clr: nat, k: nat)
    requires 0 < rows && 0 < cols < 0x100 && Bytes(nblines, rul, cul, rlr, clr) && Roomy(|cells|, rows, cols, cul)
    requires cul > cols && k < |cells|
    requires AfterScroll(cells, rows, cols, nblines, attr, rul, cul, rlr, clr)[k] != cells[k]
    ensures !StaysInside(cells, rows, cols, nblines, attr, rul, cul, rlr, clr)
  {
    EdgeCell(rows, cols, Window(rul, cul, Least(rlr, rows - 1), Least(clr, cols - 1)), k);
  }

  lemma EdgeCell(rows: nat, cols: nat, w: Window, k: nat)
    requires cols > 0 && w.left > w.right
    ensures !InWindow(rows, cols, w, k)
  {
  }

  /** Scrolling changes nothing outside its window, whatever is in memory, exactly when there is no window,
      or it begins at most at the right edge of the screen or below the last row. */
  lemma ScrollStaysInside(rows: nat, cols: nat, nblines: nat, attr: byte, rul: nat, cul: nat, rlr: nat, clr: nat)
    requires 0 < rows && 0 < cols < 0x100 && Bytes(nblines, rul, cul, rlr, clr)
    ensures (forall cells :: StaysInside(cells, rows, cols, nblines, attr, rul, cul, rlr, clr))
       <==> rul > rlr || cul > clr || cul <= cols || rul >= rows
  {
    if rul <= rlr && cul <= clr && cul <= cols {
      forall cells ensures StaysInside(cells, rows, cols, nblines, attr, rul, cul, rlr, clr) {
        OnScreenStays(cells, rows, cols, nblines, attr, rul, cul, rlr, clr);
      }
    } else if rul <= rlr && cul <= clr && rul < rows {
      BehindEdgeSpoils(rows, cols, nblines, attr, rul, cul, rlr, clr);
    }
  }

  class Screen {
    const mem: array<byte>
    const rows: nat
    const cols: nat
    var x: nat
    var y: nat

    ghost predicate Valid()
      reads this, mem
    {
      0 < rows <= 0xFF && 0 < cols <= 0xFF && mem.Length == 2 * (rows * cols) && x < cols && y < rows
    }

    ghost function View(): Terminal
      requires Valid()
      reads this, mem
    {
      Terminal(rows, cols, Cells(mem[..]), x, y)
    }

    constructor (mem: array<byte>, rows: nat, cols: nat)
      requires 0 < rows <= 0xFF && 0 < cols <= 0xFF && mem.Length == 2 * (rows * cols)
      ensures Valid() && this.mem == mem && this.rows == rows && this.cols == cols && x == 0 && y == 0
    {
      this.mem, this.rows, this.cols, x, y := mem, rows, cols, 0, 0;
    }

    /** Every cell has what scrolling the window makes of it. */
    ghost predicate Shows(c0: seq<Cell>, w: Window, n: nat, blank: Cell)
      requires Valid() && |c0| == rows * cols && w.bottom < rows
      reads this, mem
    {
      forall r, c :: 0 <= r < rows && 0 <= c < cols ==>
        At(Cells(mem[..]), rows, cols, r, c) == Scrolled(c0, rows, cols, w, n, blank, r, c)
    }

    /** Scrolling on the screen: the whole window moves at once. */
    method ScrollUp(nblines: nat, attr: byte, rul: nat, cul: nat, rlr: nat, clr: nat)
      requires Valid() && Bytes(nblines, rul, cul, rlr, clr) && cul <= cols
      modifies mem
      ensures rul > rlr || cul > clr ==> mem[..] == old(mem[..])
      ensures rul <= rlr && cul <= clr ==>
        Shows(old(Cells(mem[..])), Window(rul, cul, Least(rlr, rows - 1), Least(clr, cols - 1)),
              if nblines > rows then 0 else nblines, Cell(0x20, attr))
    {
      ghost var c0 := Cells(mem[..]);
      ScrollMemory(mem, rows, cols, nblines, attr, rul, cul, rlr, clr);
      if rul <= rlr && cul <= clr {
        ScrollIsWindow(c0, rows, cols, nblines, attr, rul, cul, rlr, clr);
      }
    }

    /** Scrolling the whole screen up by one line is dropping its first line and adding a blank one. */
    lemma WholeScreen(c0: seq<Cell>, attr: byte)
      requires Valid() && |c0| == rows * cols
      requires Shows(c0, Window(0, 0, rows - 1, cols - 1), 1, Cell(0x20, attr))
      ensures cols <= rows * cols && Cells(mem[..]) == c0[cols..] + Blank(cols, attr)
    {
      RowRoom(rows, cols, 0, 0, cols);
      var c1 := Cells(mem[..]);
      var w := Window(0, 0, rows - 1, cols - 1);
      forall k | 0 <= k < rows * cols ensures c1[k] == (c0[cols..] + Blank(cols, attr))[k] {
        var r, c := RowAndColumn(rows, cols, k);
        assert At(c1, rows, cols, r, c) == Scrolled(c0, rows, cols, w, 1, Cell(0x20, attr), r, c);
        assert (r + 1) * cols + c == k + cols && (rows - 1) * cols + cols == rows * cols;
        if r + 1 < rows {
          PositionBound(r + 1, c, rows, cols);
        } else {
          assert r == rows - 1;
        }
      }
    }

    /** One line up, the new line in the attribute found in the last line at the cursor's column. */
    method ScrollLine(column: nat)
      requires Valid() && column < cols
      modifies mem
      ensures Valid() && (rows - 1) * cols + column < rows * cols && cols <= rows * cols
      ensures var c0 := old(Cells(mem[..]));
              Cells(mem[..]) == c0[cols..] + Blank(cols, c0[(rows - 1) * cols + column].attr)
    {
      PositionBound(rows - 1, column, rows, cols);
      ghost var c0 := Cells(mem[..]);
      var fill := mem[2 * (column + (rows - 1) * cols) + 1];
      ScrollUp(1, fill, 0, 0, rows - 1, cols - 1);
      WholeScreen(c0, fill);
    }

    /** The end of biosfn_write_teletype: wrapping, scrolling and the new cursor. */
    method Settle(xcurs: nat, ycurs: nat)
      requires Valid() && xcurs <= cols && ycurs <= rows && (xcurs == cols ==> ycurs < rows)
      modifies this, mem
      ensures Valid() && View() == Settled(old(View()).(x := xcurs, y := ycurs))
    {
      var column, line := xcurs, ycurs;
      if column == cols {
        column := 0;
        line := line + 1;
      }
      if line == rows {
        ScrollLine(column);
        line := line - 1;
      }
      x, y := column, line;
    }

    /** The character at the cursor, and the attribute when there is one. */
    method WriteCell(car: byte, attr: Option<byte>)
      requires Valid()
      modifies mem
      ensures y * cols + x < rows * cols && Valid()
      ensures var p, c0 := y * cols + x, old(Cells(mem[..]));
              Cells(mem[..]) == c0[p := Cell(car, if attr.Some? then attr.value else c0[p].attr)]
    {
      PositionBound(y, x, rows, cols);
      var k := x + y * cols;
      mem[2 * k] := car;
      if attr.Some? {
        mem[2 * k + 1] := attr.value;
      }
    }

    /** The part of biosfn_write_teletype before wrapping and scrolling, for all characters but a tab. */
    method Act(car: byte, attr: Option<byte>) returns (xcurs: nat, ycurs: nat)
      requires Valid() && car != TAB
      modifies mem
      ensures Valid() && xcurs <= cols && ycurs <= rows && (xcurs == cols ==> ycurs < rows)
      ensures Settled(View().(x := xcurs, y := ycurs)) == Put(old(View()), car, attr)
    {
      xcurs, ycurs := x, y;
      if car == BEL {
      } else if car == BS {
        if xcurs > 0 { xcurs := xcurs - 1; }
      } else if car == CR {
        xcurs := 0;
      } else if car == LF {
        ycurs := ycurs + 1;
      } else {
        WriteCell(car, attr);
        xcurs := xcurs + 1;
      }
    }

    /** biosfn_write_teletype on page 0 of a text mode does to the screen and the cursor what the
        reference terminal does. */
    method Teletype(car: byte, attr: Option<byte>)
      requires Valid() && (car == TAB ==> cols > 1)
      modifies this, mem
      ensures Valid() && View() == Put(old(View()), car, attr)
      decreases car == TAB, 0
    {
      var xcurs, ycurs;
      if car == TAB {
        Tab(attr);
        xcurs, ycurs := x, y;
      } else {
        xcurs, ycurs := Act(car, attr);
      }
      Settle(xcurs, ycurs);
    }

    /** The loop of a tab. */
    method Tab(attr: Option<byte>)
      requires Valid() && cols > 1
      modifies this, mem
      ensures Valid() && View() == Tabbed(old(View()), attr)
      decreases false, 2
    {
      ghost var goal := Tabbed(View(), attr);
      var more := TabBlank(attr, goal);
      while more
        invariant Valid() && ToTab(View(), attr, goal, more)
        decreases if more then TabRank(x) else 0
      {
        more := TabBlank(attr, goal);
      }
    }

    /** One blank of a tab. */
    method TabBlank(attr: Option<byte>, ghost goal: Terminal) returns (more: bool)
      requires Valid() && ToTab(View(), attr, goal, true)
      modifies this, mem
      ensures Valid() && ToTab(View(), attr, goal, more) && (more ==> TabRank(x) < old(TabRank(x)))
      decreases false, 1
    {
      ghost var before := View();
      Teletype(0x20, attr);
      more := x % 8 == 0;
      TabStep(before, attr, goal, View(), more);
    }

    /** biosfn_write_string: places the cursor, unless the row is 0xFF, writes the characters, each with
        the one attribute or with the byte that follows it, and puts the cursor back unless asked to
        move it. */
    method WriteString(moveCursor: bool, inlineAttr: bool, attr: byte, count: nat, row: nat, col: nat, bytes: seq<byte>)
      requires Valid() && (row == 0xFF || (row < rows && col < cols))
      requires count * (if inlineAttr then 2 else 1) <= |bytes|
      requires TabsEnd(cols, TextCells(bytes, count, inlineAttr, attr))
      modifies this, mem
      ensures Valid()
      ensures var start := if row == 0xFF then old(View()) else old(View()).(x := col, y := row);
              var t := PutAll(start, TextCells(bytes, count, inlineAttr, attr));
              View() == if moveCursor then t else t.(x := old(x), y := old(y))
    {
      var oldX, oldY := x, y;
      if row != 0xFF {
        x, y := col, row;
      }
      ghost var t, text := View(), TextCells(bytes, count, inlineAttr, attr);
      var offset, current := 0, attr;
      for i := 0 to count
        invariant Valid() && View() == PutAll(t, text[..i])
        invariant offset == (if inlineAttr then 2 * i else i) && (!inlineAttr ==> current == attr)
      {
        var car := bytes[offset];
        offset := offset + 1;
        if inlineAttr {
          current := bytes[offset];
          offset := offset + 1;
        }
        assert text[..i + 1][..i] == text[..i] && text[i] == Cell(car, current);
        Teletype(car, Some(current));
      }
      assert text[..count] == text;
      if !moveCursor {
        x, y := oldX, oldY;
      }
    }
  }

  /** The characters of a string in memory with their attributes. */
  function TextCells(bytes: seq<byte>, count: nat, inlineAttr: bool, attr: byte): (text: seq<Cell>)
    requires count * (if inlineAttr then 2 else 1) <= |bytes|
    ensures |text| == count
  {
    seq(count, i requires 0 <= i < count =>
      if inlineAttr then Cell(bytes[2 * i], bytes[2 * i + 1]) else Cell(bytes[i], attr))
  }
}
