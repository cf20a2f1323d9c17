/** The screen of the terminal as a plain array of cells, and what the operations of the framebuffer
    backend do to it. */
module ScreenModel {
  import opened Arithmetic

  datatype Cell = Cell(c: nat, fg: nat, bg: nat)

  /** The scroll margins and whether printing may scroll. Rows `top` to `bottom - 1` scroll. */
  datatype Region = Region(top: nat, bottom: nat, scrolling: bool)

  /** Everything later operations can observe of the backend. */
  datatype Backend = Backend(rows: nat, cols: nat, cells: seq<Cell>, cx: nat, cy: nat, fg: nat, bg: nat,
                             saved: Saved)

  datatype Saved = Saved(cx: nat, cy: nat, fg: nat, bg: nat)

  predicate WellFormed(b: Backend) {
    b.rows > 0 && b.cols > 0 && |b.cells| == b.rows * b.cols
  }

  predicate Inside(g: Region, b: Backend) {
    1 <= g.bottom <= b.rows
  }

  // ---------------------------------------------------------------- indices

  function Index(x: nat, y: nat, cols: nat): nat {
    y * cols + x
  }

  lemma IndexBound(x: nat, y: nat, rows: nat, cols: nat)
    requires x < cols && y < rows
    ensures Index(x, y, cols) < rows * cols
  {
    Lower(y, x, rows, 0, cols);
  }

  lemma IndexInjective(x: nat, y: nat, x': nat, y': nat, cols: nat)
    requires x < cols && x' < cols && Index(x, y, cols) == Index(x', y', cols)
    ensures x == x' && y == y'
  {
    if y < y' {
      Lower(y, x, y', x', cols);
    } else if y' < y {
      Lower(y', x', y, x, cols);
    }
  }

  /** Every cell number is the number of one position. */
  lemma PartsIndex(i: nat, rows: nat, cols: nat)
    requires i < rows * cols && cols > 0
    ensures i % cols < cols && i / cols < rows && Index(i % cols, i / cols, cols) == i
  {
    DivMod(i, cols);
    if i / cols >= rows {
      MulMono(rows, i / cols, cols);
      assert false;
    }
  }

  lemma IndexParts(x: nat, y: nat, cols: nat)
    requires x < cols
    ensures Index(x, y, cols) / cols == y && Index(x, y, cols) % cols == x
  {
    Euclid(Index(x, y, cols), cols, y, x);
  }

  /** Rows `a` to `b - 1` are the cells from `a * cols` up to `b * cols`. */
  lemma RowRange(k: nat, a: nat, b: nat, cols: nat)
    requires cols > 0
    ensures a <= k / cols < b <==> a * cols <= k < b * cols
  {
    DivMod(k, cols);
    if a <= k / cols {
      MulMono(a, k / cols, cols);
    } else {
      Lower(k / cols, k % cols, a, 0, cols);
    }
    if k / cols < b {
      Lower(k / cols, k % cols, b, 0, cols);
    } else {
      MulMono(b, k / cols, cols);
    }
  }

  // ---------------------------------------------------------------- backend operations

  /** push_to_queue: sets one cell, and nothing when the position is off the screen. */
  function SetCell(b: Backend, x: nat, y: nat, c: Cell): (r: Backend)
    requires WellFormed(b)
    ensures WellFormed(r) && r == b.(cells := r.cells)
  {
    if x < b.cols && y < b.rows then
      IndexBound(x, y, b.rows, b.cols);
      b.(cells := b.cells[Index(x, y, b.cols) := c])
    else b
  }

  function At(b: Backend, x: nat, y: nat): Cell
    requires WellFormed(b) && x < b.cols && y < b.rows
  {
    IndexBound(x, y, b.rows, b.cols);
    b.cells[Index(x, y, b.cols)]
  }

  function Blank(b: Backend): Cell {
    Cell(0x20, b.fg, b.bg)
  }

  /** flanterm_fb_scroll, all cells at once: the rows of the region move up by one and the last is blanked. */
  function Scroll(b: Backend, g: Region): (r: Backend)
    requires WellFormed(b)
    ensures WellFormed(r) && r == b.(cells := r.cells)
  {
    b.(cells := seq(|b.cells|, i requires 0 <= i < |b.cells| =>
      if g.top <= i / b.cols < g.bottom - 1 && i + b.cols < |b.cells| then b.cells[i + b.cols]
      else if i / b.cols == g.bottom - 1 then Blank(b)
      else b.cells[i]))
  }

  /** flanterm_fb_revscroll, all cells at once: the rows of the region move down by one and the first is blanked. */
  function RevScroll(b: Backend, g: Region): (r: Backend)
    requires WellFormed(b)
    ensures WellFormed(r) && r == b.(cells := r.cells)
  {
    b.(cells := seq(|b.cells|, i requires 0 <= i < |b.cells| =>
      if g.top < i / b.cols < g.bottom && i >= b.cols then b.cells[i - b.cols]
      else if i / b.cols == g.top then Blank(b)
      else b.cells[i]))
  }

  /** `t` is `s` with the cells from `first` up to `last` copied `cols` cells back. */
  ghost predicate MovedBack(s: seq<Cell>, t: seq<Cell>, cols: nat, first: nat, last: nat) {
    && |t| == |s|
    && forall k {:trigger t[k]} :: 0 <= k < |s| ==>
      t[k] == if first <= k + cols < last && k + cols < |s| then s[k + cols] else s[k]
  }

  /** `t` is `s` with the cells from `first` up to `last` copied `cols` cells on. */
  ghost predicate MovedOn(s: seq<Cell>, t: seq<Cell>, cols: nat, first: nat, last: nat) {
    && |t| == |s|
    && forall k {:trigger t[k]} :: 0 <= k < |s| ==>
      t[k] == if first <= k - cols < last && 0 <= k - cols then s[k - cols] else s[k]
  }

  ghost predicate RowFilled(s: seq<Cell>, t: seq<Cell>, cols: nat, y: nat, c: Cell)
    requires cols > 0
  {
    |t| == |s| && forall k {:trigger t[k]} :: 0 <= k < |s| ==> t[k] == if k / cols == y then c else s[k]
  }

  /** The two loops of flanterm_fb_scroll together are one simultaneous move. */
  lemma ScrollIsMove(b: Backend, g: Region, t: seq<Cell>, u: seq<Cell>)
    requires WellFormed(b) && Inside(g, b)
    requires MovedBack(b.cells, t, b.cols, (g.top + 1) * b.cols, g.bottom * b.cols)
    requires RowFilled(t, u, b.cols, g.bottom - 1, Blank(b))
    ensures u == Scroll(b, g).cells
  {
    forall k | 0 <= k < |u| ensures u[k] == Scroll(b, g).cells[k] {
      RowRange(k, g.top, g.bottom - 1, b.cols);
      Successor(g.top, b.cols);
      Successor(g.bottom - 1, b.cols);
    }
  }

  lemma RevScrollIsMove(b: Backend, g: Region, t: seq<Cell>, u: seq<Cell>)
    requires WellFormed(b) && Inside(g, b)
    requires MovedOn(b.cells, t, b.cols, g.top * b.cols, (g.bottom - 1) * b.cols)
    requires RowFilled(t, u, b.cols, g.top, Blank(b))
    ensures u == RevScroll(b, g).cells
  {
    forall k | 0 <= k < |u| ensures u[k] == RevScroll(b, g).cells[k] {
      RowRange(k, g.top + 1, g.bottom, b.cols);
      Successor(g.top, b.cols);
      Successor(g.bottom - 1, b.cols);
    }
  }

  function Clear(b: Backend, move: bool): (r: Backend)
    requires WellFormed(b)
    ensures WellFormed(r)
  {
    var b1 := b.(cells := seq(|b.cells|, _ => Blank(b)));
    if move then b1.(cx := 0, cy := 0) else b1
  }

  /** `(int)v < 0` of a 64-bit value. */
  predicate NegativeInt(v: nat) {
    v % UINT >= UINT / 2
  }

  function Clamp(v: nat, limit: nat): (r: nat)
    requires limit > 0
    ensures r < limit
  {
    if v < limit then v else if NegativeInt(v) then 0 else limit - 1
  }

  function SetCursor(b: Backend, x: nat, y: nat): (r: Backend)
    requires WellFormed(b)
    ensures WellFormed(r) && r.cx < b.cols && r.cy < b.rows
  {
    b.(cx := Clamp(x, b.cols), cy := Clamp(y, b.rows))
  }

  function CursorX(b: Backend): (x: nat)
    requires WellFormed(b)
    ensures x < b.cols
  {
    if b.cx >= b.cols then b.cols - 1 else b.cx
  }

  function CursorY(b: Backend): (y: nat)
    requires WellFormed(b)
    ensures y < b.rows
  {
    if b.cy >= b.rows then b.rows - 1 else b.cy
  }

  /** flanterm_fb_move_character. */
  function MoveChar(b: Backend, newX: nat, newY: nat, oldX: nat, oldY: nat): (r: Backend)
    requires WellFormed(b)
    ensures WellFormed(r) && r == b.(cells := r.cells)
  {
    if oldX < b.cols && oldY < b.rows then SetCell(b, newX, newY, At(b, oldX, oldY)) else b
  }

  /** The line wrap of flanterm_fb_raw_putchar. Its last step limits the row by the number of columns, as the
      source does. */
  function Wrap(b: Backend, g: Region): (r: Backend)
    requires WellFormed(b)
    ensures WellFormed(r)
  {
    var b1 := b.(cx := 0, cy := b.cy + 1);
    var b2 := if b1.cy == g.bottom then Scroll(b1.(cy := b.cy), g) else b1;
    if b2.cy >= b2.cols then b2.(cy := b2.cols - 1) else b2
  }

  /** Where a wrap should end: in the next row, but in the same one at the end of the region and of the screen. */
  function NextRow(b: Backend, g: Region): int {
    if b.cy + 1 == g.bottom then b.cy else if b.cy + 1 < b.rows then b.cy + 1 else b.rows - 1
  }

  /** It does exactly if the number of that row is less than the number of columns and, for a cursor in the last row
      outside the region, the screen is square; it ends on the screen exactly if there is such a row or the screen has
      no more columns than rows. */
  lemma WrapExact(b: Backend, g: Region)
    requires WellFormed(b)
    ensures Wrap(b, g).cx == 0
    ensures Wrap(b, g).cy == NextRow(b, g)
            <==> NextRow(b, g) < b.cols && (b.cy + 1 == g.bottom || b.cy + 1 < b.rows || b.cols == b.rows)
    ensures Wrap(b, g).cy < b.rows
            <==> b.cols <= b.rows || if b.cy + 1 == g.bottom then b.cy < b.rows else b.cy + 1 < b.rows
  {
  }

  lemma WrapKeeps(b: Backend, g: Region)
    requires WellFormed(b)
    ensures var r := Wrap(b, g);
      && r == b.(cells := r.cells, cx := r.cx, cy := r.cy)
      && (b.cy + 1 != g.bottom ==> r.cells == b.cells)
  {
  }

  /** flanterm_fb_raw_putchar: a pending line wrap, then the character at the cursor. */
  function RawPut(b: Backend, c: nat, g: Region): (r: Backend)
    requires WellFormed(b)
    ensures WellFormed(r)
  {
    var b1 := if b.cx >= b.cols && (b.cy + 1 < g.bottom || g.scrolling) then Wrap(b, g) else b;
    SetCell(b1, b1.cx, b1.cy, Cell(c, b1.fg, b1.bg)).(cx := b1.cx + 1)
  }

  /** Whether the next character finds a cell: the cursor is on the screen, or the pending line wrap may happen and
      leads back onto it. */
  predicate FindsCell(b: Backend, g: Region) {
    if b.cx < b.cols then b.cy < b.rows
    else
      && (b.cy + 1 < g.bottom || g.scrolling)
      && (b.cols <= b.rows || if b.cy + 1 == g.bottom then b.cy < b.rows else b.cy + 1 < b.rows)
  }

  /** A character ends up in the cell before the cursor exactly if `FindsCell`; otherwise nothing changes on the screen,
      unless the wrap scrolled it. */
  lemma PutExact(b: Backend, c: nat, g: Region)
    requires WellFormed(b)
    ensures var r := RawPut(b, c, g);
      && r.cx > 0 && (r.cx <= r.cols && r.cy < r.rows <==> FindsCell(b, g))
      && (FindsCell(b, g) ==> At(r, r.cx - 1, r.cy) == Cell(c, b.fg, b.bg))
      && (!FindsCell(b, g) && b.cy + 1 != g.bottom ==> r.cells == b.cells)
  {
    hide Wrap, Index;
    WrapExact(b, g);
    WrapKeeps(b, g);
    if FindsCell(b, g) {
      var b1 := if b.cx >= b.cols && (b.cy + 1 < g.bottom || g.scrolling) then Wrap(b, g) else b;
      IndexBound(b1.cx, b1.cy, b1.rows, b1.cols);
    }
  }

  /** Below the bottom margin, the character that wraps from the last row of a screen with more columns than rows is
      lost, with the cursor behind the screen. */
  lemma WrapLosesCharacter(b: Backend, c: nat, g: Region)
    requires WellFormed(b) && g.scrolling && g.bottom < b.rows < b.cols && b.cx >= b.cols && b.cy == b.rows - 1
    ensures var r := RawPut(b, c, g); r.cells == b.cells && r.cy == b.rows && !FindsCell(b, g)
    ensures Wrap(b, g).cy != NextRow(b, g)
  {
  }

  // ---------------------------------------------------------------- the display

  function Invert(c: Cell): Cell {
    Cell(c.c, c.bg, c.fg)
  }

  predicate CursorShown(b: Backend, enabled: bool) {
    enabled && b.cx < b.cols && b.cy < b.rows
  }

  /** What the display shows after a flush: the cells, the cursor cell with its colours swapped. */
  function Shown(b: Backend, enabled: bool): (d: seq<Cell>)
    requires WellFormed(b)
    ensures |d| == |b.cells|
  {
    if CursorShown(b, enabled) then
      IndexBound(b.cx, b.cy, b.rows, b.cols);
      var i := Index(b.cx, b.cy, b.cols);
      b.cells[i := Invert(b.cells[i])]
    else b.cells
  }

  /** The screen can be read back from the display and the cursor. */
  lemma ShownReadsBack(b: Backend, enabled: bool)
    requires WellFormed(b)
    ensures Shown(b.(cells := Shown(b, enabled)), enabled) == b.cells
  {
    if CursorShown(b, enabled) {
      IndexBound(b.cx, b.cy, b.rows, b.cols);
      var i := Index(b.cx, b.cy, b.cols);
      assert Invert(Invert(b.cells[i])) == b.cells[i];
    }
  }

  /** Displays differ exactly where the screens do, for the same cursor; so a display that equals `Shown` has the cursor
      in no other cell. */
  lemma ShownDiffers(b: Backend, c: Backend, enabled: bool, k: nat)
    requires WellFormed(b) && WellFormed(c) && c == b.(cells := c.cells) && k < |b.cells|
    ensures Shown(b, enabled)[k] == Shown(c, enabled)[k] <==> b.cells[k] == c.cells[k]
  {
    if CursorShown(b, enabled) {
      IndexBound(b.cx, b.cy, b.rows, b.cols);
      var i := Index(b.cx, b.cy, b.cols);
      assert Invert(Invert(b.cells[i])) == b.cells[i] && Invert(Invert(c.cells[i])) == c.cells[i];
    }
  }
}
