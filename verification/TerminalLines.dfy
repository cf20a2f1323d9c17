/** Inserting and deleting lines. */
module TerminalLines {
  import opened Arithmetic
  import opened ScreenModel
  import opened TerminalModel
  import opened TerminalActions
  import opened TerminalEditing

  /** The rows from `top` up to `bottom` moved up by `n`, with blank rows behind them. */
  function MovedUp(b: Backend, top: nat, bottom: nat, n: nat): (r: Backend)
    requires WellFormed(b)
    ensures WellFormed(r) && r == b.(cells := r.cells)
  {
    b.(cells := seq(|b.cells|, i requires 0 <= i < |b.cells| =>
      if top <= i / b.cols < bottom then FromBelow(b, bottom, n, i) else b.cells[i]))
  }

  /** The cell `n` rows below cell `i`, or a blank from row `bottom` on. */
  function FromBelow(b: Backend, bottom: nat, n: nat, i: nat): Cell
    requires WellFormed(b)
  {
    if i / b.cols + n < bottom && i + n * b.cols < |b.cells| then b.cells[i + n * b.cols] else Blank(b)
  }

  /** The rows from `top` up to `bottom` moved down by `n`, with blank rows before them. */
  function MovedDown(b: Backend, top: nat, bottom: nat, n: nat): (r: Backend)
    requires WellFormed(b)
    ensures WellFormed(r) && r == b.(cells := r.cells)
  {
    b.(cells := seq(|b.cells|, i requires 0 <= i < |b.cells| =>
      if top <= i / b.cols < bottom then FromAbove(b, top, n, i) else b.cells[i]))
  }

  function FromAbove(b: Backend, top: nat, n: nat, i: nat): Cell
    requires WellFormed(b) && i < |b.cells|
  {
    if top + n <= i / b.cols && n * b.cols <= i then b.cells[i - n * b.cols] else Blank(b)
  }

  lemma RowBelow(i: nat, cols: nat)
    requires cols > 0
    ensures (i + cols) / cols == i / cols + 1
  {
    DivMod(i, cols);
    Successor(i / cols, cols);
    Euclid(i + cols, cols, i / cols + 1, i % cols);
  }

  /** A cell above the last row has one below it. */
  lemma HasBelow(i: nat, rows: nat, cols: nat)
    requires cols > 0 && i / cols + 1 < rows
    ensures i + cols < rows * cols
  {
    RowBelow(i, cols);
    RowRange(i + cols, 0, rows, cols);
  }

  lemma HasAbove(i: nat, cols: nat)
    requires cols > 0 && i / cols >= 1
    ensures i >= cols && (i - cols) / cols == i / cols - 1
  {
    RowRange(i, 1, i / cols + 1, cols);
    RowBelow(i - cols, cols);
  }

  /** Scrolling `n` times is moving the region up by `n` rows. */
  lemma {:induction false} ScrollTimesMoves(b: Backend, n: nat, g: Region)
    requires WellFormed(b) && g.top < g.bottom <= b.rows
    ensures ScrollTimes(b, n, g) == MovedUp(b, g.top, g.bottom, n)
  {
    var want := MovedUp(b, g.top, g.bottom, n).cells;
    if n == 0 {
      forall i: nat | i < |b.cells| ensures want[i] == b.cells[i] {
      }
      assert want == b.cells;
    } else {
      ScrollTimesMoves(b, n - 1, g);
      var c := ScrollTimes(b, n - 1, g);
      var d := Scroll(c, g).cells;
      forall i: nat | i < |b.cells| ensures d[i] == want[i] {
        ScrollCell(b, n, g, i);
      }
      assert d == want;
    }
  }

  lemma ScrollCell(b: Backend, n: nat, g: Region, i: nat)
    requires WellFormed(b) && g.top < g.bottom <= b.rows && n > 0 && i < |b.cells|
    ensures Scroll(MovedUp(b, g.top, g.bottom, n - 1), g).cells[i] == MovedUp(b, g.top, g.bottom, n).cells[i]
  {
    Successor(n - 1, b.cols);
    if i / b.cols < g.bottom - 1 {
      RowBelow(i, b.cols);
      HasBelow(i, b.rows, b.cols);
    }
  }

  /** Reverse scrolling `n` times is moving the region down by `n` rows. */
  lemma {:induction false} RevScrollTimesMoves(b: Backend, n: nat, g: Region)
    requires WellFormed(b) && g.top < g.bottom <= b.rows
    ensures RevScrollTimes(b, n, g) == MovedDown(b, g.top, g.bottom, n)
  {
    var want := MovedDown(b, g.top, g.bottom, n).cells;
    if n == 0 {
      forall i: nat | i < |b.cells| ensures want[i] == b.cells[i] {
      }
      assert want == b.cells;
    } else {
      RevScrollTimesMoves(b, n - 1, g);
      var c := RevScrollTimes(b, n - 1, g);
      var d := RevScroll(c, g).cells;
      forall i: nat | i < |b.cells| ensures d[i] == want[i] {
        RevScrollCell(b, n, g, i);
      }
      assert d == want;
    }
  }

  lemma RevScrollCell(b: Backend, n: nat, g: Region, i: nat)
    requires WellFormed(b) && g.top < g.bottom <= b.rows && n > 0 && i < |b.cells|
    ensures RevScroll(MovedDown(b, g.top, g.bottom, n - 1), g).cells[i] == MovedDown(b, g.top, g.bottom, n).cells[i]
  {
    Successor(n - 1, b.cols);
    if i / b.cols >= 1 {
      HasAbove(i, b.cols);
    }
  }

  // ---------------------------------------------------------------- inserting lines

  /** Below the region, reverse scrolling from row `top` on blanks that row. */
  lemma {:induction false} RevScrollBelow(b: Backend, n: nat, g: Region)
    requires WellFormed(b) && g.top >= g.bottom
    ensures RevScrollTimes(b, n, g) == if n == 0 then b else Blanked(b, g.top, 0, b.cols)
  {
    if n == 0 {
      assert RevScrollTimes(b, 0, g) == b;
    } else {
      RevScrollBelow(b, n - 1, g);
      var c, want := RevScrollTimes(b, n - 1, g), Blanked(b, g.top, 0, b.cols).cells;
      forall i: nat | i < |b.cells| ensures RevScroll(c, g).cells[i] == want[i] {
        RowRange(i, g.top, g.top + 1, b.cols);
        Successor(g.top, b.cols);
        BlankedAt(b, g.top, 0, b.cols, i);
      }
      assert RevScroll(c, g).cells == want;
    }
  }

  /** CSI L moves the lines from the cursor down to the bottom margin, and none from below the margin, if and only if
      the count is zero, the cursor is above the margin, or its line is blank already. */
  lemma InsertLinesExact(b: Backend, g: Region, n: nat)
    requires WellFormed(b) && g.top < g.bottom <= b.rows
    ensures Apply(b, g, RevScrollBy(n)) == MovedDown(b, CursorY(b), g.bottom, n)
            <==> n == 0 || CursorY(b) < g.bottom || RowBlank(b, CursorY(b), 0, b.cols)
  {
    hide RevScrollTimes, MovedDown, Blanked;
    var y := CursorY(b);
    var h := g.(top := y);
    if y < g.bottom {
      RevScrollTimesMoves(b, n, h);
    } else {
      RevScrollBelow(b, n, h);
      NothingMoved(b, y, g.bottom, n);
      BlankedSame(b, y, 0, b.cols);
    }
  }

  lemma NothingMoved(b: Backend, top: nat, bottom: nat, n: nat)
    requires WellFormed(b) && bottom <= top
    ensures MovedDown(b, top, bottom, n) == b
  {
    forall i: nat | i < |b.cells| ensures MovedDown(b, top, bottom, n).cells[i] == b.cells[i] {
    }
    assert MovedDown(b, top, bottom, n).cells == b.cells;
  }

  // ---------------------------------------------------------------- deleting lines

  function Max(a: nat, b: nat): nat {
    if a >= b then a else b
  }

  /** The lines of the region between the top margin and row `y` hold what a move by `n` rows brings there. */
  predicate LinesRepeat(b: Backend, g: Region, y: nat, n: nat)
    requires WellFormed(b)
  {
    forall i :: 0 <= i < |b.cells| && Min(g.top, y) <= i / b.cols < Max(g.top, y) && i / b.cols < g.bottom ==>
      b.cells[i] == FromBelow(b, g.bottom, n, i)
  }

  /** CSI M moves the lines below the cursor up if and only if that holds: it moves those from the top margin on. */
  lemma DeleteLinesExact(b: Backend, g: Region, n: nat)
    requires WellFormed(b) && g.top < g.bottom <= b.rows
    ensures Apply(b, g, ScrollBy(n)) == MovedUp(b, CursorY(b), g.bottom, n) <==> LinesRepeat(b, g, CursorY(b), n)
  {
    hide ScrollTimes, FromBelow;
    ScrollTimesMoves(b, n, g);
    var y := CursorY(b);
    var c, want := MovedUp(b, g.top, g.bottom, n).cells, MovedUp(b, y, g.bottom, n).cells;
    if LinesRepeat(b, g, y, n) {
      forall i: nat | i < |b.cells| ensures c[i] == want[i] {
      }
      assert c == want;
    }
    if c == want {
      forall i: nat | i < |b.cells| && Min(g.top, y) <= i / b.cols < Max(g.top, y) && i / b.cols < g.bottom
        ensures b.cells[i] == FromBelow(b, g.bottom, n, i)
      {
        assert c[i] == want[i];
      }
    }
  }

  /** With the cursor at the top margin it always does. */
  lemma DeleteLinesAtTop(b: Backend, g: Region, n: nat)
    requires WellFormed(b) && CursorY(b) == g.top < g.bottom <= b.rows
    ensures Apply(b, g, ScrollBy(n)) == MovedUp(b, CursorY(b), g.bottom, n)
  {
    hide Apply, MovedUp;
    DeleteLinesExact(b, g, n);
  }

  /** From below the top margin, a line above the cursor that differs from the one behind it is lost. */
  lemma DeleteLinesWrong(b: Backend, g: Region)
    requires WellFormed(b) && g.top < CursorY(b) < g.bottom <= b.rows && At(b, 0, g.top) != At(b, 0, g.top + 1)
    ensures Apply(b, g, ScrollBy(1)) != MovedUp(b, CursorY(b), g.bottom, 1)
  {
    hide Apply, MovedUp;
    DeleteLinesExact(b, g, 1);
    var i := Index(0, g.top, b.cols);
    IndexBound(0, g.top, b.rows, b.cols);
    IndexBound(0, g.top + 1, b.rows, b.cols);
    IndexParts(0, g.top, b.cols);
    Successor(g.top, b.cols);
    assert FromBelow(b, g.bottom, 1, i) == At(b, 0, g.top + 1);
    assert b.cells[i] == At(b, 0, g.top);
  }
}
