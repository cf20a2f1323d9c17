/** Erasing the display, and text that goes on from line to line. */
module TerminalErasing {
  import opened Arithmetic
  import opened ScreenModel
  import opened TerminalModel
  import opened TerminalActions
  import opened TerminalEditing

  // ---------------------------------------------------------------- printing from line to line

  /** The rows that printing fills one after the other, without scrolling and without the limit of a wrap. */
  function FlowRows(b: Backend, g: Region): nat {
    Min(g.bottom, b.cols)
  }

  /** The cursor is in one of these rows, perhaps with a line wrap pending. */
  predicate Flows(b: Backend, g: Region) {
    b.cx <= b.cols && b.cy < FlowRows(b, g)
  }

  /** A character goes to the cell with the number of the cursor, and the cursor to the next one. */
  lemma PutFlows(b: Backend, c: nat, g: Region)
    requires WellFormed(b) && Inside(g, b) && Flows(b, g)
    requires Index(b.cx, b.cy, b.cols) < FlowRows(b, g) * b.cols
    ensures var r, i := RawPut(b, c, g), Index(b.cx, b.cy, b.cols);
      && i < |b.cells| && r == b.(cells := b.cells[i := Cell(c, b.fg, b.bg)], cx := r.cx, cy := r.cy)
      && Flows(r, g) && r.cx > 0 && Index(r.cx, r.cy, b.cols) == i + 1
  {
    hide RawPut;
    var m := FlowRows(b, g);
    FlowRowsBound(b, g);
    MulMono(m, b.rows, b.cols);
    if b.cx == b.cols {
      RowFollows(b.cy, m, b.cols);
    }
    PutPlain(b, c, g);
  }

  lemma FlowRowsBound(b: Backend, g: Region)
    requires Inside(g, b)
    ensures FlowRows(b, g) <= b.rows && FlowRows(b, g) <= g.bottom && FlowRows(b, g) <= b.cols
  {
  }

  lemma RowFollows(y: nat, m: nat, cols: nat)
    requires Index(cols, y, cols) < m * cols
    ensures y + 1 < m && Index(cols, y, cols) == Index(0, y + 1, cols)
  {
    Successor(y, cols);
    if m <= y + 1 {
      MulMono(m, y + 1, cols);
    }
  }

  /** A character in the line of the cursor, or at the start of the next. */
  lemma PutPlain(b: Backend, c: nat, g: Region)
    requires WellFormed(b) && b.cx <= b.cols && (b.cx == b.cols ==> b.cy + 1 < g.bottom && b.cy + 1 < b.cols)
    ensures var x, y := if b.cx < b.cols then b.cx else 0, if b.cx < b.cols then b.cy else b.cy + 1;
      RawPut(b, c, g) == SetCell(b, x, y, Cell(c, b.fg, b.bg)).(cx := x + 1, cy := y)
  {
    hide Scroll, Index;
  }

  /** Spaces blank as many cells in number order. */
  lemma {:induction false} SpacesFlow(b: Backend, n: nat, g: Region)
    requires WellFormed(b) && Inside(g, b) && Flows(b, g)
    requires Index(b.cx, b.cy, b.cols) + n <= FlowRows(b, g) * b.cols
    ensures var r, i := Spaces(b, n, g), Index(b.cx, b.cy, b.cols);
      && SameButCursor(r, Filled(b, i, i + n))
      && Flows(r, g) && (n > 0 ==> r.cx > 0) && Index(r.cx, r.cy, b.cols) == i + n
  {
    hide RawPut, Index, Flows;
    var i := Index(b.cx, b.cy, b.cols);
    if n == 0 {
      assert Filled(b, i, i).cells == b.cells;
    } else {
      var c := Spaces(b, n - 1, g);
      SpacesFlow(b, n - 1, g);
      PutFlows(c, 0x20, g);
      assert Filled(b, i, i + n).cells == c.cells[i + n - 1 := Blank(b)];
    }
  }

  /** In the row that wraps lead back to, once it is blank, spaces change nothing. */
  lemma {:induction false} SpacesLoop(b: Backend, n: nat, g: Region)
    requires WellFormed(b) && !g.scrolling && b.cy == b.cols - 1 < b.rows && RowBlank(b, b.cy, 0, b.cols)
    ensures SameButCursor(Spaces(b, n, g), b) && Spaces(b, n, g).cy == b.cy
  {
    hide Scroll;
    if n == 0 {
      assert Spaces(b, n, g) == b;
    } else {
      SpacesLoop(b, n - 1, g);
      var c := Spaces(b, n - 1, g);
      var x := if c.cx >= c.cols && c.cy + 1 < g.bottom then 0 else c.cx;
      if x < b.cols {
        IndexBound(x, b.cy, b.rows, b.cols);
        var i := Index(x, b.cy, b.cols);
        assert b.cells[i] == Blank(b);
        assert b.cells[i := Blank(b)] == b.cells;
      }
    }
  }

  /** Behind the last of the rows, spaces change nothing. */
  lemma SpacesBehind(b: Backend, n: nat, g: Region)
    requires WellFormed(b) && Inside(g, b) && !g.scrolling && b.cx >= b.cols && b.cy == FlowRows(b, g) - 1
    requires RowBlank(b, b.cy, 0, b.cols)
    ensures SameButCursor(Spaces(b, n, g), b)
  {
    hide Spaces, RowBlank;
    if g.bottom <= b.cols {
      SpacesOff(b, n, g);
    } else {
      SpacesLoop(b, n, g);
    }
  }

  /** So spaces blank the cells up to the end of these rows, however many more there are. */
  lemma SpacesToEnd(b: Backend, n: nat, g: Region)
    requires WellFormed(b) && Inside(g, b) && !g.scrolling && b.cx == 0 && b.cy < FlowRows(b, g)
    requires b.cy * b.cols + n >= FlowRows(b, g) * b.cols
    ensures SameButCursor(Spaces(b, n, g), Filled(b, b.cy * b.cols, FlowRows(b, g) * b.cols))
  {
    hide Spaces, Filled, RowBlank;
    var m := FlowRows(b, g);
    MulMono(b.cy, m, b.cols);
    var first := m * b.cols - b.cy * b.cols;
    SpacesFlow(b, first, g);
    SpacesMore(b, first, n - first, g);
    var c := Spaces(b, first, g);
    MulMono(b.cy + 1, m, b.cols);
    Successor(b.cy, b.cols);
    EndOfRows(c.cx, c.cy, m, b.cols);
    LastRowBlank(b, m);
    SameRowBlank(c, Filled(b, b.cy * b.cols, m * b.cols), m - 1);
    SpacesBehind(c, n - first, g);
  }

  lemma EndOfRows(x: nat, y: nat, m: nat, cols: nat)
    requires x <= cols && y < m && Index(x, y, cols) == m * cols && 0 < cols
    ensures x == cols && y == m - 1
  {
    if y < m - 1 {
      MulMono(y + 2, m, cols);
      assert false;
    }
    assert m * cols == (m - 1) * cols + cols;
  }

  lemma LastRowBlank(b: Backend, m: nat)
    requires WellFormed(b) && b.cy < m
    ensures RowBlank(Filled(b, b.cy * b.cols, m * b.cols), m - 1, 0, b.cols)
  {
    MulMono(b.cy, m - 1, b.cols);
    Successor(m - 1, b.cols);
    var d := Filled(b, b.cy * b.cols, m * b.cols);
    forall i | Index(0, m - 1, b.cols) <= i < Index(b.cols, m - 1, b.cols) && i < |d.cells|
      ensures d.cells[i] == Blank(d)
    {
      FilledAt(b, b.cy * b.cols, m * b.cols, i);
    }
  }

  lemma SameRowBlank(c: Backend, d: Backend, y: nat)
    requires WellFormed(c) && WellFormed(d) && SameButCursor(c, d) && RowBlank(d, y, 0, d.cols)
    ensures RowBlank(c, y, 0, c.cols)
  {
  }

  // ---------------------------------------------------------------- from the cursor to the end of the display

  /** What the spaces behind the line of the cursor blank: from the row that the wrap leads to up to the last of the
      rows, unless the line cannot wrap. */
  function Onward(b: Backend, g: Region): (r: Backend)
    requires WellFormed(b)
    ensures WellFormed(r) && r == b.(cells := r.cells)
  {
    if b.cy + 1 >= g.bottom then b else Filled(b, WrapRow(b) * b.cols, FlowRows(b, g) * b.cols)
  }

  /** The number of cells in the rows below row `y`. */
  function CellsBelow(rows: nat, cols: nat, y: nat): nat
    requires y < rows
  {
    (rows - (y + 1)) * cols
  }

  lemma SpacesOnward(b: Backend, n: nat, g: Region)
    requires WellFormed(b) && Inside(g, b) && !g.scrolling && b.cx >= b.cols && b.cy < b.rows
    requires n >= CellsBelow(b.rows, b.cols, b.cy)
    ensures SameButCursor(Spaces(b, n, g), Onward(b, g))
  {
    hide Spaces, Filled, RawPut, CellsBelow;
    if b.cy + 1 >= g.bottom {
      SpacesOff(b, n, g);
    } else {
      var w, m := WrapRow(b), FlowRows(b, g);
      var c := b.(cx := 0, cy := w);
      EnoughSpaces(b, g, n);
      WrapSame(b, g);
      SameSpaces(b, c, n, g);
      SpacesToEnd(c, n, g);
      FilledCursor(b, 0, w, w * b.cols, m * b.cols);
    }
  }

  lemma WrapSame(b: Backend, g: Region)
    requires WellFormed(b) && b.cx >= b.cols && b.cy + 1 < g.bottom
    ensures RawPut(b, 0x20, g) == RawPut(b.(cx := 0, cy := WrapRow(b)), 0x20, g)
  {
    hide Scroll;
  }

  lemma EnoughSpaces(b: Backend, g: Region, n: nat)
    requires WellFormed(b) && Inside(g, b) && b.cy + 1 < g.bottom && n >= CellsBelow(b.rows, b.cols, b.cy)
    ensures n > 0 && 0 <= WrapRow(b) < FlowRows(b, g) && WrapRow(b) * b.cols + n >= FlowRows(b, g) * b.cols
  {
    var w, m := WrapRow(b), FlowRows(b, g);
    MulMono(m - w, b.rows - (b.cy + 1), b.cols);
    MulMono(1, b.rows - (b.cy + 1), b.cols);
    MulSum(w, m - w, b.cols);
  }

  lemma MulSum(a: nat, d: nat, c: nat)
    ensures (a + d) * c == a * c + d * c
  {
  }

  /** If the first space leads to the same state, so do any number of them. */
  lemma SameSpaces(b: Backend, c: Backend, n: nat, g: Region)
    requires WellFormed(b) && WellFormed(c) && RawPut(b, 0x20, g) == RawPut(c, 0x20, g) && n > 0
    ensures Spaces(b, n, g) == Spaces(c, n, g)
  {
    hide Spaces, RawPut;
    SpacesOne(b, g);
    SpacesOne(c, g);
    SpacesMore(b, 1, n - 1, g);
    SpacesMore(c, 1, n - 1, g);
  }

  lemma FilledAt(b: Backend, lo: nat, hi: nat, k: nat)
    requires WellFormed(b) && k < |b.cells|
    ensures Filled(b, lo, hi).cells[k] == if lo <= k < hi then Blank(b) else b.cells[k]
  {
  }

  lemma FilledCursor(b: Backend, cx: nat, cy: nat, lo: nat, hi: nat)
    requires WellFormed(b)
    ensures Filled(b.(cx := cx, cy := cy), lo, hi) == Filled(b, lo, hi).(cx := cx, cy := cy)
  {
    var c := b.(cx := cx, cy := cy);
    forall k | 0 <= k < |b.cells| ensures Filled(c, lo, hi).cells[k] == Filled(b, lo, hi).cells[k] {
      FilledAt(b, lo, hi, k);
      FilledAt(c, lo, hi, k);
    }
  }

  /** What CSI J erases. */
  function ErasedBelow(b: Backend, g: Region): (r: Backend)
    requires WellFormed(b)
    ensures WellFormed(r) && r == b.(cells := r.cells)
  {
    if b.cy >= b.rows then b
    else if b.cx < b.cols then Onward(Blanked(b, b.cy, b.cx, b.cols), g)
    else Onward(b, g)
  }

  lemma BelowErased(b: Backend, g: Region, k: Context)
    requires WellFormed(b) && ContextOk(k) && k.rows == b.rows && k.cols == b.cols && Inside(g, b)
    ensures Apply(b, g, EraseDisplay(k, ViewOf(b), 0)) == SetCursor(ErasedBelow(b, g), CursorX(b), CursorY(b))
  {
    hide Apply, Spaces, Blanked, Onward, RawPut, Index, CellsBelow, EraseDisplay;
    var x, y, still := CursorX(b), CursorY(b), g.(scrolling := false);
    var rest := CellsBelow(b.rows, b.cols, y);
    var n := rest + (b.cols - x);
    BelowApplied(b, g, k);
    if b.cy >= b.rows {
      SpacesOff(b, n, still);
    } else if b.cx < b.cols {
      var c := Blanked(b, y, x, b.cols).(cx := b.cols);
      SpacesBlank(b, b.cols - x, still);
      SpacesMore(b, b.cols - x, rest, still);
      SpacesOnward(c, rest, still);
      StillOnward(c, g);
      OnwardCursor(Blanked(b, y, x, b.cols), b.cols, g);
    } else {
      SpacesOnward(b, n, still);
      StillOnward(b, g);
    }
  }

  lemma BelowApplied(b: Backend, g: Region, k: Context)
    requires WellFormed(b) && ContextOk(k) && k.rows == b.rows && k.cols == b.cols
    ensures var x, y := CursorX(b), CursorY(b);
      Apply(b, g, EraseDisplay(k, ViewOf(b), 0))
      == SetCursor(Spaces(b, CellsBelow(b.rows, b.cols, y) + (b.cols - x), g.(scrolling := false)), x, y)
  {
    hide Apply, Index, CellsBelow, Spaces, SetCursor;
    var x, y := CursorX(b), CursorY(b);
    BelowCount(b.rows, b.cols, x, y);
    EraseApplied(b, g, CellsBelow(b.rows, b.cols, y) + (b.cols - x), x, y);
  }

  lemma BelowCount(rows: nat, cols: nat, x: nat, y: nat)
    requires x < cols && y < rows
    ensures Index(cols - (x + 1), rows - (y + 1), cols) + 1 == CellsBelow(rows, cols, y) + (cols - x)
  {
  }

  lemma EraseApplied(b: Backend, g: Region, n: nat, x: nat, y: nat)
    requires WellFormed(b)
    ensures Apply(b, g, Erase(Stay, n, Go(x, y))) == SetCursor(Spaces(b, n, g.(scrolling := false)), x, y)
  {
    hide Spaces, SetCursor;
  }

  lemma StillOnward(b: Backend, g: Region)
    requires WellFormed(b)
    ensures Onward(b, g.(scrolling := false)) == Onward(b, g)
  {
    hide Filled;
  }

  lemma OnwardCursor(b: Backend, cx: nat, g: Region)
    requires WellFormed(b)
    ensures Onward(b.(cx := cx), g) == Onward(b, g).(cx := cx)
  {
    FilledCursor(b, cx, b.cy, WrapRow(b) * b.cols, FlowRows(b, g) * b.cols);
  }

  /** When CSI J erases what it should. From below the screen nothing is erased. With a line wrap pending the cell of
      the cursor is missed. From above the bottom margin, the rows from the margin on are missed, and from below it all
      rows but the first. On a screen with more rows than columns, the wrap can lead back to an earlier row or to the
      same one. What is missed or hit in this way must be blank already. */
  predicate BelowRight(b: Backend, g: Region)
    requires WellFormed(b)
  {
    var x, y, w := CursorX(b), CursorY(b), WrapRow(b);
    if b.cy >= b.rows then AllBlank(b, Index(x, y, b.cols), |b.cells|)
    else if y + 1 >= g.bottom then
      (b.cx < b.cols || IsBlank(b, x, y)) && AllBlank(b, (y + 1) * b.cols, |b.cells|)
    else if w == y + 1 then
      (b.cx < b.cols || IsBlank(b, x, y)) && AllBlank(b, FlowRows(b, g) * b.cols, |b.cells|)
    else if w == y then
      RowBlank(b, y, 0, x) && AllBlank(b, (y + 1) * b.cols, |b.cells|)
    else
      && (b.cx < b.cols || IsBlank(b, x, y)) && AllBlank(b, (y + 1) * b.cols, |b.cells|)
      && RowBlank(b, w, 0, b.cols)
  }

  /** CSI J erases the display from the cursor on if and only if `BelowRight`. */
  lemma EraseBelowExact(b: Backend, g: Region, k: Context)
    requires WellFormed(b) && ContextOk(k) && k.rows == b.rows && k.cols == b.cols && Inside(g, b)
    ensures var x, y := CursorX(b), CursorY(b);
      Apply(b, g, EraseDisplay(k, ViewOf(b), 0)) == SetCursor(Filled(b, Index(x, y, b.cols), |b.cells|), x, y)
      <==> BelowRight(b, g)
  {
    hide Apply, EraseDisplay, Index, ErasedBelow, Filled, BelowRight;
    BelowErased(b, g, k);
    BelowCells(b, g);
    var c, want := ErasedBelow(b, g).cells, Filled(b, Index(CursorX(b), CursorY(b), b.cols), |b.cells|).cells;
    forall i | 0 <= i < |b.cells| ensures c[i] == want[i] <==> BelowCell(b, g, i) {
      BelowAt(b, g, i);
      FilledAt(b, Index(CursorX(b), CursorY(b), b.cols), |b.cells|, i);
    }
    if forall i: nat :: i < |b.cells| ==> BelowCell(b, g, i) {
      assert c == want;
    }
  }

  /** CSI J blanks cell `i`. */
  predicate BelowHit(b: Backend, g: Region, i: nat)
    requires WellFormed(b)
  {
    var x, y, w := CursorX(b), CursorY(b), WrapRow(b);
    && b.cy < b.rows
    && (|| (b.cx < b.cols && Index(x, y, b.cols) <= i < Index(b.cols, y, b.cols))
        || (y + 1 < g.bottom && w * b.cols <= i < FlowRows(b, g) * b.cols))
  }

  lemma BelowAt(b: Backend, g: Region, i: nat)
    requires WellFormed(b) && i < |b.cells|
    ensures ErasedBelow(b, g).cells[i] == if BelowHit(b, g, i) then Blank(b) else b.cells[i]
  {
    hide Filled, Index, Blanked;
    if b.cy < b.rows {
      var c := if b.cx < b.cols then Blanked(b, b.cy, b.cx, b.cols) else b;
      assert WrapRow(c) == WrapRow(b) && FlowRows(c, g) == FlowRows(b, g);
      hide WrapRow, FlowRows;
      BlankedAt(b, b.cy, b.cx, b.cols, i);
      FilledAt(c, WrapRow(b) * b.cols, FlowRows(b, g) * b.cols, i);
    }
  }

  /** Cell `i` is blank if it is missed or hit against the intention. */
  predicate BelowCell(b: Backend, g: Region, i: nat)
    requires WellFormed(b)
  {
    BelowHit(b, g, i) != (Index(CursorX(b), CursorY(b), b.cols) <= i) && i < |b.cells| ==> b.cells[i] == Blank(b)
  }

  /** The same with the two ranges that are hit as numbers: from `here` up to `end` unless a wrap is pending, and from
      `lo` up to `hi` if the line wraps. */
  predicate GapCell(b: Backend, pending: bool, here: nat, end: nat, wraps: bool, lo: nat, hi: nat, i: nat) {
    GapHit(pending, here, end, wraps, lo, hi, i) != (here <= i) && i < |b.cells| ==> b.cells[i] == Blank(b)
  }

  predicate GapHit(pending: bool, here: nat, end: nat, wraps: bool, lo: nat, hi: nat, i: nat) {
    (!pending && here <= i < end) || (wraps && lo <= i < hi)
  }

  predicate GapsBlank(b: Backend, pending: bool, here: nat, end: nat, wraps: bool, lo: nat, hi: nat) {
    if wraps && lo < end == hi then AllBlank(b, lo, here) && AllBlank(b, end, |b.cells|)
    else
      && (pending ==> AllBlank(b, here, end))
      && AllBlank(b, if wraps && lo == end then hi else end, |b.cells|)
      && (wraps && lo < end ==> AllBlank(b, lo, hi))
  }

  lemma Gaps(b: Backend, pending: bool, here: nat, end: nat, wraps: bool, lo: nat, hi: nat)
    requires here < end && (wraps ==> (lo == end <= hi) || (lo <= here && hi == end) || lo <= hi <= here)
    ensures GapsBlank(b, pending, here, end, wraps, lo, hi)
            <==> forall i: nat :: i < |b.cells| ==> GapCell(b, pending, here, end, wraps, lo, hi, i)
  {
    if forall i: nat :: i < |b.cells| ==> GapCell(b, pending, here, end, wraps, lo, hi, i) {
      forall i: nat | i < |b.cells| && GapHit(pending, here, end, wraps, lo, hi, i) != (here <= i)
        ensures b.cells[i] == Blank(b)
      {
        assert GapCell(b, pending, here, end, wraps, lo, hi, i);
      }
    }
  }

  lemma BelowCells(b: Backend, g: Region)
    requires WellFormed(b) && Inside(g, b)
    ensures BelowRight(b, g) <==> forall i: nat :: i < |b.cells| ==> BelowCell(b, g, i)
  {
    hide BelowRight, BelowCell, GapCell, GapsBlank, Index;
    var x, y, w, m := CursorX(b), CursorY(b), WrapRow(b), FlowRows(b, g);
    var here, end := Index(x, y, b.cols), Index(b.cols, y, b.cols);
    if b.cy >= b.rows {
      IndexBound(x, y, b.rows, b.cols);
      Gaps(b, true, here, |b.cells|, false, 0, 0);
      OffRight(b, g);
      forall i: nat ensures BelowCell(b, g, i) <==> GapCell(b, true, here, |b.cells|, false, 0, 0, i) {
        OffGap(b, g, i);
      }
    } else {
      var pending, wraps, lo, hi := b.cx >= b.cols, y + 1 < g.bottom, w * b.cols, m * b.cols;
      BelowNumbers(b, g);
      Gaps(b, pending, here, end, wraps, lo, hi);
      RightGaps(b, g);
      forall i: nat ensures BelowCell(b, g, i) <==> GapCell(b, pending, here, end, wraps, lo, hi, i) {
        CellGap(b, g, i);
      }
    }
  }

  lemma OffRight(b: Backend, g: Region)
    requires WellFormed(b) && b.cy >= b.rows
    ensures var here := Index(CursorX(b), CursorY(b), b.cols);
      BelowRight(b, g) <==> GapsBlank(b, true, here, |b.cells|, false, 0, 0)
  {
    hide Index;
  }

  lemma OffGap(b: Backend, g: Region, i: nat)
    requires WellFormed(b) && b.cy >= b.rows
    ensures BelowCell(b, g, i)
            <==> GapCell(b, true, Index(CursorX(b), CursorY(b), b.cols), |b.cells|, false, 0, 0, i)
  {
    hide Index;
  }

  lemma CellGap(b: Backend, g: Region, i: nat)
    requires WellFormed(b) && b.cy < b.rows
    ensures var x, y := CursorX(b), CursorY(b);
      BelowCell(b, g, i)
      <==> GapCell(b, b.cx >= b.cols, Index(x, y, b.cols), Index(b.cols, y, b.cols), y + 1 < g.bottom,
                   WrapRow(b) * b.cols, FlowRows(b, g) * b.cols, i)
  {
    hide Index;
  }

  lemma RightGaps(b: Backend, g: Region)
    requires WellFormed(b) && Inside(g, b) && b.cy < b.rows
    ensures var x, y := CursorX(b), CursorY(b);
      BelowRight(b, g)
      <==> GapsBlank(b, b.cx >= b.cols, Index(x, y, b.cols), Index(b.cols, y, b.cols), y + 1 < g.bottom,
                     WrapRow(b) * b.cols, FlowRows(b, g) * b.cols)
  {
    hide Index, AllBlank, IsBlank;
    BelowNumbers(b, g);
    if b.cx >= b.cols {
      LastBlank(b);
    }
  }

  /** How the ranges lie. */
  lemma BelowNumbers(b: Backend, g: Region)
    requires WellFormed(b) && Inside(g, b) && b.cy < b.rows
    ensures var x, y, w, m := CursorX(b), CursorY(b), WrapRow(b), FlowRows(b, g);
      var here, end := Index(x, y, b.cols), Index(b.cols, y, b.cols);
      && here < end == (y + 1) * b.cols
      && (w == y + 1 ==> w * b.cols == end) && (w <= y ==> w * b.cols < end)
      && (y + 1 < g.bottom ==>
            && (w == y + 1 ==> end <= m * b.cols)
            && (w == y ==> w * b.cols == Index(0, y, b.cols) <= here && m * b.cols == end)
            && (w < y ==> m * b.cols == Index(b.cols, w, b.cols) <= here && w * b.cols == Index(0, w, b.cols)))
  {
    var y, w := b.cy, WrapRow(b);
    Successor(y, b.cols);
    Successor(w, b.cols);
    RowsApart(w, y, b.cols);
    if y + 1 < g.bottom && w == y + 1 {
      MulMono(w, FlowRows(b, g), b.cols);
    }
  }

  lemma LastBlank(b: Backend)
    requires WellFormed(b) && b.cx >= b.cols && b.cy < b.rows
    ensures IsBlank(b, b.cols - 1, b.cy) <==> RowBlank(b, b.cy, b.cols - 1, b.cols)
  {
    IndexBound(b.cols - 1, b.cy, b.rows, b.cols);
  }

  /** From above the bottom margin of a screen with at least as many columns as rows, the rows below the margin stay. */
  lemma EraseBelowMisses(b: Backend, g: Region, k: Context, i: nat)
    requires WellFormed(b) && ContextOk(k) && k.rows == b.rows && k.cols == b.cols && b.rows <= b.cols
    requires b.cx < b.cols && b.cy < g.bottom < b.rows && g.bottom * b.cols <= i < |b.cells| && b.cells[i] != Blank(b)
    ensures Apply(b, g, EraseDisplay(k, ViewOf(b), 0)).cells[i] == b.cells[i] && !BelowRight(b, g)
  {
    hide Apply, EraseDisplay, Index, ErasedBelow;
    BelowErased(b, g, k);
    BelowAt(b, g, i);
    BelowNumbers(b, g);
    MulMono(b.cy + 1, g.bottom, b.cols);
  }

  // ---------------------------------------------------------------- from the start of the display to the cursor

  /** CSI 1 J erases the display up to the cell of the cursor if and only if the cells among them that lie below the
      bottom margin, or below as many rows as there are columns, are blank already. */
  lemma EraseAboveExact(b: Backend, g: Region, k: Context)
    requires WellFormed(b) && ContextOk(k) && k.rows == b.rows && k.cols == b.cols && Inside(g, b)
    ensures var x, y := CursorX(b), CursorY(b); var to := Index(x, y, b.cols) + 1;
      Apply(b, g, EraseDisplay(k, ViewOf(b), 1)) == SetCursor(Filled(b, 0, to), x, y)
      <==> AllBlank(b, FlowRows(b, g) * b.cols, to)
  {
    hide Apply, Index, Filled, Spaces, AllBlank;
    var x, y, still := CursorX(b), CursorY(b), g.(scrolling := false);
    var to, end, c := Index(x, y, b.cols) + 1, FlowRows(b, g) * b.cols, b.(cx := 0, cy := 0);
    AboveApplied(b, g, k);
    FilledCursor(b, 0, 0, 0, to);
    FilledCursor(b, 0, 0, 0, end);
    assert Index(0, 0, b.cols) == 0 by { Origin(b.cols); }
    if to <= end {
      SpacesFlow(c, to, still);
      NothingBetween(b, end, to);
    } else {
      SpacesToEnd(c, to, still);
      FilledSplit(b, 0, end, to);
    }
  }

  lemma Origin(cols: nat)
    ensures Index(0, 0, cols) == 0
  {
  }

  lemma NothingBetween(b: Backend, lo: nat, hi: nat)
    requires hi <= lo
    ensures AllBlank(b, lo, hi)
  {
  }

  lemma AboveApplied(b: Backend, g: Region, k: Context)
    requires WellFormed(b) && ContextOk(k) && k.rows == b.rows && k.cols == b.cols
    ensures var x, y := CursorX(b), CursorY(b);
      Apply(b, g, EraseDisplay(k, ViewOf(b), 1))
      == SetCursor(Spaces(b.(cx := 0, cy := 0), Index(x, y, b.cols) + 1, g.(scrolling := false)), x, y)
  {
    hide Spaces, Index;
  }

  lemma FilledSplit(b: Backend, lo: nat, mid: nat, hi: nat)
    requires WellFormed(b) && lo <= mid <= hi
    ensures Filled(b, lo, mid).cells == Filled(b, lo, hi).cells <==> AllBlank(b, mid, hi)
  {
    var c, want := Filled(b, lo, mid).cells, Filled(b, lo, hi).cells;
    if AllBlank(b, mid, hi) {
      assert c == want;
    } else {
      var i :| mid <= i < hi && i < |b.cells| && b.cells[i] != Blank(b);
      FilledAt(b, lo, mid, i);
      FilledAt(b, lo, hi, i);
    }
  }

  /** Without margins, on a screen with at least as many columns as rows and with no line wrap pending, both erase
      exactly what they should. */
  lemma EraseDisplayPlain(b: Backend, g: Region, k: Context)
    requires WellFormed(b) && ContextOk(k) && k.rows == b.rows && k.cols == b.cols
    requires g.bottom == b.rows <= b.cols && b.cx < b.cols && b.cy < b.rows
    ensures var x, y := b.cx, b.cy; var here := Index(x, y, b.cols);
      && Apply(b, g, EraseDisplay(k, ViewOf(b), 0)) == SetCursor(Filled(b, here, |b.cells|), x, y)
      && Apply(b, g, EraseDisplay(k, ViewOf(b), 1)) == SetCursor(Filled(b, 0, here + 1), x, y)
  {
    hide Apply, EraseDisplay, Filled;
    EraseBelowExact(b, g, k);
    EraseAboveExact(b, g, k);
    IndexBound(b.cx, b.cy, b.rows, b.cols);
  }
}
