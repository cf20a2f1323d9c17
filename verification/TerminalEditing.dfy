/** What the editing sequences do to the screen, and exactly when that is what they should do. */
module TerminalEditing {
  import opened Arithmetic
  import opened ScreenModel
  import opened TerminalModel
  import opened TerminalActions

  // ---------------------------------------------------------------- inserting and deleting characters

  /** What inserting `n` blanks should do: all cells of the row from `x` on move right by `n`. */
  function Inserted(b: Backend, x: nat, y: nat, n: nat): (r: Backend)
    requires WellFormed(b)
    ensures WellFormed(r) && r == b.(cells := r.cells)
  {
    var first, last := Index(x, y, b.cols), Index(b.cols, y, b.cols);
    b.(cells := seq(|b.cells|, k requires 0 <= k < |b.cells| =>
      if k < first || last <= k then b.cells[k] else if first + n <= k then b.cells[k - n] else Blank(b)))
  }

  /** CSI @ does that exactly if the count is not zero or there is nothing but blanks to lose. */
  lemma InsertExact(b: Backend, x: nat, y: nat, n: nat)
    requires WellFormed(b)
    ensures OpenGap(b, x, y, n) == Inserted(b, x, y, n) <==> n > 0 || Blanked(b, y, x, b.cols) == b
  {
    if n > 0 {
      assert OpenGap(b, x, y, n).cells == Inserted(b, x, y, n).cells;
    } else {
      assert OpenGap(b, x, y, 0).cells == Blanked(b, y, x, b.cols).cells;
      assert Inserted(b, x, y, 0).cells == b.cells;
    }
  }

  /** With a count of zero, CSI @ blanks a line that should not change. */
  lemma InsertZeroErases(b: Backend)
    requires WellFormed(b) && b.cells[0] != Blank(b)
    ensures OpenGap(b, 0, 0, 0) != Inserted(b, 0, 0, 0)
  {
    InsertExact(b, 0, 0, 0);
    IndexBound(0, 0, b.rows, b.cols);
    assert Blanked(b, 0, 0, b.cols).cells[0] == Blank(b);
  }

  /** What deleting `n` characters should do: the cells of the row move left, and blanks follow. */
  function Deleted(b: Backend, x: nat, y: nat, n: nat): (r: Backend)
    requires WellFormed(b)
    ensures WellFormed(r) && r == b.(cells := r.cells)
  {
    var first, last := Index(x, y, b.cols), Index(b.cols, y, b.cols);
    b.(cells := seq(|b.cells|, k requires 0 <= k < |b.cells| =>
      if k < first || last <= k then b.cells[k]
      else if k + n < last && k + n < |b.cells| then b.cells[k + n] else Blank(b)))
  }

  /** Spaces within a line fill it from the cursor on, and the cursor follows. */
  lemma {:induction false} SpacesFill(b: Backend, n: nat, g: Region)
    requires WellFormed(b) && b.cy < b.rows && b.cx + n <= b.cols
    ensures var r := Spaces(b, n, g);
      && r == b.(cells := r.cells, cx := b.cx + n)
      && forall k :: 0 <= k < |b.cells| ==>
        r.cells[k] == if Index(b.cx, b.cy, b.cols) <= k < Index(b.cx, b.cy, b.cols) + n then Blank(b) else b.cells[k]
  {
    if n == 0 {
    } else {
      SpacesFill(b, n - 1, g);
      IndexBound(b.cx + n - 1, b.cy, b.rows, b.cols);
    }
  }

  /** CSI P does that whenever at least that many characters are left in the line. */
  lemma DeleteWithin(b: Backend, g: Region, n: nat)
    requires WellFormed(b) && CursorX(b) + n <= b.cols < WORD
    ensures Apply(b, g, DeleteChars(n)) == SetCursor(Deleted(b, CursorX(b), CursorY(b), n), CursorX(b), CursorY(b))
  {
    hide ShiftLeft, Deleted, Spaces, RawPut, NegativeInt, Index;
    var x, y := CursorX(b), CursorY(b);
    assert (b.cols - n) % WORD == b.cols - n;
    DeleteFills(b, g.(scrolling := false), x, y, n);
  }

  lemma DeleteFills(b: Backend, g: Region, x: nat, y: nat, n: nat)
    requires WellFormed(b) && x + n <= b.cols && x < b.cols && y < b.rows
    ensures var b2 := SetCursor(ShiftLeft(b, x, y, n, b.cols), b.cols - n, y);
      SameButCursor(Spaces(b2, n, g), Deleted(b, x, y, n))
  {
    hide ShiftLeft, Deleted, RawPut;
    var b1 := ShiftLeft(b, x, y, n, b.cols);
    var b2 := SetCursor(b1, b.cols - n, y);
    DeletedCells(b, b1, x, y, n);
    if n > 0 {
      SpacesFill(b2, n, g);
      assert Spaces(b2, n, g).cells == Deleted(b, x, y, n).cells;
    }
  }

  lemma DeletedCells(b: Backend, b1: Backend, x: nat, y: nat, n: nat)
    requires WellFormed(b) && x + n <= b.cols && y < b.rows && b1 == ShiftLeft(b, x, y, n, b.cols)
    ensures Index(b.cols, y, b.cols) <= |b.cells| && (n == 0 ==> b1.cells == Deleted(b, x, y, n).cells)
    ensures forall k :: 0 <= k < |b.cells| ==>
      Deleted(b, x, y, n).cells[k] == if Index(b.cols - n, y, b.cols) <= k < Index(b.cols, y, b.cols) then Blank(b)
                                      else b1.cells[k]
  {
    IndexBound(b.cols - 1, y, b.rows, b.cols);
  }

  // ---------------------------------------------------------------- erasing

  lemma SpacesBlank(b: Backend, n: nat, g: Region)
    requires WellFormed(b) && b.cy < b.rows && b.cx + n <= b.cols
    ensures Spaces(b, n, g) == Blanked(b, b.cy, b.cx, b.cx + n).(cx := b.cx + n)
  {
    SpacesFill(b, n, g);
    assert Spaces(b, n, g).cells == Blanked(b, b.cy, b.cx, b.cx + n).cells;
  }

  /** The row that a pending line wrap leads to without scrolling. */
  function WrapRow(b: Backend): nat
    requires b.cols > 0
  {
    if b.cy + 1 >= b.cols then b.cols - 1 else b.cy + 1
  }

  predicate IsBlank(b: Backend, x: nat, y: nat)
    requires WellFormed(b)
  {
    x < b.cols && y < b.rows && At(b, x, y) == Blank(b)
  }

  /** The cells from number `lo` up to number `hi` are blank already. */
  predicate AllBlank(b: Backend, lo: nat, hi: nat) {
    forall i :: lo <= i < hi && i < |b.cells| ==> b.cells[i] == Blank(b)
  }

  /** The cells of row `y` from column `from` up to column `to` are blank already. */
  predicate RowBlank(b: Backend, y: nat, from: nat, to: nat)
    requires WellFormed(b)
  {
    AllBlank(b, Index(from, y, b.cols), Index(to, y, b.cols))
  }

  lemma BlankedSame(b: Backend, y: nat, from: nat, to: nat)
    requires WellFormed(b)
    ensures Blanked(b, y, from, to).cells == b.cells <==> RowBlank(b, y, from, to)
  {
    FilledSame(b, Index(from, y, b.cols), Index(to, y, b.cols));
  }

  lemma FilledSame(b: Backend, lo: nat, hi: nat)
    requires WellFormed(b)
    ensures Filled(b, lo, hi).cells == b.cells <==> AllBlank(b, lo, hi)
  {
    if AllBlank(b, lo, hi) {
      assert Filled(b, lo, hi).cells == b.cells;
    } else {
      var i :| lo <= i < hi && i < |b.cells| && b.cells[i] != Blank(b);
      assert Filled(b, lo, hi).cells[i] == Blank(b);
    }
  }

  /** When CSI K erases what it should: the cursor is on the screen with no line wrap pending; or the cell that is
      missed and the cell that is hit instead are blank anyway, or are the same cell; or, below the screen, the line is
      blank. */
  predicate ErasesRight(b: Backend, g: Region)
    requires WellFormed(b)
  {
    if b.cy >= b.rows then RowBlank(b, CursorY(b), CursorX(b), b.cols)
    else if b.cx < b.cols then true
    else if b.cy + 1 >= g.bottom then IsBlank(b, b.cols - 1, b.cy)
    else
      || (IsBlank(b, b.cols - 1, b.cy) && IsBlank(b, 0, WrapRow(b)))
      || (b.cols == 1 && WrapRow(b) == b.cy)
  }

  /** CSI K erases the line from the cursor on if and only if `ErasesRight`; CSI 1 K always erases it before the cursor,
      and CSI 2 K all of it. The cursor stays, but for a pending line wrap. */
  lemma EraseLineExact(b: Backend, g: Region, k: Context, p: nat)
    requires WellFormed(b) && ContextOk(k) && k.rows == b.rows && k.cols == b.cols && Inside(g, b) && p <= 2
    ensures var x, y := CursorX(b), CursorY(b);
      Apply(b, g, EraseLine(k, ViewOf(b), p))
      == SetCursor(Blanked(b, y, if p == 0 then x else 0, if p == 1 then x else b.cols), x, y)
      <==> (p == 0 ==> ErasesRight(b, g))
  {
    hide Spaces, Blanked, Index, RawPut, AllBlank;
    var x, y, still := CursorX(b), CursorY(b), g.(scrolling := false);
    if p != 0 {
      SpacesBlank(SetCursor(b, 0, y), if p == 1 then x else b.cols, still);
      BlankedCursor(b, 0, y, y, 0, if p == 1 then x else b.cols);
    } else if b.cy >= b.rows {
      SpacesOff(b, b.cols - x, still);
      BlankedSame(b, y, x, b.cols);
    } else if b.cx < b.cols {
      SpacesBlank(b, b.cols - x, still);
    } else {
      ErasePending(b, still);
    }
  }

  /** CSI 1 K should erase the cell of the cursor as well, and does exactly if that cell is blank already. */
  lemma EraseLineThroughExact(b: Backend, g: Region, k: Context)
    requires WellFormed(b) && ContextOk(k) && k.rows == b.rows && k.cols == b.cols && Inside(g, b)
    ensures var x, y := CursorX(b), CursorY(b);
      Apply(b, g, EraseLine(k, ViewOf(b), 1)) == SetCursor(Blanked(b, y, 0, x + 1), x, y) <==> IsBlank(b, x, y)
  {
    hide Apply, Blanked, Index;
    var x, y := CursorX(b), CursorY(b);
    EraseLineExact(b, g, k, 1);
    BlankedSplit(b, y, 0, x, x + 1);
    BlankedOne(b, x, y);
  }

  lemma BlankedOne(b: Backend, x: nat, y: nat)
    requires WellFormed(b) && x < b.cols && y < b.rows
    ensures Blanked(b, y, 0, x).cells == Blanked(b, y, 0, x + 1).cells <==> IsBlank(b, x, y)
  {
    IndexBound(x, y, b.rows, b.cols);
    var i := Index(x, y, b.cols);
    assert Blanked(b, y, 0, x + 1).cells == Blanked(b, y, 0, x).cells[i := Blank(b)];
    assert Blanked(b, y, 0, x).cells[i] == b.cells[i];
  }

  /** Off the screen nothing is printed. */
  lemma {:induction false} SpacesOff(b: Backend, n: nat, g: Region)
    requires WellFormed(b) && !g.scrolling && b.cy + 1 >= g.bottom && (b.cy >= b.rows || b.cx >= b.cols)
    ensures Spaces(b, n, g) == b.(cx := b.cx + n)
  {
    if n == 0 {
      assert Spaces(b, n, g) == b;
    } else {
      SpacesOff(b, n - 1, g);
    }
  }

  /** One space with a line wrap pending. */
  lemma ErasePending(b: Backend, g: Region)
    requires WellFormed(b) && Inside(g, b) && !g.scrolling && b.cx >= b.cols && b.cy < b.rows
    ensures Spaces(b, 1, g).cells == Blanked(b, b.cy, b.cols - 1, b.cols).cells <==> ErasesRight(b, g)
    ensures SameButCursor(Spaces(b, 1, g), b.(cells := Spaces(b, 1, g).cells))
  {
    var r := Spaces(b, 1, g);
    assert Spaces(b, 0, g) == b;
    assert r == RawPut(b, 0x20, g);
    var last := Index(b.cols - 1, b.cy, b.cols);
    IndexBound(b.cols - 1, b.cy, b.rows, b.cols);
    assert Blanked(b, b.cy, b.cols - 1, b.cols).cells == b.cells[last := Blank(b)];
    if b.cy + 1 < g.bottom {
      var first := Index(0, WrapRow(b), b.cols);
      IndexBound(0, WrapRow(b), b.rows, b.cols);
      assert r.cells == b.cells[first := Blank(b)];
      if first == last {
        IndexInjective(0, WrapRow(b), b.cols - 1, b.cy, b.cols);
      }
      TwoUpdates(b.cells, first, last, Blank(b));
    } else {
      assert r.cells == b.cells;
    }
  }

  lemma TwoUpdates(s: seq<Cell>, i: nat, j: nat, c: Cell)
    requires i < |s| && j < |s|
    ensures s[i := c] == s[j := c] <==> i == j || (s[i] == c && s[j] == c)
  {
    if i != j && s[i := c] == s[j := c] {
      assert s[i := c][i] == s[j := c][i] && s[i := c][j] == s[j := c][j];
    }
  }

  /** With a line wrap pending above the bottom margin, CSI K erases the first cell of the next line instead. */
  lemma EraseLinePending(b: Backend, g: Region, k: Context)
    requires WellFormed(b) && ContextOk(k) && k.rows == b.rows && k.cols == b.cols && b.cx >= b.cols
    requires b.cy + 1 < g.bottom <= b.rows && b.cy + 1 < b.cols
    ensures Apply(b, g, EraseLine(k, ViewOf(b), 0)).cells == SetCell(b, 0, b.cy + 1, Blank(b)).cells
  {
    var still := g.(scrolling := false);
    assert Spaces(b, 0, still) == b;
    assert Spaces(b, 1, still) == RawPut(b, 0x20, still);
  }

  lemma BlankedAt(b: Backend, y: nat, from: nat, to: nat, k: nat)
    requires WellFormed(b) && k < |b.cells|
    ensures Blanked(b, y, from, to).cells[k]
            == if Index(from, y, b.cols) <= k < Index(to, y, b.cols) then Blank(b) else b.cells[k]
  {
  }

  /** Blanking does not depend on the cursor. */
  lemma BlankedCursor(b: Backend, cx: nat, cy: nat, y: nat, from: nat, to: nat)
    requires WellFormed(b)
    ensures Blanked(b.(cx := cx, cy := cy), y, from, to) == Blanked(b, y, from, to).(cx := cx, cy := cy)
  {
    var c := b.(cx := cx, cy := cy);
    forall k | 0 <= k < |b.cells| ensures Blanked(c, y, from, to).cells[k] == Blanked(b, y, from, to).cells[k] {
      BlankedAt(b, y, from, to, k);
      BlankedAt(c, y, from, to, k);
    }
  }

  // ---------------------------------------------------------------- deleting more than there is

  lemma {:induction false} SpacesMore(b: Backend, m: nat, n: nat, g: Region)
    requires WellFormed(b)
    ensures Spaces(b, m + n, g) == Spaces(Spaces(b, m, g), n, g)
  {
    hide RawPut;
    if n == 0 {
      assert m + n == m;
    } else {
      SpacesMore(b, m, n - 1, g);
    }
  }

  lemma SpacesOne(b: Backend, g: Region)
    requires WellFormed(b)
    ensures Spaces(b, 1, g) == RawPut(b, 0x20, g)
  {
    assert Spaces(b, 0, g) == b;
  }

  /** A pending line wrap above the bottom margin, and then spaces in the next line. */
  lemma SpacesWrapped(b: Backend, n: nat, g: Region)
    requires WellFormed(b) && Inside(g, b) && !g.scrolling && b.cx >= b.cols && b.cy + 1 < g.bottom && 0 < n <= b.cols
    ensures SameButCursor(Spaces(b, n, g), Blanked(b, WrapRow(b), 0, n))
  {
    hide Spaces, Blanked, Scroll;
    var c := b.(cx := 0, cy := WrapRow(b));
    assert RawPut(b, 0x20, g) == RawPut(c, 0x20, g);
    hide RawPut;
    SpacesOne(b, g);
    SpacesOne(c, g);
    SpacesMore(b, 1, n - 1, g);
    SpacesMore(c, 1, n - 1, g);
    SpacesBlank(c, n, g);
    BlankedCursor(b, 0, WrapRow(b), WrapRow(b), 0, n);
  }

  lemma BlankedSplit(b: Backend, y: nat, m: nat, x: nat, to: nat)
    requires WellFormed(b) && m <= x <= to
    ensures Blanked(b, y, m, to).cells == Blanked(b, y, x, to).cells <==> RowBlank(b, y, m, x)
  {
    BlankedSame(b, y, m, x);
    var p, q, r := Blanked(b, y, m, to).cells, Blanked(b, y, x, to).cells, Blanked(b, y, m, x).cells;
    hide Blanked;
    forall k | 0 <= k < |b.cells| ensures p[k] == q[k] <==> r[k] == b.cells[k] {
      BlankedAt(b, y, m, to, k);
      BlankedAt(b, y, x, to, k);
      BlankedAt(b, y, m, x, k);
    }
    if p == q {
      assert r == b.cells;
    }
    if r == b.cells {
      assert p == q;
    }
  }

  /** Where the erasing of CSI P starts, with the position computed in 64 bits and tested as an int. */
  function EraseStart(cols: nat, n: nat): (x: nat)
    requires cols > 0
    ensures x < cols
  {
    Clamp((cols - n) % WORD, cols)
  }

  lemma EraseStarts(cols: nat, n: nat)
    requires 0 < cols < n < UINT
    ensures EraseStart(cols, n) == if n - cols <= UINT / 2 then 0 else cols - 1
  {
    assert (cols - n) % WORD == WORD - (n - cols);
    assert (WORD - (n - cols)) % UINT == UINT - (n - cols);
  }

  lemma EraseStartsNear(cols: nat, n: nat)
    requires 0 < n <= cols < WORD
    ensures EraseStart(cols, n) == cols - n
  {
    assert (cols - n) % WORD == cols - n;
  }

  /** When a count above the rest of the line is no problem: the characters before the cursor that are erased as well
      are blank. For counts so large that the position before the line is taken for one behind it, only the last cell is
      erased, and then all but the last cell of the line that it wraps to: what is missed and what is hit must be blank,
      unless the two lines are one. */
  predicate DeletesRight(b: Backend, g: Region, n: nat)
    requires WellFormed(b)
  {
    var x, y := CursorX(b), CursorY(b);
    if x + n <= b.cols then true
    else if n <= b.cols then RowBlank(b, y, b.cols - n, x)
    else if n - b.cols <= UINT / 2 then RowBlank(b, y, 0, x)
    else FarRight(b, g, x, y)
  }

  predicate FarRight(b: Backend, g: Region, x: nat, y: nat)
    requires WellFormed(b)
  {
    var w := WrapRow(b.(cy := y));
    if y + 1 >= g.bottom || b.cols == 1 then RowBlank(b, y, x, b.cols - 1)
    else if w != y then RowBlank(b, y, x, b.cols - 1) && RowBlank(b, w, 0, b.cols - 1)
    else RowBlank(b, y, 0, x)
  }

  /** The last cell of the line and, if the line can wrap, all but the last cell of the next one. */
  function OverErased(b: Backend, g: Region, y: nat): (r: Backend)
    requires WellFormed(b) && y < b.rows
    ensures WellFormed(r) && r == b.(cells := r.cells)
  {
    var b1 := Blanked(b, y, b.cols - 1, b.cols);
    if y + 1 < g.bottom && b.cols > 1 then Blanked(b1, WrapRow(b.(cy := y)), 0, b.cols - 1) else b1
  }

  /** CSI P moves the rest of the line left and leaves blanks if and only if `DeletesRight`. */
  lemma DeleteExact(b: Backend, g: Region, n: nat)
    requires WellFormed(b) && Inside(g, b) && n < UINT && b.cols < WORD
    ensures var x, y := CursorX(b), CursorY(b);
      Apply(b, g, DeleteChars(n)) == SetCursor(Deleted(b, x, y, n), x, y) <==> DeletesRight(b, g, n)
  {
    var x, y, still := CursorX(b), CursorY(b), g.(scrolling := false);
    if x + n <= b.cols {
      DeleteWithin(b, g, n);
    } else {
      hide Apply, Spaces, Blanked, Index, RawPut, ShiftLeft, Deleted, OverErased, Clamp, EraseStart, DeletesRight;
      DeletedAll(b, x, y, n);
      DeleteApplied(b, g, n);
      DeleteOver(b, still, x, y, n);
      StillDeletes(b, g, n);
    }
  }

  /** A count beyond the end of the line erases the character before the cursor. */
  lemma DeleteErasesBefore(b: Backend, g: Region, n: nat)
    requires WellFormed(b) && Inside(g, b) && b.cols < WORD && 0 < CursorX(b) && CursorX(b) + n > b.cols
    requires n <= b.cols + UINT / 2 && n < UINT && At(b, CursorX(b) - 1, CursorY(b)) != Blank(b)
    ensures var x, y := CursorX(b), CursorY(b);
      Apply(b, g, DeleteChars(n)) != SetCursor(Deleted(b, x, y, n), x, y)
  {
    hide Apply, Deleted;
    DeleteExact(b, g, n);
    IndexBound(CursorX(b) - 1, CursorY(b), b.rows, b.cols);
  }

  lemma StillDeletes(b: Backend, g: Region, n: nat)
    requires WellFormed(b)
    ensures DeletesRight(b, g.(scrolling := false), n) == DeletesRight(b, g, n)
  {
    hide Blanked, WrapRow;
  }

  lemma DeleteApplied(b: Backend, g: Region, n: nat)
    requires WellFormed(b)
    ensures var x, y := CursorX(b), CursorY(b);
      var c := ShiftLeft(b, x, y, n, b.cols).(cx := EraseStart(b.cols, n), cy := y);
      Apply(b, g, DeleteChars(n)) == SetCursor(Spaces(c, Min(n, b.cols), g.(scrolling := false)), x, y)
  {
    hide Spaces, ShiftLeft, RawPut, NegativeInt;
  }

  /** Nothing is left to move. */
  lemma DeletedAll(b: Backend, x: nat, y: nat, n: nat)
    requires WellFormed(b) && x + n > b.cols && x < b.cols
    ensures ShiftLeft(b, x, y, n, b.cols) == b && Deleted(b, x, y, n) == Blanked(b, y, x, b.cols)
  {
    assert ShiftLeft(b, x, y, n, b.cols).cells == b.cells;
    assert Deleted(b, x, y, n).cells == Blanked(b, y, x, b.cols).cells;
  }

  lemma DeleteOver(b: Backend, g: Region, x: nat, y: nat, n: nat)
    requires WellFormed(b) && Inside(g, b) && !g.scrolling && n < UINT && b.cols < WORD
    requires x == CursorX(b) && y == CursorY(b) && x + n > b.cols
    ensures var c := b.(cx := EraseStart(b.cols, n), cy := y); var r := Spaces(c, Min(n, b.cols), g);
      SameButCursor(r, b.(cells := r.cells)) && (r.cells == Blanked(b, y, x, b.cols).cells <==> DeletesRight(b, g, n))
  {
    hide Spaces, Index, RawPut, Blanked, OverErased, EraseStart, Clamp, AllBlank, FarRight;
    if n <= b.cols {
      EraseStartsNear(b.cols, n);
      SpacesBlank(b.(cx := b.cols - n, cy := y), n, g);
      BlankedCursor(b, b.cols - n, y, y, b.cols - n, b.cols);
      BlankedSplit(b, y, b.cols - n, x, b.cols);
    } else {
      EraseStarts(b.cols, n);
      if n - b.cols <= UINT / 2 {
        SpacesBlank(b.(cx := 0, cy := y), b.cols, g);
        BlankedCursor(b, 0, y, y, 0, b.cols);
        BlankedSplit(b, y, 0, x, b.cols);
      } else {
        DeleteFar(b, g, y);
        FarExact(b, g, x, y);
      }
    }
  }

  lemma DeleteFar(b: Backend, g: Region, y: nat)
    requires WellFormed(b) && Inside(g, b) && !g.scrolling && y < b.rows
    ensures SameButCursor(Spaces(b.(cx := b.cols - 1, cy := y), b.cols, g), OverErased(b, g, y))
  {
    hide Spaces, Index, RawPut, Blanked;
    var c := b.(cx := b.cols - 1, cy := y);
    SpacesMore(c, 1, b.cols - 1, g);
    SpacesBlank(c, 1, g);
    BlankedCursor(b, b.cols - 1, y, y, b.cols - 1, b.cols);
    var d := Spaces(c, 1, g);
    if b.cols == 1 {
      SpacesMore(d, 0, 0, g);
      SpacesNone(d, g);
    } else if y + 1 < g.bottom {
      SpacesWrapped(d, b.cols - 1, g);
      var b1 := Blanked(b, y, b.cols - 1, b.cols);
      BlankedCursor(b1, b.cols, y, WrapRow(d), 0, b.cols - 1);
    } else {
      SpacesOff(d, b.cols - 1, g);
    }
  }

  lemma OverErasedAt(b: Backend, g: Region, y: nat, k: nat)
    requires WellFormed(b) && y < b.rows && k < |b.cells|
    ensures var w := WrapRow(b.(cy := y));
      OverErased(b, g, y).cells[k]
      == if || y * b.cols + b.cols - 1 <= k < y * b.cols + b.cols
            || (y + 1 < g.bottom && b.cols > 1 && w * b.cols <= k < w * b.cols + b.cols - 1)
         then Blank(b) else b.cells[k]
  {
    hide Blanked;
    var b1, w := Blanked(b, y, b.cols - 1, b.cols), WrapRow(b.(cy := y));
    BlankedAt(b, y, b.cols - 1, b.cols, k);
    BlankedAt(b1, w, 0, b.cols - 1, k);
  }

  /** The two over-erased parts are right exactly if `FarRight`. */
  lemma FarExact(b: Backend, g: Region, x: nat, y: nat)
    requires WellFormed(b) && x < b.cols && y < b.rows
    ensures OverErased(b, g, y).cells == Blanked(b, y, x, b.cols).cells <==> FarRight(b, g, x, y)
  {
    var c, want := OverErased(b, g, y).cells, Blanked(b, y, x, b.cols).cells;
    hide OverErased, Blanked;
    RowsApart(WrapRow(b.(cy := y)), y, b.cols);
    forall k | 0 <= k < |b.cells| ensures c[k] == want[k] <==> FarCell(b, g, x, y, k) {
      OverErasedAt(b, g, y, k);
      BlankedAt(b, y, x, b.cols, k);
    }
    FarCells(b, g, x, y);
    if forall k: nat :: k < |b.cells| ==> FarCell(b, g, x, y, k) {
      assert c == want;
    }
  }

  /** Cell `k` is blank if it is missed or hit against the intention. */
  predicate FarCell(b: Backend, g: Region, x: nat, y: nat, k: nat)
    requires WellFormed(b)
  {
    var w := WrapRow(b.(cy := y));
    var wraps := y + 1 < g.bottom && b.cols > 1;
    var missed := y * b.cols + x <= k < y * b.cols + b.cols - 1;
    var hit := wraps && w * b.cols <= k < w * b.cols + b.cols - 1;
    missed != hit && k < |b.cells| ==> b.cells[k] == Blank(b)
  }

  lemma FarCells(b: Backend, g: Region, x: nat, y: nat)
    requires WellFormed(b) && x < b.cols && y < b.rows
    ensures FarRight(b, g, x, y) <==> forall k: nat :: k < |b.cells| ==> FarCell(b, g, x, y, k)
  {
    var w := WrapRow(b.(cy := y));
    var first, last, row := Index(x, y, b.cols), Index(b.cols - 1, y, b.cols), Index(0, w, b.cols);
    RowsApart(w, y, b.cols);
    if forall k: nat :: k < |b.cells| ==> FarCell(b, g, x, y, k) {
      if y + 1 >= g.bottom || b.cols == 1 || w != y {
        forall i: nat | first <= i < last && i < |b.cells| ensures b.cells[i] == Blank(b) {
          assert FarCell(b, g, x, y, i);
        }
      }
      if y + 1 < g.bottom && b.cols > 1 {
        forall i: nat | row <= i < (if w == y then first else row + b.cols - 1) && i < |b.cells|
          ensures b.cells[i] == Blank(b)
        {
          assert FarCell(b, g, x, y, i);
        }
      }
    }
  }

  lemma RowsApart(w: nat, y: nat, cols: nat)
    ensures w < y ==> w * cols + cols <= y * cols
    ensures y < w ==> y * cols + cols <= w * cols
  {
    if w < y {
      MulMono(w + 1, y, cols);
    } else if y < w {
      MulMono(y + 1, w, cols);
    }
  }

  lemma SpacesNone(b: Backend, g: Region)
    requires WellFormed(b)
    ensures Spaces(b, 0, g) == b
  {
  }

  // ---------------------------------------------------------------- erasing characters

  /** When CSI X erases what it should: the spaces that do not fit into the line go to the row that it wraps to, and
      with a line wrap pending all of them do, unless the line cannot wrap. What is hit there, and the cell of the
      cursor if it is missed, must be blank already. */
  predicate ErasesCharsRight(b: Backend, g: Region, n: nat)
    requires WellFormed(b)
  {
    var x, y := CursorX(b), CursorY(b);
    var w := WrapRow(b);
    if b.cy >= b.rows then RowBlank(b, y, x, Min(x + n, b.cols))
    else if b.cx < b.cols then x + n > b.cols && y + 1 < g.bottom ==> RowBlank(b, w, 0, x + n - b.cols)
    else if n == 0 then true
    else if y + 1 >= g.bottom then RowBlank(b, y, x, b.cols)
    else if w == y && n == b.cols then RowBlank(b, y, 0, x)
    else RowBlank(b, w, 0, n) && RowBlank(b, y, x, b.cols)
  }

  /** CSI X erases as many characters from the cursor on as there are in the line, if and only if that holds. */
  lemma EraseCharsExact(b: Backend, g: Region, count: nat)
    requires WellFormed(b) && Inside(g, b)
    ensures var x, y, n := CursorX(b), CursorY(b), Min(count, b.cols);
      Apply(b, g, Erase(Stay, n, Go(x, y))) == SetCursor(Blanked(b, y, x, Min(x + n, b.cols)), x, y)
      <==> ErasesCharsRight(b, g, n)
  {
    hide Spaces, Blanked, Index, RawPut, AllBlank, ErasesCharsRight;
    var x, y, n, still := CursorX(b), CursorY(b), Min(count, b.cols), g.(scrolling := false);
    if b.cy >= b.rows {
      SpacesOff(b, n, still);
      BlankedSame(b, y, x, Min(x + n, b.cols));
      CharsBelow(b, g, n);
    } else if b.cx < b.cols {
      CharsFrom(b, still, n);
    } else {
      CharsPending(b, still, n);
    }
    CharsStill(b, g, n);
  }

  lemma CharsStill(b: Backend, g: Region, n: nat)
    requires WellFormed(b)
    ensures ErasesCharsRight(b, g.(scrolling := false), n) == ErasesCharsRight(b, g, n)
  {
    hide AllBlank, Index;
  }

  lemma CharsBelow(b: Backend, g: Region, n: nat)
    requires WellFormed(b) && b.cy >= b.rows
    ensures ErasesCharsRight(b, g, n) <==> RowBlank(b, CursorY(b), CursorX(b), Min(CursorX(b) + n, b.cols))
  {
  }

  /** The cursor is in the line. */
  lemma CharsFrom(b: Backend, g: Region, n: nat)
    requires WellFormed(b) && Inside(g, b) && !g.scrolling && b.cx < b.cols && b.cy < b.rows && n <= b.cols
    ensures var r := Spaces(b, n, g);
      && SameButCursor(r, b.(cells := r.cells))
      && (r.cells == Blanked(b, b.cy, b.cx, Min(b.cx + n, b.cols)).cells <==> ErasesCharsRight(b, g, n))
  {
    hide Spaces, Blanked, Index, RawPut, AllBlank;
    var x, y := b.cx, b.cy;
    if x + n <= b.cols {
      SpacesBlank(b, n, g);
    } else {
      var rest, want := x + n - b.cols, Blanked(b, y, x, b.cols);
      var d := want.(cx := b.cols);
      SpacesMore(b, b.cols - x, rest, g);
      SpacesBlank(b, b.cols - x, g);
      if y + 1 < g.bottom {
        SpacesWrapped(d, rest, g);
        BlankedCursor(want, b.cols, y, WrapRow(b), 0, rest);
        BlankedSame(want, WrapRow(b), 0, rest);
        StartBlank(b, WrapRow(b), rest);
      } else {
        SpacesOff(d, rest, g);
      }
    }
  }

  /** The start of a row is not touched by blanking the end of one. */
  lemma StartBlank(b: Backend, w: nat, n: nat)
    requires WellFormed(b) && b.cx < b.cols && n <= b.cx
    ensures RowBlank(Blanked(b, b.cy, b.cx, b.cols), w, 0, n) <==> RowBlank(b, w, 0, n)
  {
    var c := Blanked(b, b.cy, b.cx, b.cols);
    hide Blanked;
    RowsApart(w, b.cy, b.cols);
    forall i: nat | Index(0, w, b.cols) <= i < Index(n, w, b.cols) && i < |b.cells| ensures c.cells[i] == b.cells[i] {
      BlankedAt(b, b.cy, b.cx, b.cols, i);
    }
  }

  /** A line wrap is pending. */
  lemma CharsPending(b: Backend, g: Region, n: nat)
    requires WellFormed(b) && Inside(g, b) && !g.scrolling && b.cx >= b.cols && b.cy < b.rows && n <= b.cols
    ensures var r := Spaces(b, n, g); var x := b.cols - 1;
      && SameButCursor(r, b.(cells := r.cells))
      && (r.cells == Blanked(b, b.cy, x, Min(x + n, b.cols)).cells <==> ErasesCharsRight(b, g, n))
  {
    hide Spaces, Blanked, Index, RawPut, AllBlank;
    var x, y, w := b.cols - 1, b.cy, WrapRow(b);
    if n == 0 {
      SpacesNone(b, g);
      BlankedSame(b, y, x, x);
      NoneBlank(b, y, x);
    } else if y + 1 >= g.bottom {
      SpacesOff(b, n, g);
      BlankedSame(b, y, x, b.cols);
    } else {
      SpacesWrapped(b, n, g);
      if w == y && n == b.cols {
        BlankedSplit(b, y, 0, x, b.cols);
      } else {
        TwoRows(b, w, n, y);
      }
    }
  }

  lemma NoneBlank(b: Backend, y: nat, x: nat)
    requires WellFormed(b)
    ensures RowBlank(b, y, x, x)
  {
  }

  /** Blanking the start of one row and blanking the end of another come to the same exactly if both are blank. */
  lemma TwoRows(b: Backend, w: nat, n: nat, y: nat)
    requires WellFormed(b) && n <= b.cols && (w == y ==> n < b.cols)
    ensures Blanked(b, w, 0, n).cells == Blanked(b, y, b.cols - 1, b.cols).cells
            <==> RowBlank(b, w, 0, n) && RowBlank(b, y, b.cols - 1, b.cols)
  {
    var c, d := Blanked(b, w, 0, n).cells, Blanked(b, y, b.cols - 1, b.cols).cells;
    hide Blanked;
    RowsApart(w, y, b.cols);
    forall i: nat | i < |b.cells|
      ensures c[i] == d[i]
              <==> || !(|| Index(0, w, b.cols) <= i < Index(n, w, b.cols)
                        || Index(b.cols - 1, y, b.cols) <= i < Index(b.cols, y, b.cols))
                   || b.cells[i] == Blank(b)
    {
      BlankedAt(b, w, 0, n, i);
      BlankedAt(b, y, b.cols - 1, b.cols, i);
    }
    if RowBlank(b, w, 0, n) && RowBlank(b, y, b.cols - 1, b.cols) {
      assert c == d;
    }
  }
}
