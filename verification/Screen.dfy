/** The framebuffer backend of the terminal: kernel/drivers/video/flanterm/flanterm_backends/fb.c. Glyph
    plotting is an assignment to a display cell. */
module Screen {
  import opened Arithmetic
  import opened ScreenModel
  import opened ScreenQueue

  class Framebuffer {
    const rows: nat
    const cols: nat
    const grid: array<Cell>
    const queue: array<Item>
    const pending: array<int>
    const display: array<Cell>
    var queued: nat
    var cursorX: nat
    var cursorY: nat
    var oldX: nat
    var oldY: nat
    var fg: nat
    var bg: nat
    var saved: Saved

    ghost predicate Shape() {
      && rows > 0 && cols > 0
      && grid.Length == queue.Length == pending.Length == display.Length == rows * cols
      && grid != display
    }

    ghost function Items(): seq<Item>
      reads `queued, queue
    {
      if queued <= queue.Length then queue[..queued] else []
    }

    ghost predicate QueueOk()
      reads `queued, queue, pending
    {
      queued <= queue.Length && Inverse(Items(), pending[..], rows, cols)
    }

    /** The cells that every operation but the drawing ones works on. */
    ghost function Cells(): (s: seq<Cell>)
      requires Shape() && QueueOk()
      reads `queued, queue, pending, grid
      ensures Represents(s, grid[..], Items(), pending[..])
    {
      LogicalCells(grid[..], Items(), pending[..])
    }

    /** Between flushes the display shows the grid, except perhaps where the cursor was drawn last. */
    ghost predicate Drawn()
      requires Shape()
      reads `oldX, `oldY, grid, display
    {
      forall i :: 0 <= i < grid.Length ==>
        display[i] == grid[i] || (oldX < cols && oldY < rows && i == Index(oldX, oldY, cols))
    }

    ghost predicate Valid()
      reads this, queue, pending, grid, display
    {
      Shape() && QueueOk() && Drawn()
    }

    ghost function Abs(): (b: Backend)
      requires Shape() && QueueOk()
      reads this, queue, pending, grid
      ensures WellFormed(b)
    {
      Backend(rows, cols, Cells(), cursorX, cursorY, fg, bg, saved)
    }

    /** The state that flanterm_fb_init leaves: blank cells, nothing queued, all drawn with the cursor at the
        origin. */
    constructor (rows: nat, cols: nat, fg: nat, bg: nat)
      requires rows > 0 && cols > 0
      ensures Valid() && queued == 0 && fresh(grid) && fresh(queue) && fresh(pending) && fresh(display)
      ensures this.rows == rows && this.cols == cols && cursorX == cursorY == 0 && this.fg == fg && this.bg == bg
      ensures forall i :: 0 <= i < rows * cols ==> Abs().cells[i] == Cell(0x20, fg, bg)
      ensures display[..] == Shown(Abs(), true)
    {
      this.rows, this.cols, this.fg, this.bg := rows, cols, fg, bg;
      queued, cursorX, cursorY, oldX, oldY := 0, 0, 0, 0, 0;
      saved := Saved(0, 0, 0, 0);
      var blank := Cell(0x20, fg, bg);
      grid := new Cell[rows * cols](_ => blank);
      queue := new Item[rows * cols](_ => Item(0, 0, blank));
      pending := new int[rows * cols](_ => NONE);
      display := new Cell[rows * cols](_ => blank);
      new;
      IndexBound(0, 0, rows, cols);
      display[0] := Invert(grid[0]);
      CellsWhenEmpty();
      assert display[..] == Shown(Abs(), true);
    }

    /** push_to_queue. */
    method Push(x: nat, y: nat, c: Cell)
      requires Shape() && QueueOk()
      modifies `queued, queue, pending
      ensures QueueOk() && Abs() == SetCell(old(Abs()), x, y, c)
    {
      if x >= cols || y >= rows {
        return;
      }
      IndexBound(x, y, rows, cols);
      var i := Index(x, y, cols);
      if pending[i] == NONE {
        if grid[i] == c {
          assert Cells()[i] == c;
          return;
        }
        Append(x, y, c);
      } else {
        Replace(i, c);
      }
    }

    method Append(x: nat, y: nat, c: Cell)
      requires Shape() && QueueOk() && x < cols && y < rows
      requires Index(x, y, cols) < pending.Length && pending[Index(x, y, cols)] == NONE
      modifies `queued, queue, pending
      ensures QueueOk() && Cells() == old(Cells())[Index(x, y, cols) := c]
    {
      var i := Index(x, y, cols);
      ghost var items, ps, cells := Items(), pending[..], Cells();
      assert ps[i] == NONE;
      QueueFits(items, ps, rows, cols);
      AppendKeeps(items, ps, rows, cols, Item(x, y, c));
      AppendRepresents(cells, grid[..], items, ps, rows, cols, Item(x, y, c));
      queue[queued] := Item(x, y, c);
      pending[i] := queued;
      queued := queued + 1;
      assert Items() == items + [Item(x, y, c)];
      assert pending[..] == ps[i := |items|];
    }

    method Replace(i: nat, c: Cell)
      requires Shape() && QueueOk() && i < pending.Length && pending[i] != NONE
      modifies queue
      ensures QueueOk() && Cells() == old(Cells())[i := c]
    {
      ghost var items, ps, cells := Items(), pending[..], Cells();
      assert PointedAt(items, ps, cols, i);
      ReplaceKeeps(items, ps, rows, cols, ps[i], c);
      ReplaceRepresents(cells, grid[..], items, ps, rows, cols, i, c);
      queue[pending[i]] := queue[pending[i]].(c := c);
      assert Items() == items[ps[i] := items[ps[i]].(c := c)];
    }

    /** The lookup that the operations below share: the pending cell if there is one, else the grid cell. */
    method Look(i: nat) returns (c: Cell)
      requires Shape() && QueueOk() && i < grid.Length
      ensures c == Cells()[i]
    {
      assert PointedAt(Items(), pending[..], cols, i);
      if pending[i] != NONE {
        c := queue[pending[i]].c;
      } else {
        c := grid[i];
      }
    }

    /** push_to_queue at the position of cell `i`. */
    method PushAt(i: nat, c: Cell)
      requires Shape() && QueueOk() && i < rows * cols
      modifies `queued, queue, pending
      ensures QueueOk() && |Cells()| == rows * cols && Cells() == old(Cells())[i := c]
    {
      PartsIndex(i, rows, cols);
      AbsFields();
      Push(i % cols, i / cols, c);
      AbsFields();
    }

    method FillRow(y: nat)
      requires Shape() && QueueOk()
      modifies `queued, queue, pending
      ensures QueueOk() && RowFilled(old(Cells()), Cells(), cols, y, Cell(0x20, fg, bg))
    {
      hide QueueOk, Cells, Items, Abs, Index;
      ghost var s := Cells();
      AbsFields();
      var x := 0;
      while x < cols
        invariant x <= cols && QueueOk() && |Cells()| == rows * cols
        invariant forall k :: 0 <= k < rows * cols ==>
          Cells()[k] == if k / cols == y && k % cols < x then Cell(0x20, fg, bg) else s[k]
      {
        AbsFields();
        Push(x, y, Cell(0x20, fg, bg));
        AbsFields();
        forall k | 0 <= k < rows * cols
          ensures Cells()[k] == if k / cols == y && k % cols < x + 1 then Cell(0x20, fg, bg) else s[k]
        {
          PartsIndex(k, rows, cols);
          IndexParts(x, y, cols);
        }
        x := x + 1;
      }
    }

    /** flanterm_fb_scroll. */
    method ScrollUp(g: Region)
      requires Shape() && QueueOk() && 1 <= g.bottom <= rows
      modifies `queued, queue, pending
      ensures QueueOk() && Abs() == Scroll(old(Abs()), g)
    {
      hide QueueOk, Cells, Items, Abs, Scroll, MovedBack, RowFilled;
      ghost var b := Abs();
      AbsFields();
      MulMono(g.bottom, rows, cols);
      Successor(g.top, cols);
      CopyBack((g.top + 1) * cols, g.bottom * cols);
      ghost var t := Cells();
      FillRow(g.bottom - 1);
      AbsFields();
      ScrollIsMove(b, g, t, Cells());
    }

    /** The copying loop of flanterm_fb_scroll. */
    method CopyBack(first: nat, last: nat)
      requires Shape() && QueueOk() && cols <= first && last <= rows * cols
      modifies `queued, queue, pending
      ensures QueueOk() && MovedBack(old(Cells()), Cells(), cols, first, last)
    {
      hide QueueOk, Cells, Items, Abs;
      AbsFields();
      ghost var s := Cells();
      var i := first;
      while i < last
        invariant first <= i && (i <= last || i == first) && QueueOk() && MovedBack(s, Cells(), cols, first, i)
      {
        var c := Look(i);
        PushAt(i - cols, c);
        i := i + 1;
      }
    }

    /** flanterm_fb_revscroll. */
    method ScrollDown(g: Region)
      requires Shape() && QueueOk() && 1 <= g.bottom <= rows
      modifies `queued, queue, pending
      ensures QueueOk() && Abs() == RevScroll(old(Abs()), g)
    {
      hide QueueOk, Cells, Items, Abs, RevScroll, MovedOn, RowFilled;
      ghost var b := Abs();
      AbsFields();
      MulMono(g.bottom, rows, cols);
      Successor(g.bottom - 1, cols);
      CopyOn(g.top * cols, (g.bottom - 1) * cols);
      ghost var t := Cells();
      FillRow(g.top);
      AbsFields();
      RevScrollIsMove(b, g, t, Cells());
    }

    /** The copying loop of flanterm_fb_revscroll, from the last cell down. */
    method CopyOn(first: nat, last: nat)
      requires Shape() && QueueOk() && last + cols <= rows * cols
      modifies `queued, queue, pending
      ensures QueueOk() && MovedOn(old(Cells()), Cells(), cols, first, last)
    {
      hide QueueOk, Cells, Items, Abs;
      AbsFields();
      ghost var s := Cells();
      var i := last - 1;
      while i >= first
        invariant i < last && (i + 1 >= first || i == last - 1) && QueueOk()
        invariant MovedOn(s, Cells(), cols, i + 1, last)
      {
        var c := Look(i);
        PushAt(i + cols, c);
        i := i - 1;
      }
    }

    /** flanterm_fb_clear. */
    method ClearScreen(move: bool)
      requires Shape() && QueueOk()
      modifies `queued, `cursorX, `cursorY, queue, pending
      ensures QueueOk() && Abs() == Clear(old(Abs()), move)
    {
      hide QueueOk, Cells, Items, Index;
      ghost var b := Abs();
      AbsFields();
      var i := 0;
      while i < rows * cols
        invariant 0 <= i <= rows * cols && QueueOk() && |Cells()| == rows * cols
        invariant unchanged(`cursorX, `cursorY)
        invariant forall k :: 0 <= k < i ==> Cells()[k] == Cell(0x20, fg, bg)
      {
        PushAt(i, Cell(0x20, fg, bg));
        i := i + 1;
      }
      assert Cells() == Clear(b, move).cells;
      if move {
        cursorX, cursorY := 0, 0;
      }
    }

    /** flanterm_fb_set_cursor_pos. */
    method SetCursorPos(x: nat, y: nat)
      requires Shape() && QueueOk()
      modifies `cursorX, `cursorY
      ensures QueueOk() && Abs() == SetCursor(old(Abs()), x, y)
    {
      cursorX := if x < cols then x else if NegativeInt(x) then 0 else cols - 1;
      cursorY := if y < rows then y else if NegativeInt(y) then 0 else rows - 1;
    }

    /** flanterm_fb_get_cursor_pos. */
    method GetCursorPos() returns (x: nat, y: nat)
      requires Shape() && QueueOk()
      ensures x == CursorX(Abs()) < cols && y == CursorY(Abs()) < rows
    {
      x := if cursorX >= cols then cols - 1 else cursorX;
      y := if cursorY >= rows then rows - 1 else cursorY;
    }

    /** flanterm_fb_move_character. */
    method MoveCharacter(newX: nat, newY: nat, x: nat, y: nat)
      requires Shape() && QueueOk()
      modifies `queued, queue, pending
      ensures QueueOk() && Abs() == MoveChar(old(Abs()), newX, newY, x, y)
    {
      hide QueueOk, Cells, Items;
      if x >= cols || y >= rows || newX >= cols || newY >= rows {
        return;
      }
      IndexBound(x, y, rows, cols);
      AbsFields();
      var c := Look(x + y * cols);
      Push(newX, newY, c);
    }

    /** flanterm_fb_raw_putchar. */
    method RawPutchar(c: nat, g: Region)
      requires Shape() && QueueOk() && 1 <= g.bottom <= rows
      modifies `queued, `cursorX, `cursorY, queue, pending
      ensures QueueOk() && Abs() == RawPut(old(Abs()), c, g)
    {
      hide QueueOk, Cells, Items;
      if cursorX >= cols && (cursorY < g.bottom - 1 || g.scrolling) {
        WrapLine(g);
      }
      Push(cursorX, cursorY, Cell(c, fg, bg));
      cursorX := cursorX + 1;
    }

    method WrapLine(g: Region)
      requires Shape() && QueueOk() && 1 <= g.bottom <= rows
      modifies `queued, `cursorX, `cursorY, queue, pending
      ensures QueueOk() && Abs() == Wrap(old(Abs()), g)
    {
      hide QueueOk, Cells, Items;
      cursorX := 0;
      cursorY := cursorY + 1;
      if cursorY == g.bottom {
        cursorY := cursorY - 1;
        ScrollUp(g);
      }
      if cursorY >= cols {
        cursorY := cols - 1;
      }
    }

    lemma AbsFields()
      requires Shape() && QueueOk()
      ensures Abs().cells == Cells() && |Cells()| == grid.Length
      ensures Abs().rows == rows && Abs().cols == cols && Abs().cx == cursorX && Abs().cy == cursorY
      ensures Abs().fg == fg && Abs().bg == bg && Abs().saved == saved
    {
    }

    // -------------------------------------------------------------- drawing

    ghost function CellOf(x: nat, y: nat): int {
      if x < cols && y < rows then Index(x, y, cols) else NONE
    }

    /** Items before `n` are drawn; of the others, those whose map entry is cleared are already on the grid. */
    ghost predicate Draining(cells: seq<Cell>, n: nat)
      requires Shape()
      reads `queued, queue, pending, grid
    {
      && n <= queued <= queue.Length && |cells| == grid.Length
      && (forall j {:trigger queue[j]} :: n <= j < queued ==>
        && OnScreen(queue[j], rows, cols) && Offset(queue[j], cols) < pending.Length
        && (pending[Offset(queue[j], cols)] == NONE || pending[Offset(queue[j], cols)] == j))
      && (forall i {:trigger pending[i]} :: 0 <= i < pending.Length ==>
        pending[i] == NONE || (n <= pending[i] < queued && Offset(queue[pending[i]], cols) == i))
      && (forall i {:trigger cells[i]} :: 0 <= i < |cells| ==>
        cells[i] == if 0 <= pending[i] < queued then queue[pending[i]].c else grid[i])
    }

    /** The display shows the grid but at `oi`, and the inverted cell at `ci`. */
    ghost predicate Painted(cells: seq<Cell>, ci: int, oi: int)
      requires Shape() && |cells| == grid.Length
      reads pending, grid, display
    {
      && (forall i :: 0 <= i < grid.Length && i != ci && i != oi ==> display[i] == grid[i])
      && (0 <= ci < grid.Length ==> display[ci] == Invert(cells[ci]) && pending[ci] == NONE)
    }

    lemma DrainStart()
      requires Shape() && QueueOk()
      ensures Draining(Cells(), 0)
    {
      forall j | 0 <= j < queued
        ensures OnScreen(queue[j], rows, cols) && Offset(queue[j], cols) < pending.Length
        ensures pending[Offset(queue[j], cols)] == j
      {
        assert Points(Items(), pending[..], rows, cols, j);
      }
      forall i | 0 <= i < pending.Length
        ensures pending[i] == NONE || (0 <= pending[i] < queued && Offset(queue[pending[i]], cols) == i)
      {
        assert PointedAt(Items(), pending[..], cols, i);
      }
      forall i | 0 <= i < grid.Length
        ensures Cells()[i] == if 0 <= pending[i] < queued then queue[pending[i]].c else grid[i]
      {
        assert Cells()[i] == Logical(grid[..], Items(), pending[..], i);
      }
    }

    /** draw_cursor. */
    method DrawCursor(ghost cells: seq<Cell>)
      requires Shape() && Draining(cells, 0) && Painted(cells, NONE, CellOf(oldX, oldY))
      modifies pending, grid, display
      ensures Draining(cells, 0) && Painted(cells, CellOf(cursorX, cursorY), CellOf(oldX, oldY))
    {
      if cursorX >= cols || cursorY >= rows {
        return;
      }
      IndexBound(cursorX, cursorY, rows, cols);
      var i := Index(cursorX, cursorY, cols);
      var j := pending[i];
      var c := if j != NONE then queue[j].c else grid[i];
      assert c == cells[i];
      display[i] := Invert(c);
      if j != NONE {
        grid[i] := queue[j].c;
        pending[i] := NONE;
      }
    }

    /** One round of the loop of flanterm_fb_double_buffer_flush. */
    method DrawItem(n: nat, ghost cells: seq<Cell>, ghost ci: int, ghost oi: int)
      requires Shape() && Draining(cells, n) && n < queued && Painted(cells, ci, oi)
      modifies pending, grid, display
      ensures Draining(cells, n + 1) && Painted(cells, ci, oi)
    {
      var q := queue[n];
      var offset := Offset(q, cols);
      if pending[offset] != NONE {
        display[offset] := q.c;
        grid[offset] := q.c;
        pending[offset] := NONE;
      }
    }

    method DrawQueue(ghost cells: seq<Cell>, ghost ci: int, ghost oi: int)
      requires Shape() && Draining(cells, 0) && Painted(cells, ci, oi)
      modifies pending, grid, display
      ensures Draining(cells, queued) && Painted(cells, ci, oi)
    {
      var n := 0;
      while n < queued
        invariant Draining(cells, n) && Painted(cells, ci, oi)
      {
        DrawItem(n, cells, ci, oi);
        n := n + 1;
      }
    }

    /** The previous cursor image is replaced by the cell under it. */
    method EraseOldCursor(enabled: bool)
      requires Shape()
      modifies display
      ensures forall i :: 0 <= i < grid.Length ==>
        display[i] == if i == CellOf(oldX, oldY) && (oldX != cursorX || oldY != cursorY || !enabled) then grid[i]
                      else old(display[i])
    {
      if oldX != cursorX || oldY != cursorY || !enabled {
        if oldX < cols && oldY < rows {
          IndexBound(oldX, oldY, rows, cols);
          var i := Index(oldX, oldY, cols);
          display[i] := grid[i];
        }
      }
    }

    lemma Drained(cells: seq<Cell>)
      requires Shape() && Draining(cells, queued)
      ensures grid[..] == cells && forall i :: 0 <= i < pending.Length ==> pending[i] == NONE
    {
      assert forall i :: 0 <= i < |cells| ==> cells[i] == grid[i];
    }

    lemma CellsWhenEmpty()
      requires Shape() && queued == 0 && forall i :: 0 <= i < pending.Length ==> pending[i] == NONE
      ensures QueueOk() && Cells() == grid[..]
    {
      assert Items() == [];
    }

    /** The drawing half of flanterm_fb_double_buffer_flush. */
    method Paint(enabled: bool)
      requires Valid()
      modifies pending, grid, display
      ensures grid[..] == old(Cells()) && forall i :: 0 <= i < pending.Length ==> pending[i] == NONE
      ensures display[..] == Shown(old(Abs()), enabled)
    {
      hide QueueOk, Cells, Abs, Items;
      ghost var b, cells := Abs(), Cells();
      ghost var oi := CellOf(oldX, oldY);
      ghost var ci := if enabled then CellOf(cursorX, cursorY) else NONE;
      AbsFields();
      DrainStart();
      assert Painted(cells, NONE, oi);
      if enabled {
        DrawCursor(cells);
      }
      DrawQueue(cells, ci, oi);
      Drained(cells);
      EraseOldCursor(enabled);
      CursorCells();
      assert forall i :: 0 <= i < grid.Length ==> display[i] == if i == ci then Invert(cells[i]) else cells[i];
      assert display[..] == Shown(b, enabled);
    }

    /** Different positions are different cells. */
    lemma CursorCells()
      ensures CellOf(oldX, oldY) == CellOf(cursorX, cursorY) != NONE ==> oldX == cursorX && oldY == cursorY
    {
      if CellOf(oldX, oldY) == CellOf(cursorX, cursorY) != NONE {
        IndexInjective(oldX, oldY, cursorX, cursorY, cols);
      }
    }

    /** flanterm_fb_double_buffer_flush: nothing that later operations observe changes, and the display shows
        every cell, the cursor cell inverted, with no older cursor left. */
    method Flush(enabled: bool)
      requires Valid()
      modifies `queued, `oldX, `oldY, pending, grid, display
      ensures Valid() && Abs() == old(Abs())
      ensures queued == 0 && grid[..] == Abs().cells
      ensures display[..] == Shown(Abs(), enabled)
    {
      ghost var b := Abs();
      Paint(enabled);
      oldX, oldY := cursorX, cursorY;
      queued := 0;
      CellsWhenEmpty();
      ShownDrawn(b, enabled);
    }

    lemma ShownDrawn(b: Backend, enabled: bool)
      requires Shape() && WellFormed(b) && b.rows == rows && b.cols == cols && b.cx == oldX && b.cy == oldY
      requires grid[..] == b.cells && display[..] == Shown(b, enabled)
      ensures Drawn()
    {
      forall i | 0 <= i < grid.Length
        ensures display[i] == grid[i] || (oldX < cols && oldY < rows && i == Index(oldX, oldY, cols))
      {
        assert display[i] == display[..][i] && grid[i] == grid[..][i];
      }
    }
  }
}
