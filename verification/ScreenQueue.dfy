/** The deferred drawing of the framebuffer backend on values: a queue of changed cells and, for every cell,
    the position of its queue item or NONE. */
module ScreenQueue {
  import Sets
  import opened ScreenModel

  const NONE: int := -1

  datatype Item = Item(x: nat, y: nat, c: Cell)

  function Offset(q: Item, cols: nat): nat {
    Index(q.x, q.y, cols)
  }

  predicate OnScreen(q: Item, rows: nat, cols: nat) {
    q.x < cols && q.y < rows
  }

  ghost predicate Points(queue: seq<Item>, pending: seq<int>, rows: nat, cols: nat, j: int)
    requires 0 <= j < |queue|
  {
    OnScreen(queue[j], rows, cols) && Offset(queue[j], cols) < |pending| && pending[Offset(queue[j], cols)] == j
  }

  ghost predicate PointedAt(queue: seq<Item>, pending: seq<int>, cols: nat, i: int)
    requires 0 <= i < |pending|
  {
    pending[i] == NONE || (0 <= pending[i] < |queue| && Offset(queue[pending[i]], cols) == i)
  }

  /** Queue and map are inverse to each other. */
  ghost predicate Inverse(queue: seq<Item>, pending: seq<int>, rows: nat, cols: nat) {
    && (forall j :: 0 <= j < |queue| ==> Points(queue, pending, rows, cols, j))
    && (forall i :: 0 <= i < |pending| ==> PointedAt(queue, pending, cols, i))
  }

  /** The cell that later operations see at `i`. */
  ghost function Logical(grid: seq<Cell>, queue: seq<Item>, pending: seq<int>, i: int): Cell
    requires 0 <= i < |pending| <= |grid|
  {
    if 0 <= pending[i] < |queue| then queue[pending[i]].c else grid[i]
  }

  ghost predicate Represents(cells: seq<Cell>, grid: seq<Cell>, queue: seq<Item>, pending: seq<int>) {
    && |cells| == |grid| == |pending|
    && forall i :: 0 <= i < |cells| ==> cells[i] == Logical(grid, queue, pending, i)
  }

  /** The screen that queue, map and grid stand for. */
  ghost function LogicalCells(grid: seq<Cell>, queue: seq<Item>, pending: seq<int>): (s: seq<Cell>)
    requires |grid| == |pending|
    ensures Represents(s, grid, queue, pending)
  {
    seq(|grid|, i requires 0 <= i < |grid| => Logical(grid, queue, pending, i))
  }

  ghost function Offsets(queue: seq<Item>, cols: nat, n: nat): set<nat>
    requires n <= |queue|
  {
    set j | 0 <= j < n :: Offset(queue[j], cols)
  }

  lemma {:induction false} OffsetsSize(queue: seq<Item>, pending: seq<int>, rows: nat, cols: nat, n: nat)
    requires Inverse(queue, pending, rows, cols) && n <= |queue|
    ensures |Offsets(queue, cols, n)| == n
  {
    if n == 0 {
    } else {
      OffsetsSize(queue, pending, rows, cols, n - 1);
      var o := Offset(queue[n - 1], cols);
      assert Points(queue, pending, rows, cols, n - 1);
      forall j | 0 <= j < n - 1 ensures Offset(queue[j], cols) != o {
        assert Points(queue, pending, rows, cols, j);
      }
      assert Offsets(queue, cols, n) == Offsets(queue, cols, n - 1) + {o};
    }
  }

  /** However many pushes occur, the queue never holds more items than the screen has cells, and it has room
      left whenever some cell is not queued. */
  lemma QueueFits(queue: seq<Item>, pending: seq<int>, rows: nat, cols: nat)
    requires Inverse(queue, pending, rows, cols)
    ensures |queue| <= |pending|
    ensures NONE in pending ==> |queue| < |pending|
  {
    var s := Offsets(queue, cols, |queue|);
    OffsetsSize(queue, pending, rows, cols, |queue|);
    forall o | o in s ensures o < |pending| && pending[o] != NONE {
      var j :| 0 <= j < |queue| && Offset(queue[j], cols) == o;
      assert Points(queue, pending, rows, cols, j);
    }
    Sets.BoundedSize(s, |pending|);
    if NONE in pending {
      var i :| 0 <= i < |pending| && pending[i] == NONE;
      Sets.BoundedSize(s + {i}, |pending|);
    }
  }

  /** A first change of cell `i` since the last flush. */
  lemma AppendKeeps(queue: seq<Item>, pending: seq<int>, rows: nat, cols: nat, q: Item)
    requires Inverse(queue, pending, rows, cols) && OnScreen(q, rows, cols)
    requires Offset(q, cols) < |pending| && pending[Offset(q, cols)] == NONE
    ensures Inverse(queue + [q], pending[Offset(q, cols) := |queue|], rows, cols)
  {
    var queue', pending' := queue + [q], pending[Offset(q, cols) := |queue|];
    forall j | 0 <= j < |queue'| ensures Points(queue', pending', rows, cols, j) {
      if j < |queue| {
        assert Points(queue, pending, rows, cols, j);
      }
    }
    forall i | 0 <= i < |pending'| ensures PointedAt(queue', pending', cols, i) {
      assert PointedAt(queue, pending, cols, i);
    }
  }

  /** A further change of a cell that is already queued. */
  lemma ReplaceKeeps(queue: seq<Item>, pending: seq<int>, rows: nat, cols: nat, j: nat, c: Cell)
    requires Inverse(queue, pending, rows, cols) && j < |queue|
    ensures Inverse(queue[j := queue[j].(c := c)], pending, rows, cols)
  {
    var queue' := queue[j := queue[j].(c := c)];
    forall k | 0 <= k < |queue'| ensures Points(queue', pending, rows, cols, k) {
      assert Points(queue, pending, rows, cols, k);
    }
    forall i | 0 <= i < |pending| ensures PointedAt(queue', pending, cols, i) {
      assert PointedAt(queue, pending, cols, i);
    }
  }

  lemma AppendRepresents(cells: seq<Cell>, grid: seq<Cell>, queue: seq<Item>, pending: seq<int>,
                         rows: nat, cols: nat, q: Item)
    requires Represents(cells, grid, queue, pending) && Inverse(queue, pending, rows, cols)
    requires Offset(q, cols) < |pending| && pending[Offset(q, cols)] == NONE
    ensures Represents(cells[Offset(q, cols) := q.c], grid, queue + [q], pending[Offset(q, cols) := |queue|])
  {
    var o := Offset(q, cols);
    var cells', queue', pending' := cells[o := q.c], queue + [q], pending[o := |queue|];
    forall i | 0 <= i < |cells'|
      ensures cells'[i] == Logical(grid, queue', pending', i)
    {
      assert cells[i] == Logical(grid, queue, pending, i);
      assert PointedAt(queue, pending, cols, i);
    }
  }

  lemma ReplaceRepresents(cells: seq<Cell>, grid: seq<Cell>, queue: seq<Item>, pending: seq<int>,
                          rows: nat, cols: nat, i: nat, c: Cell)
    requires Represents(cells, grid, queue, pending) && Inverse(queue, pending, rows, cols)
    requires i < |pending| && pending[i] >= 0
    ensures pending[i] < |queue|
    ensures Represents(cells[i := c], grid, queue[pending[i] := queue[pending[i]].(c := c)], pending)
  {
    assert PointedAt(queue, pending, cols, i);
    var j := pending[i];
    var cells', queue' := cells[i := c], queue[j := queue[j].(c := c)];
    forall k | 0 <= k < |cells'|
      ensures cells'[k] == Logical(grid, queue', pending, k)
    {
      assert cells[k] == Logical(grid, queue, pending, k);
      assert PointedAt(queue, pending, cols, k);
    }
  }
}
