/** What the parser's actions do to the screen, and runs of the terminal over byte strings. */
module TerminalActions {
  import opened Arithmetic
  import opened ScreenModel
  import opened TerminalModel

  // ---------------------------------------------------------------- line editing

  /** The cells of row `y` from column `x` on move right by one; the cell at `x` stays. */
  function ShiftRight(b: Backend, x: nat, y: nat): (r: Backend)
    requires WellFormed(b)
    ensures WellFormed(r) && r == b.(cells := r.cells)
  {
    var first, last := Index(x, y, b.cols), Index(b.cols, y, b.cols);
    b.(cells := seq(|b.cells|, k requires 0 <= k < |b.cells| =>
      if first < k < last then b.cells[k - 1] else b.cells[k]))
  }

  /** The cells of row `y` from column `x` on move right by `n`, leaving blanks. With `n` zero the cells from
      `x` on are blanked. */
  function OpenGap(b: Backend, x: nat, y: nat, n: nat): (r: Backend)
    requires WellFormed(b)
    ensures WellFormed(r) && r == b.(cells := r.cells)
  {
    var first, last := Index(x, y, b.cols), Index(b.cols, y, b.cols);
    b.(cells := seq(|b.cells|, k requires 0 <= k < |b.cells| =>
      if k < first || last <= k then b.cells[k]
      else if first <= k - n < k then b.cells[k - n]
      else Blank(b)))
  }

  /** The cells of row `y` from column `x + n` up to column `end` move left by `n`. */
  function ShiftLeft(b: Backend, x: nat, y: nat, n: nat, end: nat): (r: Backend)
    requires WellFormed(b)
    ensures WellFormed(r) && r == b.(cells := r.cells)
  {
    var first, last := Index(x, y, b.cols), Index(end, y, b.cols);
    b.(cells := seq(|b.cells|, k requires 0 <= k < |b.cells| =>
      if first <= k && k + n < last && k + n < |b.cells| then b.cells[k + n] else b.cells[k]))
  }

  /** The cells from number `lo` up to number `hi`, blanked. */
  function Filled(b: Backend, lo: nat, hi: nat): (r: Backend)
    requires WellFormed(b)
    ensures WellFormed(r) && r == b.(cells := r.cells)
  {
    b.(cells := seq(|b.cells|, k requires 0 <= k < |b.cells| => if lo <= k < hi then Blank(b) else b.cells[k]))
  }

  /** The cells of row `y` from column `from` up to column `to`, blanked. */
  function Blanked(b: Backend, y: nat, from: nat, to: nat): (r: Backend)
    requires WellFormed(b)
    ensures WellFormed(r) && r == b.(cells := r.cells)
  {
    Filled(b, Index(from, y, b.cols), Index(to, y, b.cols))
  }

  /** One round of the insert-mode loop. */
  lemma ShiftRightStep(b: Backend, x: nat, y: nat)
    requires WellFormed(b) && x < b.cols && y < b.rows
    ensures MoveChar(ShiftRight(b, x + 1, y), x + 1, y, x, y) == ShiftRight(b, x, y)
  {
    IndexBound(x, y, b.rows, b.cols);
    IndexBound(b.cols - 1, y, b.rows, b.cols);
    assert MoveChar(ShiftRight(b, x + 1, y), x + 1, y, x, y).cells == ShiftRight(b, x, y).cells;
  }

  lemma OpenGapEmpty(b: Backend, y: nat, n: nat)
    requires WellFormed(b)
    ensures OpenGap(b, b.cols, y, n) == b
  {
    assert OpenGap(b, b.cols, y, n).cells == b.cells;
  }

  /** One round of the loop of CSI @. */
  lemma OpenGapStep(b: Backend, x: nat, y: nat, n: nat)
    requires WellFormed(b) && x < b.cols && y < b.rows
    ensures SetCell(MoveChar(OpenGap(b, x + 1, y, n), x + n, y, x, y), x, y, Blank(b)) == OpenGap(b, x, y, n)
  {
    IndexBound(x, y, b.rows, b.cols);
    IndexBound(b.cols - 1, y, b.rows, b.cols);
    assert SetCell(MoveChar(OpenGap(b, x + 1, y, n), x + n, y, x, y), x, y, Blank(b)).cells
      == OpenGap(b, x, y, n).cells;
  }

  /** `c` is `b` but for the cursor. */
  predicate SameButCursor(c: Backend, b: Backend) {
    c == b.(cx := c.cx, cy := c.cy)
  }

  /** One round of the loop of CSI @ with its cursor movement and blank. */
  lemma OpenGapRound(b: Backend, c: Backend, x: nat, y: nat, n: nat, g: Region)
    requires WellFormed(b) && x < b.cols && y < b.rows && SameButCursor(c, OpenGap(b, x + 1, y, n))
    ensures SameButCursor(RawPut(SetCursor(MoveChar(c, x + n, y, x, y), x, y), 0x20, g), OpenGap(b, x, y, n))
  {
    hide OpenGap, Index;
    var d := OpenGap(b, x + 1, y, n);
    OpenGapStep(b, x, y, n);
    assert MoveChar(c, x + n, y, x, y).cells == MoveChar(d, x + n, y, x, y).cells;
  }

  /** One round of the loop of CSI P. */
  lemma ShiftLeftStep(b: Backend, x: nat, y: nat, n: nat, i: nat)
    requires WellFormed(b) && x + n <= i < b.cols && y < b.rows
    ensures MoveChar(ShiftLeft(b, x, y, n, i), i - n, y, i, y) == ShiftLeft(b, x, y, n, i + 1)
  {
    IndexBound(i, y, b.rows, b.cols);
    IndexBound(b.cols - 1, y, b.rows, b.cols);
    assert MoveChar(ShiftLeft(b, x, y, n, i), i - n, y, i, y).cells == ShiftLeft(b, x, y, n, i + 1).cells;
  }

  // ---------------------------------------------------------------- repeated calls

  function Spaces(b: Backend, n: nat, g: Region): (r: Backend)
    requires WellFormed(b)
    ensures WellFormed(r) && r.rows == b.rows && r.cols == b.cols
  {
    if n == 0 then b else RawPut(Spaces(b, n - 1, g), 0x20, g)
  }

  function ScrollTimes(b: Backend, n: nat, g: Region): (r: Backend)
    requires WellFormed(b)
    ensures WellFormed(r) && r == b.(cells := r.cells)
  {
    if n == 0 then b else Scroll(ScrollTimes(b, n - 1, g), g)
  }

  function RevScrollTimes(b: Backend, n: nat, g: Region): (r: Backend)
    requires WellFormed(b)
    ensures WellFormed(r) && r == b.(cells := r.cells)
  {
    if n == 0 then b else RevScroll(RevScrollTimes(b, n - 1, g), g)
  }

  function Move(b: Backend, p: Place): (r: Backend)
    requires WellFormed(b)
    ensures WellFormed(r) && r.rows == b.rows && r.cols == b.cols
  {
    match p
    case Stay => b
    case Go(x, y) => SetCursor(b, x, y)
  }

  // ---------------------------------------------------------------- actions

  function Apply(b: Backend, g: Region, a: Action): (r: Backend)
    requires WellFormed(b)
    ensures WellFormed(r) && r.rows == b.rows && r.cols == b.cols
  {
    var x, y := CursorX(b), CursorY(b);
    var still := g.(scrolling := false);
    match a
    case Nothing => b
    case Cursor(x, y) => SetCursor(b, x, y)
    case Print(c) => RawPut(b, c, g)
    case Replacement(w) => if w == 0 then b else Spaces(RawPut(b, 0xfe, g), w - 1, g)
    case InsertPrint(c) => RawPut(ShiftRight(b, x, y), c, g)
    case ScrollTo(x, y) => SetCursor(Scroll(b, g), x, y)
    case RevScrollTo(x, y) => SetCursor(RevScroll(b, g), x, y)
    case ScrollBy(n) => ScrollTimes(b, n, g)
    case RevScrollBy(n) => RevScrollTimes(b, n, g.(top := y))
    case ClearAll(move) => Clear(b, move)
    case Erase(from, n, to) => Move(Spaces(Move(b, from), n, still), to)
    case InsertBlanks(n) => SetCursor(OpenGap(b, x, y, n), x, y)
    case DeleteChars(n) =>
      SetCursor(Spaces(SetCursor(ShiftLeft(b, x, y, n, b.cols), (b.cols - n) % WORD, y), Min(n, b.cols), still), x, y)
    case SaveState => b.(saved := Saved(b.cx, b.cy, b.fg, b.bg))
    case RestoreState => b.(cx := b.saved.cx, cy := b.saved.cy, fg := b.saved.fg, bg := b.saved.bg)
    case Colours(fg, bg) => b.(fg := fg, bg := bg)
  }

  // ---------------------------------------------------------------- runs

  /** All that later bytes can observe. */
  datatype State = State(k: Context, b: Backend)

  predicate StateOk(s: State) {
    ContextOk(s.k) && WellFormed(s.b) && s.k.rows == s.b.rows && s.k.cols == s.b.cols
  }

  function ViewOf(b: Backend): View
    requires WellFormed(b)
  {
    View(CursorX(b), CursorY(b), b.fg, b.bg)
  }

  /** flanterm_putchar. */
  function Step(t: Tables, s: State, c: nat): (r: State)
    requires StateOk(s) && c < 256
    ensures StateOk(r) && Keeps(s.k, r.k)
  {
    var (k, a) := Parse(t, s.k, ViewOf(s.b), c);
    State(k, Apply(s.b, RegionOf(s.k), a))
  }

  predicate Bytes(s: seq<nat>) {
    forall i :: 0 <= i < |s| ==> s[i] < 256
  }

  function Feed(t: Tables, s: State, bytes: seq<nat>): (r: State)
    requires StateOk(s) && Bytes(bytes)
    ensures StateOk(r) && Keeps(s.k, r.k)
  {
    if bytes == [] then s else Step(t, Feed(t, s, bytes[..|bytes| - 1]), bytes[|bytes| - 1])
  }

  function Join(chunks: seq<seq<nat>>): seq<nat> {
    if chunks == [] then [] else Join(chunks[..|chunks| - 1]) + chunks[|chunks| - 1]
  }

  lemma {:induction false} FeedAppend(t: Tables, s: State, xs: seq<nat>, ys: seq<nat>)
    requires StateOk(s) && Bytes(xs) && Bytes(ys)
    ensures Bytes(xs + ys) && Feed(t, s, xs + ys) == Feed(t, Feed(t, s, xs), ys)
  {
    if ys == [] {
      assert xs + ys == xs;
    } else {
      var zs := ys[..|ys| - 1];
      FeedAppend(t, s, xs, zs);
      assert (xs + ys)[..|xs + ys| - 1] == xs + zs;
    }
  }

  /** Feeding one more chunk. */
  lemma FeedNext(t: Tables, s: State, chunks: seq<seq<nat>>, i: nat)
    requires StateOk(s) && i < |chunks| && Bytes(chunks[i]) && Bytes(Join(chunks[..i]))
    ensures Bytes(Join(chunks[..i + 1]))
    ensures Feed(t, s, Join(chunks[..i + 1])) == Feed(t, Feed(t, s, Join(chunks[..i])), chunks[i])
  {
    hide Feed;
    FeedAppend(t, s, Join(chunks[..i]), chunks[i]);
    assert chunks[..i + 1][..i] == chunks[..i];
  }
}
