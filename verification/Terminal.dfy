/** The terminal of kernel/drivers/video/flanterm/flanterm.c over the framebuffer backend. */
module Terminal {
  import opened Arithmetic
  import opened ScreenModel
  import opened Screen
  import opened TerminalModel
  import opened TerminalActions

  // ---------------------------------------------------------------- loops over backend calls

  method PutSpaces(fb: Framebuffer, n: nat, g: Region)
    requires fb.Shape() && fb.QueueOk() && 1 <= g.bottom <= fb.rows
    modifies fb`queued, fb`cursorX, fb`cursorY, fb.queue, fb.pending
    ensures fb.QueueOk() && fb.Abs() == Spaces(old(fb.Abs()), n, g)
  {
    hide Framebuffer.QueueOk, Framebuffer.Abs, RawPut;
    ghost var b := fb.Abs();
    var i := 0;
    while i < n
      invariant i <= n && fb.QueueOk() && fb.Abs() == Spaces(b, i, g)
    {
      fb.RawPutchar(0x20, g);
      i := i + 1;
    }
  }

  method ScrollRows(fb: Framebuffer, n: nat, g: Region)
    requires fb.Shape() && fb.QueueOk() && 1 <= g.bottom <= fb.rows
    modifies fb`queued, fb.queue, fb.pending
    ensures fb.QueueOk() && fb.Abs() == ScrollTimes(old(fb.Abs()), n, g)
  {
    hide Framebuffer.QueueOk, Framebuffer.Abs, Scroll;
    ghost var b := fb.Abs();
    var i := 0;
    while i < n
      invariant i <= n && fb.QueueOk() && fb.Abs() == ScrollTimes(b, i, g)
    {
      fb.ScrollUp(g);
      i := i + 1;
    }
  }

  method RevScrollRows(fb: Framebuffer, n: nat, g: Region)
    requires fb.Shape() && fb.QueueOk() && 1 <= g.bottom <= fb.rows
    modifies fb`queued, fb.queue, fb.pending
    ensures fb.QueueOk() && fb.Abs() == RevScrollTimes(old(fb.Abs()), n, g)
  {
    hide Framebuffer.QueueOk, Framebuffer.Abs, RevScroll;
    ghost var b := fb.Abs();
    var i := 0;
    while i < n
      invariant i <= n && fb.QueueOk() && fb.Abs() == RevScrollTimes(b, i, g)
    {
      fb.ScrollDown(g);
      i := i + 1;
    }
  }

  /** The loop of insert mode, from the last column down. */
  method MakeRoom(fb: Framebuffer, x: nat, y: nat)
    requires fb.Shape() && fb.QueueOk() && x < fb.cols && y < fb.rows
    modifies fb`queued, fb.queue, fb.pending
    ensures fb.QueueOk() && fb.Abs() == ShiftRight(old(fb.Abs()), x, y)
  {
    hide Framebuffer.QueueOk, Framebuffer.Abs, MoveChar;
    ghost var b := fb.Abs();
    fb.AbsFields();
    assert ShiftRight(b, fb.cols, y).cells == b.cells;
    var i := fb.cols;
    while i > x
      invariant x <= i <= fb.cols && fb.QueueOk() && fb.Abs() == ShiftRight(b, i, y)
    {
      i := i - 1;
      fb.MoveCharacter(i + 1, y, i, y);
      ShiftRightStep(b, i, y);
    }
  }

  /** The loop of CSI @, from the last column down. */
  method InsertSpaces(fb: Framebuffer, x: nat, y: nat, n: nat, g: Region)
    requires fb.Shape() && fb.QueueOk() && x < fb.cols && y < fb.rows && 1 <= g.bottom <= fb.rows
    modifies fb`queued, fb`cursorX, fb`cursorY, fb.queue, fb.pending
    ensures fb.QueueOk() && fb.Abs() == SetCursor(OpenGap(old(fb.Abs()), x, y, n), x, y)
  {
    hide Framebuffer.QueueOk, Framebuffer.Abs, MoveChar, RawPut, OpenGap;
    ghost var b := fb.Abs();
    fb.AbsFields();
    OpenGapEmpty(b, y, n);
    var i := fb.cols;
    while i > x
      invariant x <= i <= fb.cols && fb.QueueOk() && SameButCursor(fb.Abs(), OpenGap(b, i, y, n))
    {
      i := i - 1;
      OpenGapRound(b, fb.Abs(), i, y, n, g);
      fb.MoveCharacter(i + n, y, i, y);
      fb.SetCursorPos(i, y);
      fb.RawPutchar(0x20, g);
    }
    fb.SetCursorPos(x, y);
  }

  /** The loop of CSI P. */
  method PullLeft(fb: Framebuffer, x: nat, y: nat, n: nat)
    requires fb.Shape() && fb.QueueOk() && x < fb.cols && y < fb.rows
    modifies fb`queued, fb.queue, fb.pending
    ensures fb.QueueOk() && fb.Abs() == ShiftLeft(old(fb.Abs()), x, y, n, fb.cols)
  {
    hide Framebuffer.QueueOk, Framebuffer.Abs, MoveChar;
    ghost var b := fb.Abs();
    fb.AbsFields();
    assert ShiftLeft(b, x, y, n, x + n).cells == b.cells;
    var i := x + n;
    while i < fb.cols
      invariant x + n <= i && (i <= fb.cols || i == x + n) && fb.QueueOk()
      invariant fb.Abs() == ShiftLeft(b, x, y, n, i)
    {
      fb.MoveCharacter(i - n, y, i, y);
      ShiftLeftStep(b, x, y, n, i);
      i := i + 1;
    }
    assert ShiftLeft(b, x, y, n, i).cells == ShiftLeft(b, x, y, n, fb.cols).cells;
  }

  method MoveTo(fb: Framebuffer, p: Place)
    requires fb.Shape() && fb.QueueOk()
    modifies fb`cursorX, fb`cursorY
    ensures fb.QueueOk() && fb.Abs() == Move(old(fb.Abs()), p)
  {
    hide Framebuffer.QueueOk, Framebuffer.Abs, SetCursor;
    match p
    case Stay =>
    case Go(x, y) => fb.SetCursorPos(x, y);
  }

  // ---------------------------------------------------------------- actions

  /** Printing: an optional shift of the line, the character, and the rest of a wide replacement. */
  method PerformPrint(fb: Framebuffer, g: Region, a: Action)
    requires fb.Shape() && fb.QueueOk() && 1 <= g.bottom <= fb.rows
    requires a.Print? || a.Replacement? || a.InsertPrint?
    modifies fb`queued, fb`cursorX, fb`cursorY, fb.queue, fb.pending
    ensures fb.QueueOk() && fb.Abs() == Apply(old(fb.Abs()), g, a)
  {
    hide Framebuffer.QueueOk, Framebuffer.Abs, RawPut, ShiftRight, Spaces;
    fb.AbsFields();
    match a
    case Print(c) => fb.RawPutchar(c, g);
    case Replacement(w) =>
      if w > 0 {
        fb.RawPutchar(0xfe, g);
        PutSpaces(fb, w - 1, g);
      }
    case InsertPrint(c) =>
      var x, y := fb.GetCursorPos();
      MakeRoom(fb, x, y);
      fb.RawPutchar(c, g);
  }

  /** Scrolling and clearing. */
  method PerformScroll(fb: Framebuffer, g: Region, a: Action)
    requires fb.Shape() && fb.QueueOk() && 1 <= g.bottom <= fb.rows
    requires a.ScrollTo? || a.RevScrollTo? || a.ScrollBy? || a.RevScrollBy? || a.ClearAll?
    modifies fb`queued, fb`cursorX, fb`cursorY, fb.queue, fb.pending
    ensures fb.QueueOk() && fb.Abs() == Apply(old(fb.Abs()), g, a)
  {
    hide Framebuffer.QueueOk, Framebuffer.Abs, Scroll, RevScroll, ScrollTimes, RevScrollTimes, Clear, SetCursor;
    fb.AbsFields();
    match a
    case ScrollTo(x, y) =>
      fb.ScrollUp(g);
      fb.SetCursorPos(x, y);
    case RevScrollTo(x, y) =>
      fb.ScrollDown(g);
      fb.SetCursorPos(x, y);
    case ScrollBy(n) => ScrollRows(fb, n, g);
    case RevScrollBy(n) =>
      var x, y := fb.GetCursorPos();
      RevScrollRows(fb, n, g.(top := y));
    case ClearAll(move) => fb.ClearScreen(move);
  }

  /** Erasing, inserting and deleting, with scrolling off. */
  method PerformEdit(fb: Framebuffer, g: Region, a: Action)
    requires fb.Shape() && fb.QueueOk() && 1 <= g.bottom <= fb.rows
    requires a.Erase? || a.InsertBlanks? || a.DeleteChars?
    modifies fb`queued, fb`cursorX, fb`cursorY, fb.queue, fb.pending
    ensures fb.QueueOk() && fb.Abs() == Apply(old(fb.Abs()), g, a)
  {
    hide Framebuffer.QueueOk, Framebuffer.Abs, Spaces, OpenGap, ShiftLeft, SetCursor, Move;
    fb.AbsFields();
    var still := g.(scrolling := false);
    var x, y := fb.GetCursorPos();
    match a
    case Erase(from, n, to) =>
      MoveTo(fb, from);
      PutSpaces(fb, n, still);
      MoveTo(fb, to);
    case InsertBlanks(n) => InsertSpaces(fb, x, y, n, still);
    case DeleteChars(n) =>
      PullLeft(fb, x, y, n);
      fb.SetCursorPos((fb.cols - n) % WORD, y);
      PutSpaces(fb, Min(n, fb.cols), still);
      fb.SetCursorPos(x, y);
  }

  method Perform(fb: Framebuffer, g: Region, a: Action)
    requires fb.Shape() && fb.QueueOk() && 1 <= g.bottom <= fb.rows
    modifies fb`queued, fb`cursorX, fb`cursorY, fb`fg, fb`bg, fb`saved, fb.queue, fb.pending
    ensures fb.QueueOk() && fb.Abs() == Apply(old(fb.Abs()), g, a)
  {
    hide Framebuffer.QueueOk, Framebuffer.Cells, SetCursor;
    if a.Print? || a.Replacement? || a.InsertPrint? {
      hide Apply;
      PerformPrint(fb, g, a);
    } else if a.ScrollTo? || a.RevScrollTo? || a.ScrollBy? || a.RevScrollBy? || a.ClearAll? {
      hide Apply;
      PerformScroll(fb, g, a);
    } else if a.Erase? || a.InsertBlanks? || a.DeleteChars? {
      hide Apply;
      PerformEdit(fb, g, a);
    } else {
      match a
      case Nothing =>
      case Cursor(x, y) => fb.SetCursorPos(x, y);
      case SaveState => fb.saved := Saved(fb.cursorX, fb.cursorY, fb.fg, fb.bg);
      case RestoreState =>
        fb.cursorX, fb.cursorY := fb.saved.cx, fb.saved.cy;
        fb.fg, fb.bg := fb.saved.fg, fb.saved.bg;
      case Colours(fg, bg) => fb.fg, fb.bg := fg, bg;
    }
  }

  class Console {
    const t: Tables
    const fb: Framebuffer
    var k: Context

    ghost predicate Valid()
      reads this, fb, fb.queue, fb.pending, fb.grid, fb.display
    {
      fb.Valid() && ContextOk(k) && k.rows == fb.rows && k.cols == fb.cols
    }

    /** Everything that later bytes can observe. */
    ghost function Observed(): (s: State)
      requires Valid()
      reads this, fb, fb.queue, fb.pending, fb.grid, fb.display
      ensures StateOk(s)
    {
      State(k, fb.Abs())
    }

    /** Nothing is pending and the display shows the observed state. */
    ghost predicate Settled()
      requires Valid()
      reads this, fb, fb.queue, fb.pending, fb.grid, fb.display
    {
      && fb.queued == 0 && fb.grid[..] == fb.Abs().cells
      && fb.display[..] == Shown(fb.Abs(), k.modes.cursor)
    }

    /** A terminal as flanterm_fb_init leaves it. */
    constructor (t: Tables, rows: nat, cols: nat, fg: nat, bg: nat)
      requires rows > 0 && cols > 0
      ensures Valid() && Settled() && k.modes.autoflush
      ensures fb.rows == rows && fb.cols == cols && forall i :: 0 <= i < fb.display.Length ==>
        fb.display[i] == if i == 0 then Cell(0x20, bg, fg) else Cell(0x20, fg, bg)
    {
      this.t := t;
      fb := new Framebuffer(rows, cols, fg, bg);
      k := Initial(rows, cols);
      new;
      fb.AbsFields();
      assert forall i :: 0 <= i < fb.display.Length ==> fb.display[i] == Shown(fb.Abs(), true)[i];
    }

    /** flanterm_putchar. */
    method PutChar(c: nat)
      requires Valid() && c < 256
      modifies `k, fb`queued, fb`cursorX, fb`cursorY, fb`fg, fb`bg, fb`saved, fb.queue, fb.pending
      ensures Valid() && Observed() == Step(t, old(Observed()), c)
    {
      hide Framebuffer.QueueOk, Framebuffer.Abs, Framebuffer.Drawn, Parse, Apply;
      fb.AbsFields();
      var x, y := fb.GetCursorPos();
      var r := Parse(t, k, View(x, y, fb.fg, fb.bg), c);
      Perform(fb, RegionOf(k), r.1);
      k := r.0;
    }

    /** flanterm_write. */
    method Write(bytes: seq<nat>)
      requires Valid() && Bytes(bytes)
      modifies this, fb, fb.queue, fb.pending, fb.grid, fb.display
      ensures Valid() && Observed() == Feed(t, old(Observed()), bytes)
      ensures k.modes.autoflush ==> Settled()
    {
      hide Framebuffer.Valid, Framebuffer.Abs, Step, ContextOk;
      ghost var s := Observed();
      var i := 0;
      while i < |bytes|
        invariant i <= |bytes| && Valid() && Observed() == Feed(t, s, bytes[..i])
      {
        assert bytes[..i + 1][..i] == bytes[..i];
        PutChar(bytes[i]);
        i := i + 1;
      }
      assert bytes[..i] == bytes;
      if k.modes.autoflush {
        fb.Flush(k.modes.cursor);
      }
    }

    /** Any sequence of flanterm_write calls: the outcome depends on the bytes alone, not on how they were
        split. */
    method WriteAll(chunks: seq<seq<nat>>)
      requires Valid() && k.modes.autoflush && chunks != [] && forall i :: 0 <= i < |chunks| ==> Bytes(chunks[i])
      modifies this, fb, fb.queue, fb.pending, fb.grid, fb.display
      ensures Valid() && Bytes(Join(chunks)) && Observed() == Feed(t, old(Observed()), Join(chunks))
      ensures Settled()
    {
      hide Valid, Settled, Framebuffer.Abs, Step;
      ghost var s := Observed();
      assert Feed(t, s, Join(chunks[..0])) == s;
      var i := 0;
      while i < |chunks|
        invariant i <= |chunks| && Valid() && Bytes(Join(chunks[..i])) && k.modes.autoflush
        invariant Observed() == Feed(t, s, Join(chunks[..i]))
        invariant i > 0 ==> Settled()
      {
        FeedNext(t, s, chunks, i);
        Write(chunks[i]);
        i := i + 1;
      }
      assert chunks[..i] == chunks;
    }
  }
}
