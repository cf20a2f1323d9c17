/** Text with newlines of any length, as it scrolls through the region: the region is a window on a roll of paper. */
module TerminalPaper {
  import opened Wrappers
  import opened Arithmetic
  import opened ScreenModel
  import opened TerminalModel
  import opened TerminalActions
  import opened TerminalLines
  import opened TerminalSequences
  import opened TerminalControls

  const NEWLINE: nat := 0x0a

  /** A position on the paper; line 0 is the first line of the region at the start. */
  datatype Pen = Pen(line: nat, x: nat)

  predicate IsText(text: seq<nat>) {
    forall i :: 0 <= i < |text| ==> 0x20 <= text[i] <= 0x7e || text[i] == NEWLINE
  }

  /** Where the next character goes: behind a full line, to the start of the next. */
  function Spot(p: Pen, cols: nat): Pen {
    if p.x >= cols then Pen(p.line + 1, 0) else p
  }

  /** The pen after writing the text on the paper. */
  function PenAfter(text: seq<nat>, p: Pen, cols: nat): Pen {
    if text == [] then p
    else
      var q := PenAfter(text[..|text| - 1], p, cols);
      if text[|text| - 1] == NEWLINE then Pen(q.line + 1, 0) else Spot(q, cols).(x := Spot(q, cols).x + 1)
  }

  /** The character that the text leaves at a position of the paper. */
  function Written(text: seq<nat>, p: Pen, cols: nat, at: Pen): Option<nat> {
    if text == [] then None
    else
      var n := |text| - 1;
      if text[n] != NEWLINE && Spot(PenAfter(text[..n], p, cols), cols) == at then Some(text[n])
      else Written(text[..n], p, cols, at)
  }

  /** The row of the window, `h` rows high, in which a line is when it is being written: the paper moves on by as much
      as it takes. */
  function Row(line: nat, h: nat): nat
    requires h > 0
  {
    Min(line, h - 1)
  }

  function Start(s: State): Pen
    requires s.k.top <= s.b.cy
  {
    Pen(s.b.cy - s.k.top, s.b.cx)
  }

  predicate InRegion(s: State) {
    StateOk(s) && s.k.top <= s.b.cy < s.k.bottom
  }

  function Height(k: Context): nat
    requires ContextOk(k)
  {
    k.bottom - k.top
  }

  /** How far the paper has moved with the pen in `line`. */
  function Moved(k: Context, line: nat): nat
    requires ContextOk(k)
  {
    line - Row(line, Height(k))
  }

  /** Cell `i` after the text, the paper having moved by `off` lines. */
  function PaperCell(s: State, text: seq<nat>, off: nat, i: nat): Cell
    requires InRegion(s) && i < |s.b.cells|
  {
    var y := i / s.b.cols;
    if s.k.top <= y < s.k.bottom then
      match Written(text, Start(s), s.b.cols, Pen(y - s.k.top + off, i % s.b.cols))
      case Some(c) => Cell(c, s.b.fg, s.b.bg)
      case None => FromBelow(s.b, s.k.bottom, off, i)
    else s.b.cells[i]
  }

  /** The screen shows the paper, with what was in the region before at its head and blank behind that; the cursor is
      the pen, and nothing else has changed. */
  ghost predicate Shows(s: State, b: Backend, text: seq<nat>, p: Pen)
    requires InRegion(s)
  {
    && b == s.b.(cells := b.cells, cx := p.x, cy := s.k.top + Row(p.line, Height(s.k)))
    && |b.cells| == |s.b.cells|
    && forall i :: 0 <= i < |s.b.cells| ==> b.cells[i] == PaperCell(s, text, Moved(s.k, p.line), i)
  }

  ghost predicate OnPaper(s: State, r: State, text: seq<nat>)
    requires InRegion(s)
  {
    r.k == s.k && Shows(s, r.b, text, PenAfter(text, Start(s), s.b.cols))
  }

  // ---------------------------------------------------------------- one step

  /** Nothing is written beyond the pen. */
  lemma {:induction false} Unwritten(text: seq<nat>, p: Pen, cols: nat, at: Pen)
    requires at.line > PenAfter(text, p, cols).line
    ensures Written(text, p, cols, at) == None
  {
    if text == [] {
    } else {
      Unwritten(text[..|text| - 1], p, cols, at);
    }
  }

  /** The pen goes to the next line; in the last row of the window the paper moves. */
  lemma LineDown(s: State, b: Backend, text: seq<nat>)
    requires InRegion(s) && var p := PenAfter(text, Start(s), s.b.cols); Shows(s, b, text, p)
    ensures var p := PenAfter(text, Start(s), s.b.cols);
      Shows(s, NextLine(b, s.k.top, s.k.bottom, 0), text, Pen(p.line + 1, 0))
  {
    hide PaperCell, MovedUp;
    var p := PenAfter(text, Start(s), s.b.cols);
    if b.cy + 1 == s.k.bottom {
      var m := MovedUp(b, s.k.top, s.k.bottom, 1);
      forall i | 0 <= i < |s.b.cells| ensures m.cells[i] == PaperCell(s, text, Moved(s.k, p.line) + 1, i) {
        CellUp(s, b, text, i);
      }
    }
  }

  lemma CellUp(s: State, b: Backend, text: seq<nat>, i: nat)
    requires InRegion(s) && i < |s.b.cells|
    requires var p := PenAfter(text, Start(s), s.b.cols); Shows(s, b, text, p) && b.cy + 1 == s.k.bottom
    ensures var p := PenAfter(text, Start(s), s.b.cols);
      MovedUp(b, s.k.top, s.k.bottom, 1).cells[i] == PaperCell(s, text, Moved(s.k, p.line) + 1, i)
  {
    var p, cols := PenAfter(text, Start(s), s.b.cols), s.b.cols;
    var y, off := i / cols, Moved(s.k, p.line);
    if s.k.top <= y < s.k.bottom {
      Successor(off, cols);
      if y + 1 < s.k.bottom {
        HasBelow(i, s.b.rows, cols);
        RowBelow(i, cols);
        SameColumn(i, cols);
        assert b.cells[i + cols] == PaperCell(s, text, off, i + cols);
      } else {
        Unwritten(text, Start(s), cols, Pen(y - s.k.top + off + 1, i % cols));
      }
    }
  }

  lemma SameColumn(i: nat, cols: nat)
    requires cols > 0
    ensures (i + cols) % cols == i % cols
  {
    DivMod(i, cols);
    Successor(i / cols, cols);
    Euclid(i + cols, cols, i / cols + 1, i % cols);
  }

  /** A character is put where the pen is. */
  lemma PutDown(s: State, b: Backend, text: seq<nat>, c: nat)
    requires InRegion(s) && c != NEWLINE
    requires var p := Spot(PenAfter(text, Start(s), s.b.cols), s.b.cols); Shows(s, b, text, p)
    ensures var p := PenAfter(text + [c], Start(s), s.b.cols);
      Shows(s, SetCell(b, b.cx, b.cy, Cell(c, b.fg, b.bg)).(cx := b.cx + 1), text + [c], p)
  {
    hide PaperCell, SetCell;
    var p, r := Spot(PenAfter(text, Start(s), s.b.cols), s.b.cols), SetCell(b, b.cx, b.cy, Cell(c, b.fg, b.bg));
    assert (text + [c])[..|text|] == text;
    forall i | 0 <= i < |s.b.cells| ensures r.cells[i] == PaperCell(s, text + [c], Moved(s.k, p.line), i) {
      CellPut(s, b, text, c, i);
    }
  }

  lemma CellPut(s: State, b: Backend, text: seq<nat>, c: nat, i: nat)
    requires InRegion(s) && c != NEWLINE && i < |s.b.cells|
    requires var p := Spot(PenAfter(text, Start(s), s.b.cols), s.b.cols); Shows(s, b, text, p)
    ensures var p := Spot(PenAfter(text, Start(s), s.b.cols), s.b.cols);
      SetCell(b, b.cx, b.cy, Cell(c, b.fg, b.bg)).cells[i] == PaperCell(s, text + [c], Moved(s.k, p.line), i)
  {
    hide PenAfter, Written, SetCell;
    var cols := s.b.cols;
    var p := Spot(PenAfter(text, Start(s), cols), cols);
    SetCellAt(b, b.cx, b.cy, Cell(c, b.fg, b.bg), i);
    if s.k.top <= i / cols < s.k.bottom {
      WrittenNext(text, Start(s), cols, c, Pen(i / cols - s.k.top + Moved(s.k, p.line), i % cols));
    }
    assert b.cells[i] == PaperCell(s, text, Moved(s.k, p.line), i);
  }

  lemma SetCellAt(b: Backend, x: nat, y: nat, c: Cell, i: nat)
    requires WellFormed(b) && x < b.cols && y < b.rows && i < |b.cells|
    ensures SetCell(b, x, y, c).cells[i] == if i % b.cols == x && i / b.cols == y then c else b.cells[i]
  {
    hide Index;
    PartsIndex(i, b.rows, b.cols);
    IndexBound(x, y, b.rows, b.cols);
    if Index(x, y, b.cols) == i {
      IndexInjective(x, y, i % b.cols, i / b.cols, b.cols);
    }
  }

  lemma WrittenNext(text: seq<nat>, p: Pen, cols: nat, c: nat, at: Pen)
    requires c != NEWLINE
    ensures Written(text + [c], p, cols, at)
            == if Spot(PenAfter(text, p, cols), cols) == at then Some(c) else Written(text, p, cols, at)
  {
    assert (text + [c])[..|text|] == text;
  }

  // ---------------------------------------------------------------- whole texts

  /** The line wrap before a character, if there is one, leads to a row whose number is less than the number of
      columns. */
  predicate Fits(k: Context, p: Pen, c: nat)
    requires ContextOk(k)
  {
    c != NEWLINE && p.x >= k.cols ==> k.top + Row(p.line + 1, Height(k)) < k.cols
  }

  predicate WrapsFit(text: seq<nat>, k: Context, p: Pen)
    requires ContextOk(k)
  {
    text == []
    || (var n := |text| - 1; WrapsFit(text[..n], k, p) && Fits(k, PenAfter(text[..n], p, k.cols), text[n]))
  }

  /** A pending wrap goes to the next line if and only if it fits. */
  lemma WrapDown(s: State, b: Backend, text: seq<nat>)
    requires InRegion(s) && var p := PenAfter(text, Start(s), s.b.cols); Shows(s, b, text, p)
    ensures var p := PenAfter(text, Start(s), s.b.cols); var row := s.k.top + Row(p.line + 1, Height(s.k));
      && (row < s.b.cols ==> Wrap(b, RegionOf(s.k)) == NextLine(b, s.k.top, s.k.bottom, 0))
      && (row >= s.b.cols ==> Wrap(b, RegionOf(s.k)).cy != row)
  {
    hide Scroll, MovedUp, PaperCell;
    ScrollOnce(b.(cx := 0), RegionOf(s.k));
    assert MovedUp(b.(cx := 0), s.k.top, s.k.bottom, 1).cells == MovedUp(b, s.k.top, s.k.bottom, 1).cells by {
      MovedSame(b, s.k.top, s.k.bottom);
    }
  }

  lemma MovedSame(b: Backend, top: nat, bottom: nat)
    requires WellFormed(b)
    ensures MovedUp(b.(cx := 0), top, bottom, 1).cells == MovedUp(b, top, bottom, 1).cells
  {
  }

  /** One more byte stays on the paper if and only if its line wrap fits. */
  lemma ByteOnPaper(t: Tables, s: State, r: State, text: seq<nat>, c: nat)
    requires InRegion(s) && Ground(s.k) && Printing(s.k) && s.k.modes.onlcr && s.k.modes.scroll
    requires OnPaper(s, r, text) && (0x20 <= c <= 0x7e || c == NEWLINE)
    ensures StateOk(r)
    ensures OnPaper(s, Step(t, r, c), text + [c]) <==> Fits(s.k, PenAfter(text, Start(s), s.b.cols), c)
  {
    hide Step, Shows, Fits, Ground, Printing;
    if c == NEWLINE {
      NewlineOnPaper(t, s, r, text);
    } else {
      CharacterOnPaper(t, s, r, text, c);
    }
  }

  lemma NewlineOnPaper(t: Tables, s: State, r: State, text: seq<nat>)
    requires InRegion(s) && Ground(s.k) && s.k.modes.onlcr && OnPaper(s, r, text)
    ensures StateOk(r) && OnPaper(s, Step(t, r, NEWLINE), text + [NEWLINE])
    ensures Fits(s.k, PenAfter(text, Start(s), s.b.cols), NEWLINE)
  {
    hide Step, PaperCell, MovedUp, NextLine;
    assert (text + [NEWLINE])[..|text|] == text;
    LineDown(s, r.b, text);
    NewlineExact(t, r, NEWLINE);
    SameText(s, text);
  }

  lemma CharacterOnPaper(t: Tables, s: State, r: State, text: seq<nat>, c: nat)
    requires InRegion(s) && Printing(s.k) && s.k.modes.scroll && OnPaper(s, r, text) && 0x20 <= c <= 0x7e
    ensures StateOk(r)
    ensures OnPaper(s, Step(t, r, c), text + [c]) <==> Fits(s.k, PenAfter(text, Start(s), s.b.cols), c)
  {
    hide Step, PaperCell, Wrap, MovedUp, SetCell, NextLine, Printing;
    var p, cols := PenAfter(text, Start(s), s.b.cols), s.b.cols;
    assert (text + [c])[..|text|] == text;
    PrintByte(t, r, c);
    if p.x < cols {
      PutDown(s, r.b, text, c);
    } else {
      LineDown(s, r.b, text);
      WrapDown(s, r.b, text);
      if s.k.top + Row(p.line + 1, Height(s.k)) < cols {
        PutDown(s, Wrap(r.b, RegionOf(s.k)), text, c);
      }
    }
  }

  /** A newline writes nothing. */
  lemma SameText(s: State, text: seq<nat>)
    requires InRegion(s)
    ensures forall off: nat, i: nat :: i < |s.b.cells| ==>
      PaperCell(s, text + [NEWLINE], off, i) == PaperCell(s, text, off, i)
  {
    assert (text + [NEWLINE])[..|text|] == text;
  }

  /** Text with newlines stays on the paper, byte after byte, if and only if its line wraps fit. */
  lemma {:induction false} TextScrolls(t: Tables, s: State, text: seq<nat>)
    requires InRegion(s) && Ground(s.k) && Printing(s.k) && s.k.modes.onlcr && s.k.modes.scroll
    requires IsText(text) && Bytes(text)
    ensures (forall n :: 0 <= n <= |text| ==> OnPaper(s, Feed(t, s, text[..n]), text[..n]))
            <==> WrapsFit(text, s.k, Start(s))
  {
    hide Step, Shows, PenAfter, Fits, OnPaper, Printing, Ground;
    if text == [] {
      AtFirst(s);
      assert text[..0] == [];
    } else {
      var m := |text| - 1;
      TextScrolls(t, s, text[..m]);
      assert forall n :: 0 <= n <= m ==> text[..m][..n] == text[..n];
      assert text[..m] + [text[m]] == text == text[..|text|];
      if WrapsFit(text[..m], s.k, Start(s)) {
        assert text[..m][..m] == text[..m];
        ByteOnPaper(t, s, Feed(t, s, text[..m]), text[..m], text[m]);
      }
    }
  }

  lemma AtFirst(s: State)
    requires InRegion(s)
    ensures OnPaper(s, s, [])
  {
  }

  /** On a screen with no more rows above the bottom margin than columns they always do. */
  lemma {:induction false} WideScreen(text: seq<nat>, k: Context, p: Pen)
    requires ContextOk(k) && k.bottom <= k.cols
    ensures WrapsFit(text, k, p)
  {
    if text == [] {
    } else {
      WideScreen(text[..|text| - 1], k, p);
    }
  }

  // ---------------------------------------------------------------- from the start

  /** Nothing is going on, text is printed plainly and scrolls over the whole screen, and the cursor is shown. */
  predicate Fresh(k: Context) {
    && Ground(k) && Printing(k) && k.modes == Modes(true, true, true, false, true)
    && k.top == 0 && k.bottom == k.rows && k.savedX == k.savedY == 0 && k.sets == Charsets(0, false, true, 0)
    && !k.style.bold && !k.style.bgBold && !k.style.reverse
    && k.style.primary == k.style.background == NO_COLOUR
  }

  /** On a new terminal, text with newlines fills the sheet from its first line on. */
  lemma NewPrints(t: Tables, b: Backend, text: seq<nat>)
    requires WellFormed(b) && b.cx == b.cy == 0 && IsText(text) && Bytes(text)
    ensures var s := State(Initial(b.rows, b.cols), b);
      && Fresh(s.k) && InRegion(s)
      && ((forall n :: 0 <= n <= |text| ==> OnPaper(s, Feed(t, s, text[..n]), text[..n]))
          <==> WrapsFit(text, s.k, Pen(0, 0)))
  {
    hide Feed, OnPaper, WrapsFit;
    TextScrolls(t, State(Initial(b.rows, b.cols), b), text);
  }

  /** So it does after ESC c, and the sheet is blank. */
  lemma ResetPrints(t: Tables, s: State, text: seq<nat>)
    requires StateOk(s) && Ground(s.k) && IsText(text) && Bytes(text)
    ensures var r := Feed(t, s, [0x1b, 'c' as nat]);
      && Fresh(r.k) && InRegion(r) && r.b.cells == seq(|s.b.cells|, _ => Blank(s.b))
      && ((forall n :: 0 <= n <= |text| ==> OnPaper(r, Feed(t, r, text[..n]), text[..n]))
          <==> WrapsFit(text, r.k, Pen(0, 0)))
  {
    hide Feed, OnPaper, WrapsFit;
    ResetBytes(t, s);
    TextScrolls(t, Feed(t, s, [0x1b, 'c' as nat]), text);
  }
}
