/** Control characters and escape sequences, byte by byte. */
module TerminalControls {
  import opened Arithmetic
  import opened ScreenModel
  import opened TerminalModel
  import opened TerminalActions
  import opened TerminalEditing
  import opened TerminalLines
  import opened TerminalSequences

  // ---------------------------------------------------------------- lines

  /** The cursor goes to column `x` of the next line; in the last line of the region the region moves up instead, and in
      the last line of the screen the cursor stays. */
  function NextLine(b: Backend, top: nat, bottom: nat, x: nat): Backend
    requires WellFormed(b)
  {
    var y := CursorY(b);
    if y + 1 == bottom then MovedUp(b, top, bottom, 1).(cx := x, cy := y)
    else b.(cx := x, cy := Min(y + 1, b.rows - 1))
  }

  /** The cursor goes to column `x` of the line above; in the first line of the region the region moves down instead,
      and in the first line of the screen the cursor stays. */
  function PreviousLine(b: Backend, top: nat, bottom: nat, x: nat): Backend
    requires WellFormed(b)
  {
    var y := CursorY(b);
    if y == top then MovedDown(b, top, bottom, 1).(cx := x, cy := y)
    else b.(cx := x, cy := if y == 0 then 0 else y - 1)
  }

  /** The backend takes positions for ints: the number of rows, as a position, is one below the screen. */
  predicate RowsInt(b: Backend) {
    b.rows == 1 || !NegativeInt(b.rows)
  }

  lemma ScrollOnce(b: Backend, g: Region)
    requires WellFormed(b) && g.top < g.bottom <= b.rows
    ensures Scroll(b, g) == MovedUp(b, g.top, g.bottom, 1)
    ensures RevScroll(b, g) == MovedDown(b, g.top, g.bottom, 1)
  {
    hide Scroll, RevScroll, MovedUp, MovedDown;
    ScrollTimesMoves(b, 1, g);
    RevScrollTimesMoves(b, 1, g);
    assert ScrollTimes(b, 0, g) == b && RevScrollTimes(b, 0, g) == b;
  }

  /** A line feed action is a move to the next line, unless the clamping of the backend takes the row behind the screen
      for a negative one. */
  lemma LineFeedExact(k: Context, b: Backend, x: nat)
    requires StateOk(State(k, b)) && x < b.cols
    ensures Apply(b, RegionOf(k), LineFeed(k, ViewOf(b), x)) == NextLine(b, k.top, k.bottom, x)
            <==> CursorY(b) + 1 < b.rows || CursorY(b) + 1 == k.bottom || RowsInt(b)
  {
    hide Scroll, MovedUp;
    ScrollOnce(b, RegionOf(k));
  }

  predicate IsLineFeed(c: nat) {
    c == 0x0a || c == 0x0b || c == 0x0c
  }

  /** A newline, vertical tab or form feed goes to the next line, with automatic carriage return to its start. */
  lemma NewlineExact(t: Tables, s: State, c: nat)
    requires StateOk(s) && Ground(s.k) && IsLineFeed(c)
    ensures var y := CursorY(s.b); var x := if s.k.modes.onlcr then 0 else CursorX(s.b);
      Step(t, s, c) == State(s.k, NextLine(s.b, s.k.top, s.k.bottom, x))
      <==> y + 1 < s.b.rows || y + 1 == s.k.bottom || RowsInt(s.b)
  {
    hide Apply, LineFeed, NextLine;
    PlainByte(t, s, c);
    LineFeedExact(s.k, s.b, if s.k.modes.onlcr then 0 else CursorX(s.b));
  }

  /** Outside every sequence a byte below 0x80 that is not CAN or SUB is a control character or printed. */
  lemma PlainByte(t: Tables, s: State, c: nat)
    requires StateOk(s) && Ground(s.k) && c < 0x80 && c != 0x18 && c != 0x1a
    ensures var r := ParsePlain(t, s.k, ViewOf(s.b), c); Step(t, s, c) == State(r.0, Apply(s.b, RegionOf(s.k), r.1))
  {
    hide ParsePlain, Apply;
    assert s.k.(remaining := 0) == s.k;
  }

  /** A carriage return goes to the start of the line, a backspace one column back but not out of the line. */
  lemma ReturnAndBackspace(t: Tables, s: State)
    requires StateOk(s) && Ground(s.k) && s.b.cols < WORD
    ensures Step(t, s, 13) == State(s.k, s.b.(cx := 0, cy := CursorY(s.b)))
    ensures var x := CursorX(s.b);
      Step(t, s, 8) == State(s.k, s.b.(cx := if x == 0 then 0 else x - 1, cy := CursorY(s.b)))
  {
    PlainByte(t, s, 13);
    PlainByte(t, s, 8);
    assert NegativeInt(WORD - 1);
  }

  /** The next multiple of eight. */
  function TabStop(x: nat): nat {
    x - x % 8 + 8
  }

  /** A tab goes to the next multiple of eight, or to the last column, unless the backend takes that for a negative
      position. */
  lemma TabExact(t: Tables, s: State)
    requires StateOk(s) && Ground(s.k)
    ensures var x := CursorX(s.b); var stop := TabStop(x);
      Step(t, s, 9) == State(s.k, s.b.(cx := Min(stop, s.b.cols - 1), cy := CursorY(s.b)))
      <==> stop < s.b.cols || !NegativeInt(stop) || x / 8 + 1 >= s.b.cols
  {
    PlainByte(t, s, 9);
    var x := CursorX(s.b);
    assert (x / 8 + 1) * 8 == TabStop(x);
  }

  /** NUL, DEL and BEL do nothing; shift-out and shift-in choose the character set. */
  lemma SilentBytes(t: Tables, s: State)
    requires StateOk(s) && Ground(s.k)
    ensures Step(t, s, 0) == s && Step(t, s, 0x7f) == s && Step(t, s, 7) == s
    ensures Step(t, s, 14) == State(s.k.(sets := s.k.sets.(current := 1)), s.b)
    ensures Step(t, s, 15) == State(s.k.(sets := s.k.sets.(current := 0)), s.b)
  {
    PlainByte(t, s, 0);
    PlainByte(t, s, 0x7f);
    PlainByte(t, s, 7);
    PlainByte(t, s, 14);
    PlainByte(t, s, 15);
  }

  /** CAN and SUB end whatever is going on and leave the screen alone; the parser is then outside every sequence if and
      only if it was not in a private one, which it still takes the next one for. */
  lemma CancelExact(t: Tables, s: State, c: nat)
    requires StateOk(s) && (c == 0x18 || c == 0x1a)
    ensures Step(t, s, c).b == s.b && (Ground(Step(t, s, c).k) <==> !s.k.esc.decPrivate)
  {
  }

  // ---------------------------------------------------------------- two-byte sequences

  /** ESC and one byte that is not `[`, `]` or CAN. */
  lemma EscapeByte(t: Tables, s: State, c: nat)
    requires StateOk(s) && Ground(s.k) && c < 0x80 && c != 0x18 && c != 0x1a
    ensures var k1 := s.k.(esc := s.k.esc.(offset := 1, active := true)); var r := EscapeCommand(k1, ViewOf(s.b), c);
      Feed(t, s, [0x1b, c]) == State(r.0, Apply(s.b, RegionOf(s.k), r.1))
  {
    hide EscapeCommand, Apply, Feed;
    FeedFirst(t, s, 0x1b, [c]);
    assert [0x1b] + [c] == [0x1b, c];
    PlainByte(t, s, 0x1b);
    var s1 := State(s.k.(esc := s.k.esc.(offset := 0, active := true)), s.b);
    assert Step(t, s, 0x1b) == s1 by { EscapeStarts(t, s); }
    FeedLast(t, s1, [c]);
  }

  lemma EscapeStarts(t: Tables, s: State)
    requires StateOk(s) && Ground(s.k)
    ensures Step(t, s, 0x1b) == State(s.k.(esc := s.k.esc.(offset := 0, active := true)), s.b)
  {
    PlainByte(t, s, 0x1b);
  }

  /** Where an escape sequence of two bytes leaves the parser. */
  function Escaped(k: Context): Context {
    k.(esc := k.esc.(offset := 1, active := false))
  }

  lemma LineCommandByte(t: Tables, s: State, c: nat)
    requires StateOk(s) && Ground(s.k) && (c == 'D' as nat || c == 'E' as nat || c == 'M' as nat)
    ensures Feed(t, s, [0x1b, c])
            == State(Escaped(s.k), Apply(s.b, RegionOf(s.k), LineCommand(s.k, ViewOf(s.b), c)))
  {
    hide Apply, Feed, Step;
    EscapeByte(t, s, c);
  }

  /** ESC D goes to the next line in the same column, ESC E to its start. */
  lemma IndexExact(t: Tables, s: State, c: nat)
    requires StateOk(s) && Ground(s.k) && (c == 'D' as nat || c == 'E' as nat)
    ensures var y := CursorY(s.b); var x := if c == 'E' as nat then 0 else CursorX(s.b);
      Feed(t, s, [0x1b, c]) == State(Escaped(s.k), NextLine(s.b, s.k.top, s.k.bottom, x))
      <==> y + 1 < s.b.rows || y + 1 == s.k.bottom || RowsInt(s.b)
  {
    hide Apply, LineFeed, NextLine, Feed, Step;
    LineCommandByte(t, s, c);
    LineFeedExact(s.k, s.b, if c == 'E' as nat then 0 else CursorX(s.b));
  }

  /** ESC M goes to the start of the line above; a reverse line feed keeps its column if and only if it is the first. */
  lemma ReverseIndexExact(t: Tables, s: State)
    requires StateOk(s) && Ground(s.k) && s.b.rows < WORD
    ensures Feed(t, s, [0x1b, 'M' as nat]) == State(Escaped(s.k), PreviousLine(s.b, s.k.top, s.k.bottom, 0))
    ensures Feed(t, s, [0x1b, 'M' as nat]) == State(Escaped(s.k), PreviousLine(s.b, s.k.top, s.k.bottom, CursorX(s.b)))
            <==> CursorX(s.b) == 0
  {
    hide Feed, Step, Scroll, RevScroll, MovedUp, MovedDown;
    LineCommandByte(t, s, 'M' as nat);
    ScrollOnce(s.b, RegionOf(s.k));
    assert NegativeInt(WORD - 1);
  }

  /** ESC c blanks the screen, puts the cursor home and takes the terminal back to its initial modes and margins. */
  lemma ResetBytes(t: Tables, s: State)
    requires StateOk(s) && Ground(s.k)
    ensures var r := Feed(t, s, [0x1b, 'c' as nat]); var k0 := Initial(s.k.rows, s.k.cols);
      && r.k == k0.(esc := k0.esc.(values := s.k.esc.values), codePoint := s.k.codePoint,
                    savedStyle := s.k.savedStyle, savedCharset := s.k.savedCharset)
      && r.b == s.b.(cells := r.b.cells, cx := 0, cy := 0)
      && (forall i :: 0 <= i < |r.b.cells| ==> r.b.cells[i] == Blank(s.b))
  {
    hide Feed, Step;
    EscapeByte(t, s, 'c' as nat);
  }

  /** ESC ( or ESC ) and 0 or B choose the special or the default set for G0 or G1. */
  lemma CharsetBytes(t: Tables, s: State, g: nat, c: nat)
    requires StateOk(s) && Ground(s.k)
    requires (g == '(' as nat || g == ')' as nat) && (c == '0' as nat || c == 'B' as nat)
    ensures var sets := if g == '(' as nat then s.k.sets.(g0Special := c == '0' as nat)
                        else s.k.sets.(g1Special := c == '0' as nat);
      Feed(t, s, [0x1b, g, c]) == State(Escaped(s.k).(sets := sets), s.b)
  {
    hide Feed;
    FeedAppend(t, s, [0x1b, g], [c]);
    assert [0x1b, g] + [c] == [0x1b, g, c];
    EscapeByte(t, s, g);
    FeedLast(t, Feed(t, s, [0x1b, g]), [c]);
  }

  /** A printable byte, in the special set as its table says, in insert mode after making room. */
  lemma PrintedByte(t: Tables, s: State, c: nat)
    requires StateOk(s) && Ground(s.k) && 0x20 <= c <= 0x7e
    ensures var special := if s.k.sets.current == 0 then s.k.sets.g0Special else s.k.sets.g1Special;
      var g := if special && t.special(c).Some? then t.special(c).value else c;
      var b := if s.k.modes.insert then ShiftRight(s.b, CursorX(s.b), CursorY(s.b)) else s.b;
      Step(t, s, c) == State(s.k, RawPut(b, g, RegionOf(s.k)))
  {
    hide RawPut, ShiftRight;
    PlainByte(t, s, c);
  }

  /** Making room is inserting a blank, which the character then takes, if no line wrap is pending. */
  lemma InsertModePuts(b: Backend, c: nat, g: Region)
    requires WellFormed(b) && b.cx < b.cols && b.cy < b.rows
    ensures RawPut(ShiftRight(b, CursorX(b), CursorY(b)), c, g)
            == SetCell(Inserted(b, b.cx, b.cy, 1), b.cx, b.cy, Cell(c, b.fg, b.bg)).(cx := b.cx + 1)
  {
    IndexBound(b.cx, b.cy, b.rows, b.cols);
    var l := RawPut(ShiftRight(b, b.cx, b.cy), c, g).cells;
    var r := SetCell(Inserted(b, b.cx, b.cy, 1), b.cx, b.cy, Cell(c, b.fg, b.bg)).cells;
    assert l == r;
  }

  // ---------------------------------------------------------------- saving and restoring

  /** What ESC 7 saves. */
  predicate SavedOf(s: State, from: State) {
    && s.b.saved == Saved(from.b.cx, from.b.cy, from.b.fg, from.b.bg)
    && s.k.savedStyle == from.k.style && s.k.savedCharset == from.k.sets.current
  }

  lemma SaveBytes(t: Tables, s: State)
    requires StateOk(s) && Ground(s.k)
    ensures var r := Feed(t, s, [0x1b, '7' as nat]);
      && SavedOf(r, s) && r.b == s.b.(saved := r.b.saved)
      && r.k == Escaped(s.k).(savedStyle := s.k.style, savedCharset := s.k.sets.current)
  {
    hide Feed, Step;
    EscapeByte(t, s, '7' as nat);
  }

  /** ESC 8 brings back cursor, colours, style and character set, and leaves the cells alone. */
  lemma RestoreBytes(t: Tables, s: State, from: State)
    requires StateOk(s) && Ground(s.k) && SavedOf(s, from)
    ensures var r := Feed(t, s, [0x1b, '8' as nat]);
      && r.b == s.b.(cx := from.b.cx, cy := from.b.cy, fg := from.b.fg, bg := from.b.bg)
      && r.k == Escaped(s.k).(style := from.k.style, sets := s.k.sets.(current := from.k.sets.current))
  {
    hide Feed, Step;
    EscapeByte(t, s, '8' as nat);
  }

  /** The byte does not save. */
  predicate SparesSaved(t: Tables, s: State, c: nat)
    requires StateOk(s) && c < 256
  {
    Parse(t, s.k, ViewOf(s.b), c).1 != SaveState
  }

  /** Nothing saved is lost, unless the action is to save again. */
  predicate KeptSaved(k: Context, r: (Context, Action)) {
    r.1 == SaveState || (r.0.savedStyle == k.savedStyle && r.0.savedCharset == k.savedCharset)
  }

  lemma CommandKeepsSaved(t: Tables, k: Context, v: View, c: nat)
    requires ContextOk(k) && ViewOk(v, k)
    ensures Command(t, k, v, c).Some? ==> KeptSaved(k, Command(t, k, v, c).value)
  {
    hide CursorCommand, EditCommand;
  }

  lemma ControlKeepsSaved(t: Tables, k: Context, v: View, c: nat)
    requires ContextOk(k) && ViewOk(v, k)
    ensures KeptSaved(k, ControlSequence(t, k, v, c))
  {
    hide Command, Defaults;
    var d := if c == 'J' as nat || c == 'K' as nat || c == 'q' as nat then 0 else 1;
    CommandKeepsSaved(t, k.(esc := Defaults(k.esc, d)), v, c);
  }

  lemma EscapeKeepsSaved(t: Tables, k: Context, v: View, c: nat)
    requires ContextOk(k) && ViewOk(v, k)
    ensures KeptSaved(k, EscapeParse(t, k, v, c))
  {
    hide ControlSequence, LineCommand;
    var e := k.esc.(offset := k.esc.offset + 1);
    var k1 := k.(esc := if e.osc then e.(osc := false, oscEscape := false) else e);
    ControlKeepsSaved(t, k1, v, c);
  }

  lemma ParseKeepsSaved(t: Tables, k: Context, v: View, c: nat)
    requires ContextOk(k) && ViewOk(v, k) && c < 256
    ensures KeptSaved(k, Parse(t, k, v, c))
  {
    hide EscapeParse, LineFeed;
    EscapeKeepsSaved(t, k.(remaining := 0), v, c);
  }

  lemma {:induction false} SpacesKeepSaved(b: Backend, n: nat, g: Region)
    requires WellFormed(b)
    ensures Spaces(b, n, g).saved == b.saved
  {
    hide Wrap;
    if n == 0 {
    } else {
      SpacesKeepSaved(b, n - 1, g);
      WrapKeeps(Spaces(b, n - 1, g), g);
    }
  }

  lemma ApplyKeepsSaved(b: Backend, g: Region, a: Action)
    requires WellFormed(b) && a != SaveState
    ensures Apply(b, g, a).saved == b.saved
  {
    hide Spaces, Wrap, Scroll, RevScroll, Index;
    match a
    case Print(c) => WrapKeeps(b, g);
    case Replacement(w) =>
      WrapKeeps(b, g);
      if w > 0 {
        SpacesKeepSaved(RawPut(b, 0xfe, g), w - 1, g);
      }
    case InsertPrint(c) => WrapKeeps(ShiftRight(b, CursorX(b), CursorY(b)), g);
    case Erase(from, n, to) => SpacesKeepSaved(Move(b, from), n, g.(scrolling := false));
    case DeleteChars(n) =>
      var c := SetCursor(ShiftLeft(b, CursorX(b), CursorY(b), n, b.cols), (b.cols - n) % WORD, CursorY(b));
      SpacesKeepSaved(c, Min(n, b.cols), g.(scrolling := false));
    case _ =>
  }

  /** No other byte touches what was saved. */
  lemma SavedStep(t: Tables, s: State, c: nat)
    requires StateOk(s) && c < 256 && SparesSaved(t, s, c)
    ensures var r := Step(t, s, c);
      r.b.saved == s.b.saved && r.k.savedStyle == s.k.savedStyle && r.k.savedCharset == s.k.savedCharset
  {
    hide Apply, Parse;
    ParseKeepsSaved(t, s.k, ViewOf(s.b), c);
    ApplyKeepsSaved(s.b, RegionOf(s.k), Parse(t, s.k, ViewOf(s.b), c).1);
  }

  ghost predicate NoneSaves(t: Tables, s: State, bytes: seq<nat>)
    requires StateOk(s) && Bytes(bytes)
  {
    forall i :: 0 <= i < |bytes| ==> SparesSaved(t, Feed(t, s, bytes[..i]), bytes[i])
  }

  lemma {:induction false} SavedRun(t: Tables, s: State, bytes: seq<nat>)
    requires StateOk(s) && Bytes(bytes) && NoneSaves(t, s, bytes)
    ensures var r := Feed(t, s, bytes);
      r.b.saved == s.b.saved && r.k.savedStyle == s.k.savedStyle && r.k.savedCharset == s.k.savedCharset
  {
    hide Step, SparesSaved;
    if bytes == [] {
    } else {
      var n := |bytes| - 1;
      assert forall i :: 0 <= i < n ==> bytes[..n][..i] == bytes[..i];
      SavedRun(t, s, bytes[..n]);
      SavedStep(t, Feed(t, s, bytes[..n]), bytes[n]);
    }
  }

  /** ESC 7, then whatever does not save again, then ESC 8: the cursor, the colours, the style and the character set are
      those of ESC 7. */
  lemma SavedComesBack(t: Tables, s: State, bytes: seq<nat>)
    requires StateOk(s) && Ground(s.k) && Bytes(bytes)
    requires var s1 := Feed(t, s, [0x1b, '7' as nat]); NoneSaves(t, s1, bytes)
    requires var s2 := Feed(t, s, [0x1b, '7' as nat] + bytes); Ground(s2.k)
    ensures var r := Feed(t, s, [0x1b, '7' as nat] + bytes + [0x1b, '8' as nat]);
      && (r.b.cx, r.b.cy, r.b.fg, r.b.bg) == (s.b.cx, s.b.cy, s.b.fg, s.b.bg)
      && r.k.style == s.k.style && r.k.sets.current == s.k.sets.current
  {
    hide Feed, Step, NoneSaves, SparesSaved;
    var save, restore := [0x1b, '7' as nat], [0x1b, '8' as nat];
    SaveBytes(t, s);
    FeedAppend(t, s, save, bytes);
    SavedRun(t, Feed(t, s, save), bytes);
    FeedAppend(t, s, save + bytes, restore);
    RestoreBytes(t, Feed(t, s, save + bytes), s);
  }
}
