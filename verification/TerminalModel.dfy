/** The escape-sequence parser of kernel/drivers/video/flanterm/flanterm.c on values: which byte in which
    parser state changes the parser state how, and which action it has on the screen. */
module TerminalModel {
  import opened Arithmetic
  import opened Wrappers
  import opened ScreenModel

  const MAX_VALUES: nat := 16
  const TAB_SIZE: nat := 8
  const NO_COLOUR: nat := WORD - 1

  datatype Modes = Modes(autoflush: bool, cursor: bool, scroll: bool, insert: bool, onlcr: bool)

  datatype Escape = Escape(active: bool, csi: bool, osc: bool, oscEscape: bool, discardNext: bool, decPrivate: bool,
                           unhandled: bool, offset: nat, rrr: bool, values: seq<nat>, count: nat)

  datatype Charsets = Charsets(select: nat, g0Special: bool, g1Special: bool, current: nat)

  datatype Style = Style(bold: bool, bgBold: bool, reverse: bool, primary: nat, background: nat)

  /** The fields of struct flanterm_context that the parser uses. */
  datatype Context = Context(rows: nat, cols: nat, modes: Modes, esc: Escape, remaining: nat, codePoint: nat,
                             sets: Charsets, style: Style, savedStyle: Style, savedCharset: nat,
                             top: nat, bottom: nat, savedX: nat, savedY: nat)

  /** What the parser asks of the backend: the clamped cursor and the current colours. */
  datatype View = View(x: nat, y: nat, fg: nat, bg: nat)

  datatype Look = Look(style: Style, fg: nat, bg: nat)

  /** The table-driven parts: select graphic rendition, code page 437, character widths and the special
      character set. Every statement about the parser holds for all such tables. */
  datatype Tables = Tables(sgr: (Look, seq<nat>) -> Look, glyph: nat -> Option<nat>, width: nat -> nat,
                           special: nat -> Option<nat>)

  datatype Place = Stay | Go(x: nat, y: nat)

  /** Calls of the backend. Printing uses the region of the context, line editing the same region with
      scrolling off, and both the clamped cursor. */
  datatype Action =
    | Nothing
    | Cursor(x: nat, y: nat)
    | Print(c: nat)
    | Replacement(width: nat)
    | InsertPrint(c: nat)
    | ScrollTo(x: nat, y: nat)
    | RevScrollTo(x: nat, y: nat)
    | ScrollBy(n: nat)
    | RevScrollBy(n: nat)
    | ClearAll(move: bool)
    | Erase(from: Place, n: nat, to: Place)
    | InsertBlanks(n: nat)
    | DeleteChars(n: nat)
    | SaveState
    | RestoreState
    | Colours(fg: nat, bg: nat)

  /** Kept by every byte: parameters stay within their array, and the scroll margins within the screen. */
  predicate ContextOk(k: Context) {
    && k.rows > 0 && k.cols > 0
    && EscapeOk(k.esc)
    && k.top < k.bottom <= k.rows
    && k.sets.select <= 2 && k.sets.current <= 1 && k.savedCharset <= 1 && k.remaining <= 3
  }

  predicate EscapeOk(e: Escape) {
    |e.values| == MAX_VALUES && e.count <= MAX_VALUES && (e.rrr ==> e.count < MAX_VALUES)
  }

  /** The screen keeps its size, and no byte turns automatic flushing off. */
  predicate Keeps(k: Context, r: Context) {
    ContextOk(r) && r.rows == k.rows && r.cols == k.cols && (k.modes.autoflush ==> r.modes.autoflush)
  }

  predicate ViewOk(v: View, k: Context) {
    v.x < k.cols && v.y < k.rows
  }

  function RegionOf(k: Context): Region {
    Region(k.top, k.bottom, k.modes.scroll)
  }

  // ---------------------------------------------------------------- context updates

  /** flanterm_context_reinit. */
  function Reinit(k: Context): (r: Context)
    requires ContextOk(k)
    ensures Keeps(k, r) && r.modes.autoflush
  {
    k.(modes := Modes(true, true, true, false, true),
       esc := Escape(false, false, false, false, false, false, false, 0, false, k.esc.values, 0),
       remaining := 0, sets := Charsets(0, false, true, 0),
       style := Style(false, false, false, NO_COLOUR, NO_COLOUR),
       top := 0, bottom := k.rows, savedX := 0, savedY := 0)
  }

  /** The context after flanterm_context_reinit on zeroed memory. */
  function Initial(rows: nat, cols: nat): (k: Context)
    requires rows > 0 && cols > 0
    ensures ContextOk(k) && k.rows == rows && k.cols == cols && k.modes.autoflush && k.modes.cursor
  {
    var noStyle := Style(false, false, false, 0, 0);
    Reinit(Context(rows, cols, Modes(false, false, false, false, false),
                   Escape(false, false, false, false, false, false, false, 0, false, seq(MAX_VALUES, _ => 0), 0), 0, 0,
                   Charsets(0, false, false, 0), noStyle, noStyle, 0, 0, rows, 0, 0))
  }

  function EndSequence(k: Context): (r: Context)
    requires ContextOk(k)
    ensures Keeps(k, r) && r.modes == k.modes
  {
    k.(esc := k.esc.(active := false, csi := false))
  }

  function SetScroll(k: Context, on: bool): (r: Context)
    requires ContextOk(k)
    ensures Keeps(k, r)
  {
    k.(modes := k.modes.(scroll := on))
  }

  // ---------------------------------------------------------------- bytes

  /** flanterm_putchar: an aborted or continued multi-byte character first. */
  function Parse(t: Tables, k: Context, v: View, c: nat): (r: (Context, Action))
    requires ContextOk(k) && ViewOk(v, k) && c < 256
    ensures Keeps(k, r.0)
  {
    if k.esc.discardNext || c == 0x18 || c == 0x1a then
      (k.(esc := k.esc.(discardNext := false, active := false, csi := false, osc := false, oscEscape := false),
          remaining := 0, sets := k.sets.(select := 0)), Nothing)
    else if k.remaining != 0 && 0x80 <= c < 0xc0 then Continue(t, k, c)
    else ParseStart(t, k.(remaining := 0), v, c)
  }

  /** A continuation byte of a multi-byte character. */
  function Continue(t: Tables, k: Context, c: nat): (r: (Context, Action))
    requires ContextOk(k) && k.remaining != 0
    ensures Keeps(k, r.0)
  {
    var left := k.remaining - 1;
    var point := k.codePoint + (c % 64) * (if left == 2 then 4096 else if left == 1 then 64 else 1);
    var k1 := k.(remaining := left, codePoint := point);
    if left != 0 then (k1, Nothing)
    else match t.glyph(point)
      case Some(g) => (k1, Print(g))
      case None => (k1, Replacement(t.width(point)))
  }

  function ParseStart(t: Tables, k: Context, v: View, c: nat): (r: (Context, Action))
    requires ContextOk(k) && ViewOk(v, k)
    ensures Keeps(k, r.0)
  {
    if 0xc0 <= c <= 0xdf then (k.(remaining := 1, codePoint := (c - 0xc0) * 64), Nothing)
    else if 0xe0 <= c <= 0xef then (k.(remaining := 2, codePoint := (c - 0xe0) * 4096), Nothing)
    else if 0xf0 <= c <= 0xf7 then (k.(remaining := 3, codePoint := (c - 0xf0) * 262144), Nothing)
    else if k.esc.active then EscapeParse(t, k, v, c)
    else if k.sets.select != 0 then (SelectCharset(k, c), Nothing)
    else ParsePlain(t, k, v, c)
  }

  /** `B` and `0` choose the character set that `(` or `)` announced. */
  function SelectCharset(k: Context, c: nat): (r: Context)
    requires ContextOk(k) && k.sets.select != 0
    ensures ContextOk(r) && r == k.(sets := r.sets)
  {
    var s := if c != 'B' as nat && c != '0' as nat then k.sets
             else if k.sets.select == 1 then k.sets.(g0Special := c == '0' as nat)
             else k.sets.(g1Special := c == '0' as nat);
    k.(sets := s.(select := 0))
  }

  /** Control characters and printing. */
  function ParsePlain(t: Tables, k: Context, v: View, c: nat): (r: (Context, Action))
    requires ContextOk(k) && ViewOk(v, k)
    ensures Keeps(k, r.0)
  {
    if c == 0 || c == 0x7f || c == 7 then (k, Nothing)
    else if c == 0x1b then (k.(esc := k.esc.(offset := 0, active := true)), Nothing)
    else if c == 9 then
      (k, Cursor(if v.x / TAB_SIZE + 1 >= k.cols then k.cols - 1 else (v.x / TAB_SIZE + 1) * TAB_SIZE, v.y))
    else if c == 0x0a || c == 0x0b || c == 0x0c then (k, LineFeed(k, v, if k.modes.onlcr then 0 else v.x))
    else if c == 8 then (k, Cursor(if v.x == 0 then WORD - 1 else v.x - 1, v.y))
    else if c == 13 then (k, Cursor(0, v.y))
    else if c == 14 then (k.(sets := k.sets.(current := 1)), Nothing)
    else if c == 15 then (k.(sets := k.sets.(current := 0)), Nothing)
    else
      var special := if k.sets.current == 0 then k.sets.g0Special else k.sets.g1Special;
      var plain := if 0x20 <= c <= 0x7e then c else 0xfe;
      var glyph := if special then match t.special(c) case Some(s) => s case None => plain else plain;
      (k, if k.modes.insert then InsertPrint(glyph) else Print(glyph))
  }

  function LineFeed(k: Context, v: View, x: nat): (a: Action)
    requires ContextOk(k)
  {
    if v.y == k.bottom - 1 then ScrollTo(x, v.y) else Cursor(x, v.y + 1)
  }

  // ---------------------------------------------------------------- escape sequences

  /** escape_parse. */
  function EscapeParse(t: Tables, k: Context, v: View, c: nat): (r: (Context, Action))
    requires ContextOk(k) && ViewOk(v, k)
    ensures Keeps(k, r.0)
  {
    var e := k.esc.(offset := k.esc.offset + 1);
    if e.osc && !e.oscEscape then (k.(esc := OscParse(e, c)), Nothing)
    else if e.osc && c == '\\' as nat then
      (k.(esc := e.(osc := false, oscEscape := false, active := false)), Nothing)
    else
      var k1 := k.(esc := if e.osc then e.(osc := false, oscEscape := false) else e);
      if e.csi then ControlSequence(t, k1, v, c) else EscapeCommand(k1, v, c)
  }

  /** osc_parse before an ESC: BEL ends the sequence. */
  function OscParse(e: Escape, c: nat): (r: Escape)
    ensures r.values == e.values && r.count == e.count && r.rrr == e.rrr
  {
    if c == 0x1b then e.(oscEscape := true)
    else if c == 7 then e.(oscEscape := false, osc := false, active := false)
    else e
  }

  function EscapeCommand(k: Context, v: View, c: nat): (r: (Context, Action))
    requires ContextOk(k) && ViewOk(v, k)
    ensures Keeps(k, r.0)
  {
    if c == ']' as nat then (k.(esc := k.esc.(oscEscape := false, osc := true)), Nothing)
    else if c == '[' as nat then (k.(esc := StartControl(k.esc)), Nothing)
    else if c == 'c' as nat then (Reinit(k), ClearAll(true))
    else
      var done := k.(esc := k.esc.(active := false));
      if c == '7' as nat then (done.(savedStyle := k.style, savedCharset := k.sets.current), SaveState)
      else if c == '8' as nat then
        (done.(style := k.savedStyle, sets := k.sets.(current := k.savedCharset)), RestoreState)
      else if c == '(' as nat || c == ')' as nat then (done.(sets := k.sets.(select := c - '\'' as nat)), Nothing)
      else (done, LineCommand(k, v, c))
  }

  function StartControl(e: Escape): (r: Escape)
    ensures EscapeOk(r)
  {
    e.(values := seq(MAX_VALUES, _ => 0), count := 0, rrr := false, unhandled := false, csi := true)
  }

  /** Index, next line and reverse index. */
  function LineCommand(k: Context, v: View, c: nat): (a: Action)
    requires ContextOk(k) && ViewOk(v, k)
  {
    if c == 'D' as nat then LineFeed(k, v, v.x)
    else if c == 'E' as nat then LineFeed(k, v, 0)
    else if c == 'M' as nat then
      if v.y == k.top then RevScrollTo(0, v.y) else Cursor(0, if v.y == 0 then WORD - 1 else v.y - 1)
    else Nothing
  }

  /** control_sequence_parse: parameters first. */
  function ControlSequence(t: Tables, k: Context, v: View, c: nat): (r: (Context, Action))
    requires ContextOk(k) && ViewOk(v, k)
    ensures Keeps(k, r.0)
  {
    var e := k.esc;
    if e.offset == 2 && c == '[' as nat then (EndSequence(k.(esc := e.(discardNext := true))), Nothing)
    else if e.offset == 2 && c == '?' as nat then (k.(esc := e.(decPrivate := true)), Nothing)
    else if '0' as nat <= c <= '9' as nat then (k.(esc := Digit(e, c - '0' as nat)), Nothing)
    else if c == ';' as nat then (k.(esc := Separator(e)), Nothing)
    else
      FinalByte(t, k.(esc := Defaults(e, if c == 'J' as nat || c == 'K' as nat || c == 'q' as nat then 0 else 1)), v, c)
  }

  /** Ends the last parameter and gives the missing ones their default. */
  function Defaults(e: Escape, default: nat): (r: Escape)
    requires EscapeOk(e)
    ensures EscapeOk(r)
  {
    var n := if e.rrr then e.count + 1 else e.count;
    e.(values := e.values[..n] + seq(MAX_VALUES - n, _ => default), count := n, rrr := false)
  }

  /** One decimal digit of a 32-bit parameter. */
  function Digit(e: Escape, d: nat): (r: Escape)
    requires EscapeOk(e)
    ensures EscapeOk(r)
  {
    if e.count == MAX_VALUES then e
    else e.(rrr := true, values := e.values[e.count := (e.values[e.count] * 10 + d) % UINT])
  }

  function Separator(e: Escape): (r: Escape)
    requires EscapeOk(e)
    ensures EscapeOk(r)
  {
    if e.rrr then e.(count := e.count + 1, rrr := false)
    else if e.count == MAX_VALUES then e
    else e.(values := e.values[e.count := 0], count := e.count + 1)
  }

  /** The byte that ends a control sequence, or one inside a sequence that is not handled. Only a handled command
      restores the scrolling flag. */
  function FinalByte(t: Tables, k: Context, v: View, c: nat): (r: (Context, Action))
    requires ContextOk(k) && ViewOk(v, k)
    ensures Keeps(k, r.0)
  {
    if k.esc.decPrivate then (EndSequence(DecPrivate(k, c)), Nothing)
    else if k.esc.unhandled then (SkipByte(SetScroll(k, false), c), Nothing)
    else if c == 0x1b then (SetScroll(k, false), Nothing)
    else match Command(t, k, v, c)
      case Some(r) => (EndSequence(r.0), r.1)
      case None => (Unhandled(SetScroll(k, false), true), Nothing)
  }

  function SkipByte(k: Context, c: nat): (r: Context)
    requires ContextOk(k)
    ensures Keeps(k, r)
  {
    if 0x40 <= c <= 0x7e then EndSequence(Unhandled(k, false)) else k
  }

  function Unhandled(k: Context, on: bool): (r: Context)
    requires ContextOk(k)
    ensures Keeps(k, r)
  {
    k.(esc := k.esc.(unhandled := on))
  }

  function DecPrivate(k: Context, c: nat): (r: Context)
    requires ContextOk(k)
    ensures Keeps(k, r)
  {
    var k1 := k.(esc := k.esc.(decPrivate := false));
    if k.esc.count > 0 && k.esc.values[0] == 25 && (c == 'h' as nat || c == 'l' as nat)
    then k1.(modes := k.modes.(cursor := c == 'h' as nat)) else k1
  }

  /** The commands of control_sequence_parse. The source clamps its parameters in place; they are zeroed before
      the next sequence reads them. */
  function Command(t: Tables, k: Context, v: View, c: nat): (r: Option<(Context, Action)>)
    requires ContextOk(k) && ViewOk(v, k)
    ensures r.Some? ==> Keeps(k, r.value.0)
  {
    var p, q := k.esc.values[0], k.esc.values[1];
    if c == 'm' as nat then
      var l := t.sgr(Look(k.style, v.fg, v.bg), k.esc.values[..k.esc.count]);
      Some((k.(style := l.style), Colours(l.fg, l.bg)))
    else if c == 's' as nat then Some((k.(savedX := v.x, savedY := v.y), Nothing))
    else if c == 'r' as nat then Some((SetMargins(k, p, q), Cursor(0, 0)))
    else if c == 'l' as nat || c == 'h' as nat then Some((SetMode(k, c), Nothing))
    else if c == 'c' as nat || c == 'n' as nat || c == 'q' as nat || c == ']' as nat then Some((k, Nothing))
    else match CursorCommand(k, v, p, q, c)
      case Some(a) => Some((k, a))
      case None => match EditCommand(k, v, p, c)
        case Some(a) => Some((k, a))
        case None => None
  }

  function CursorCommand(k: Context, v: View, p: nat, q: nat, c: nat): (a: Option<Action>)
    requires ContextOk(k) && ViewOk(v, k)
  {
    if c == 'F' as nat then Some(Cursor(0, UpFrom(k, v.y, p)))
    else if c == 'A' as nat then Some(Cursor(v.x, UpFrom(k, v.y, p)))
    else if c == 'E' as nat then Some(Cursor(0, DownFrom(k, v.y, p)))
    else if c == 'e' as nat || c == 'B' as nat then Some(Cursor(v.x, DownFrom(k, v.y, p)))
    else if c == 'a' as nat || c == 'C' as nat then Some(Cursor(Min(v.x + p, k.cols - 1), v.y))
    else if c == 'D' as nat then Some(Cursor(v.x - Min(p, v.x), v.y))
    else if c == 'd' as nat then Some(Cursor(v.x, Min(Below(p), k.rows - 1)))
    else if c == 'G' as nat || c == '`' as nat then Some(Cursor(Min(Below(p), k.cols - 1), v.y))
    else if c == 'H' as nat || c == 'f' as nat then
      Some(Cursor(Min(if q != 0 then q - 1 else 0, k.cols - 1), Min(if p != 0 then p - 1 else 0, k.rows - 1)))
    else if c == 'u' as nat then Some(Cursor(k.savedX, k.savedY))
    else None
  }

  function EditCommand(k: Context, v: View, p: nat, c: nat): (a: Option<Action>)
    requires ContextOk(k) && ViewOk(v, k)
  {
    if c == 'M' as nat then Some(ScrollBy(Min(p, k.rows)))
    else if c == 'L' as nat then Some(RevScrollBy(Min(p, k.rows)))
    else if c == 'J' as nat then Some(EraseDisplay(k, v, p))
    else if c == 'K' as nat then Some(EraseLine(k, v, p))
    else if c == '@' as nat then Some(InsertBlanks(p))
    else if c == 'P' as nat then Some(DeleteChars(p))
    else if c == 'X' as nat then Some(Erase(Stay, Min(p, k.cols), Go(v.x, v.y)))
    else None
  }

  function Min(a: nat, b: nat): nat {
    if a <= b then a else b
  }

  /** A parameter less one in 32-bit arithmetic. */
  function Below(p: nat): nat {
    if p == 0 then UINT - 1 else p - 1
  }

  predicate Crosses(k: Context, lo: nat, hi: nat) {
    lo <= k.top <= hi || lo <= k.bottom <= hi
  }

  /** The row `n` above `y`, not leaving the scroll region upwards. */
  function UpFrom(k: Context, y: nat, n: nat): nat {
    var dest := y - Min(n, y);
    if Crosses(k, dest, y) && dest < k.top then k.top else dest
  }

  /** The row `n` below `y`, not leaving the scroll region downwards. */
  function DownFrom(k: Context, y: nat, n: nat): nat
    requires ContextOk(k) && y < k.rows
  {
    var dest := Min(y + n, k.rows - 1);
    if Crosses(k, y, dest) && dest >= k.bottom then k.bottom - 1 else dest
  }

  function EraseDisplay(k: Context, v: View, p: nat): (a: Action)
    requires ContextOk(k) && ViewOk(v, k)
  {
    if p == 0 then
      Erase(Stay, Index(k.cols - (v.x + 1), k.rows - (v.y + 1), k.cols) + 1, Go(v.x, v.y))
    else if p == 1 then Erase(Go(0, 0), Index(v.x, v.y, k.cols) + 1, Go(v.x, v.y))
    else if p == 2 || p == 3 then ClearAll(false)
    else Nothing
  }

  function EraseLine(k: Context, v: View, p: nat): (a: Action)
    requires ContextOk(k) && ViewOk(v, k)
  {
    if p == 0 then Erase(Stay, k.cols - v.x, Go(v.x, v.y))
    else if p == 1 then Erase(Go(0, v.y), v.x, Stay)
    else if p == 2 then Erase(Go(0, v.y), k.cols, Go(v.x, v.y))
    else Nothing
  }

  /** Margins are taken only if they enclose at least two rows of the screen. */
  function SetMargins(k: Context, p: nat, q: nat): (r: Context)
    requires ContextOk(k)
    ensures ContextOk(r) && r == k.(top := r.top, bottom := r.bottom)
  {
    var top := if k.esc.count > 0 && p != 0 then p - 1 else 0;
    var bottom := if k.esc.count > 1 then (if q == 0 then 1 else q) else k.rows;
    if top >= k.rows || bottom > k.rows || top >= bottom - 1 then k.(top := 0, bottom := k.rows)
    else k.(top := top, bottom := bottom)
  }

  function SetMode(k: Context, c: nat): (r: Context)
    requires ContextOk(k)
    ensures Keeps(k, r)
  {
    if k.esc.count > 0 && k.esc.values[0] == 4 then k.(modes := k.modes.(insert := c == 'h' as nat)) else k
  }
}
