/** Control sequences as bytes, with their effect on the screen. */
module TerminalCommands {
  import opened Arithmetic
  import opened Wrappers
  import opened ScreenModel
  import opened TerminalModel
  import opened TerminalActions
  import opened TerminalEditing
  import opened TerminalErasing
  import opened TerminalLines
  import opened TerminalSequences

  // ---------------------------------------------------------------- reading

  predicate IsSequence(ps: seq<seq<nat>>, c: nat) {
    Final(c) && (Given(ps) || (ps == [] && c != '[' as nat && c != '?' as nat))
  }

  /** The bytes of a control sequence: ESC [, the parameters, and the final byte. */
  function Csi(ps: seq<seq<nat>>, c: nat): (r: seq<nat>)
    requires IsSequence(ps, c)
    ensures Bytes(r)
  {
    if ps == [] then [0x1b, '[' as nat, c] else [0x1b, '[' as nat] + ParameterText(ps) + [c]
  }

  /** Parameter `i`: its decimal value in 32 bits, or the default of the command. */
  function Parameter(ps: seq<seq<nat>>, i: nat, c: nat): nat {
    if i < |ps| then DecimalValue(ps[i]) % UINT else DefaultOf(c)
  }

  /** The parser before the final byte is looked up. */
  function Read(k: Context, ps: seq<seq<nat>>, c: nat): Context
    requires IsSequence(ps, c)
  {
    InCsi(k, if ps == [] then 2 else 2 + |ParameterText(ps)|, Stored(ps, DefaultOf(c)), |ps|, false)
  }

  lemma NoParameters(t: Tables, s: State, c: nat)
    requires StateOk(s) && Ground(s.k) && IsSequence([], c)
    ensures var r := FinalByte(t, Read(s.k, [], c), ViewOf(s.b), c);
      Feed(t, s, Csi([], c)) == State(r.0, Apply(s.b, RegionOf(s.k), r.1))
  {
    hide Feed, FinalByte, Apply;
    OpensCsi(t, s);
    FeedAppend(t, s, [0x1b, '[' as nat], [c]);
    assert [0x1b, '[' as nat] + [c] == Csi([], c);
    FeedLast(t, Feed(t, s, [0x1b, '[' as nat]), [c]);
    var d := DefaultOf(c);
    assert seq(MAX_VALUES, _ => 0)[..0] + seq(MAX_VALUES - 0, _ => d) == Stored([], d);
  }

  lemma SequenceRead(t: Tables, s: State, ps: seq<seq<nat>>, c: nat)
    requires StateOk(s) && Ground(s.k) && IsSequence(ps, c)
    ensures var r := FinalByte(t, Read(s.k, ps, c), ViewOf(s.b), c);
      Feed(t, s, Csi(ps, c)) == State(r.0, Apply(s.b, RegionOf(s.k), r.1))
  {
    hide Feed, Step, FinalByte, Apply;
    if ps == [] {
      NoParameters(t, s, c);
    } else {
      ControlRead(t, s, ps, c);
    }
  }

  /** The parser after a sequence that changed nothing else. */
  function After(k: Context, ps: seq<seq<nat>>, c: nat): (r: Context)
    requires IsSequence(ps, c)
  {
    var k1 := Read(k, ps, c);
    k1.(esc := k1.esc.(active := false, csi := false))
  }

  lemma AfterIsGround(k: Context, ps: seq<seq<nat>>, c: nat)
    requires IsSequence(ps, c) && Ground(k)
    ensures Ground(After(k, ps, c)) && After(k, ps, c) == k.(esc := After(k, ps, c).esc)
  {
  }

  predicate MovesCursor(c: nat) {
    c < 256 && c as char in "ABCDEFGH`adefu"
  }

  predicate Edits(c: nat) {
    c < 256 && c as char in "@JKLMPX"
  }

  /** The commands that are handled. */
  predicate Handled(c: nat) {
    MovesCursor(c) || Edits(c) || (c < 256 && c as char in "chlmnqrs]")
  }

  lemma CursorHandled(k: Context, v: View, p: nat, q: nat, c: nat)
    requires ContextOk(k) && ViewOk(v, k)
    ensures CursorCommand(k, v, p, q, c).Some? <==> MovesCursor(c)
  {
    hide UpFrom, DownFrom, Below;
  }

  lemma EditHandled(k: Context, v: View, p: nat, c: nat)
    requires ContextOk(k) && ViewOk(v, k)
    ensures EditCommand(k, v, p, c).Some? <==> Edits(c)
  {
    hide EraseDisplay, EraseLine;
  }

  lemma CommandHandled(t: Tables, k: Context, v: View, c: nat)
    requires ContextOk(k) && ViewOk(v, k)
    ensures Command(t, k, v, c).Some? <==> Handled(c)
  {
    hide CursorCommand, EditCommand, SetMargins, SetMode, MovesCursor, Edits;
    CursorHandled(k, v, k.esc.values[0], k.esc.values[1], c);
    EditHandled(k, v, k.esc.values[0], c);
  }

  /** A sequence ends with its final byte if and only if that is handled. If not, the screen is as it was, but
      scrolling is off and the parser goes on swallowing bytes. */
  lemma SequenceEnds(t: Tables, s: State, ps: seq<seq<nat>>, c: nat)
    requires StateOk(s) && Ground(s.k) && IsSequence(ps, c)
    ensures var r := Feed(t, s, Csi(ps, c));
      && (Ground(r.k) <==> Handled(c))
      && (!Handled(c) ==> r.b == s.b && !r.k.modes.scroll && r.k.esc.active && r.k.esc.unhandled)
  {
    hide Feed, Step, Command, Read, FinalByte, Handled;
    SequenceRead(t, s, ps, c);
    ReadFacts(s.k, ps, c);
    FinalEnds(t, Read(s.k, ps, c), ViewOf(s.b), c);
  }

  lemma FinalEnds(t: Tables, k: Context, v: View, c: nat)
    requires ContextOk(k) && ViewOk(v, k) && !k.esc.decPrivate && !k.esc.unhandled && k.esc.active && !k.esc.osc
    requires !k.esc.discardNext && k.remaining == 0 && k.sets.select == 0 && c != 0x1b
    ensures var r := FinalByte(t, k, v, c);
      && (Ground(r.0) <==> Handled(c))
      && (!Handled(c) ==> r.1 == Nothing && !r.0.modes.scroll && r.0.esc.active && r.0.esc.unhandled)
  {
    hide Command, Handled;
    CommandHandled(t, k, v, c);
    if Handled(c) {
      CommandGround(t, k, v, c);
    }
  }

  lemma ReadFacts(k: Context, ps: seq<seq<nat>>, c: nat)
    requires IsSequence(ps, c) && ContextOk(k) && Ground(k)
    ensures var k1 := Read(k, ps, c);
      && ContextOk(k1) && k1 == k.(esc := k1.esc) && !k1.esc.decPrivate && !k1.esc.unhandled && k1.esc.active
      && !k1.esc.osc && !k1.esc.discardNext && k1.esc.count == |ps|
      && k1.esc.values[0] == Parameter(ps, 0, c) && k1.esc.values[1] == Parameter(ps, 1, c)
  {
  }

  lemma CommandGround(t: Tables, k: Context, v: View, c: nat)
    requires ContextOk(k) && ViewOk(v, k) && Handled(c)
    ensures Command(t, k, v, c).Some?
    ensures var r := Command(t, k, v, c).value.0; r.esc == k.esc && r.remaining == k.remaining && r.sets == k.sets
  {
    hide CursorCommand, EditCommand, Handled;
    CommandHandled(t, k, v, c);
  }

  /** A command that leaves the context alone. */
  lemma Runs(t: Tables, s: State, ps: seq<seq<nat>>, c: nat, a: Action)
    requires StateOk(s) && Ground(s.k) && IsSequence(ps, c)
    requires Command(t, Read(s.k, ps, c), ViewOf(s.b), c) == Some((Read(s.k, ps, c), a))
    ensures Feed(t, s, Csi(ps, c)) == State(After(s.k, ps, c), Apply(s.b, RegionOf(s.k), a))
  {
    hide Feed, Step, Command, Apply, Stored;
    SequenceRead(t, s, ps, c);
    ReadFacts(s.k, ps, c);
  }

  // ---------------------------------------------------------------- sequences that are not handled

  /** The parser behind the final byte of a sequence that is not handled. */
  predicate Swallowing(k: Context) {
    && k.esc.active && k.esc.csi && k.esc.unhandled && k.esc.offset >= 2 && !k.esc.osc && !k.esc.discardNext
    && !k.esc.decPrivate && k.remaining == 0 && k.sets.select == 0 && !k.modes.scroll
  }

  lemma SwallowsByte(t: Tables, s: State, c: nat)
    requires StateOk(s) && Swallowing(s.k) && 0x20 <= c <= 0x7e
    ensures var r := Step(t, s, c);
      && r.b == s.b && !r.k.modes.scroll && (if c < 0x40 then Swallowing(r.k) else Ground(r.k))
  {
    hide ControlSequence, Command, ParsePlain, Continue, EscapeCommand, OscParse, SelectCharset;
    var k1 := s.k.(esc := s.k.esc.(offset := s.k.esc.offset + 1));
    SwallowsInside(t, k1, ViewOf(s.b), c);
    assert s.k.(remaining := 0) == s.k;
    assert Parse(t, s.k, ViewOf(s.b), c) == ControlSequence(t, k1, ViewOf(s.b), c);
  }

  lemma SwallowsInside(t: Tables, k: Context, v: View, c: nat)
    requires ContextOk(k) && ViewOk(v, k) && Swallowing(k) && k.esc.offset > 2 && 0x20 <= c <= 0x7e
    ensures var r := ControlSequence(t, k, v, c);
      && r.1 == Nothing && !r.0.modes.scroll && (if c < 0x40 then Swallowing(r.0) else Ground(r.0))
  {
    hide Command, DecPrivate, Digit, Separator, Defaults;
    DefaultsOnly(k.esc, DefaultOf(c));
    if '0' as nat <= c <= '9' as nat {
      DigitOnly(k.esc, c - '0' as nat);
    }
    SeparatorOnly(k.esc);
  }

  /** Reading parameters changes parameters only. */
  predicate SameSequence(e: Escape, r: Escape) {
    r == e.(values := r.values, count := r.count, rrr := r.rrr)
  }

  lemma DefaultsOnly(e: Escape, d: nat)
    requires EscapeOk(e)
    ensures SameSequence(e, Defaults(e, d))
  {
  }

  lemma DigitOnly(e: Escape, d: nat)
    requires EscapeOk(e)
    ensures SameSequence(e, Digit(e, d))
  {
  }

  lemma SeparatorOnly(e: Escape)
    requires EscapeOk(e)
    ensures SameSequence(e, Separator(e))
  {
  }

  lemma {:induction false} Swallows(t: Tables, s: State, xs: seq<nat>)
    requires StateOk(s) && Swallowing(s.k) && forall i :: 0 <= i < |xs| ==> 0x20 <= xs[i] < 0x40
    ensures var r := Feed(t, s, xs); r.b == s.b && Swallowing(r.k)
  {
    hide Step, Swallowing;
    if xs == [] {
    } else {
      Swallows(t, s, xs[..|xs| - 1]);
      SwallowsByte(t, Feed(t, s, xs[..|xs| - 1]), xs[|xs| - 1]);
    }
  }

  /** Behind such a sequence, text is lost up to and with the first byte that is not a sign or a digit, and scrolling
      stays off. */
  lemma UnhandledSwallows(t: Tables, s: State, ps: seq<seq<nat>>, c: nat, xs: seq<nat>, d: nat)
    requires StateOk(s) && Ground(s.k) && IsSequence(ps, c) && !Handled(c)
    requires 0x40 <= d <= 0x7e && forall i :: 0 <= i < |xs| ==> 0x20 <= xs[i] < 0x40
    ensures var r := Feed(t, s, Csi(ps, c) + xs + [d]); r.b == s.b && Ground(r.k) && !r.k.modes.scroll
  {
    hide Feed, Step, Swallowing;
    SwallowStarts(t, s, ps, c);
    FeedAppend(t, s, Csi(ps, c), xs);
    Swallows(t, Feed(t, s, Csi(ps, c)), xs);
    FeedAppend(t, s, Csi(ps, c) + xs, [d]);
    FeedLast(t, Feed(t, s, Csi(ps, c) + xs), [d]);
    SwallowsByte(t, Feed(t, s, Csi(ps, c) + xs), d);
  }

  lemma SwallowStarts(t: Tables, s: State, ps: seq<seq<nat>>, c: nat)
    requires StateOk(s) && Ground(s.k) && IsSequence(ps, c) && !Handled(c)
    ensures var r := Feed(t, s, Csi(ps, c)); r.b == s.b && Swallowing(r.k)
  {
    hide Feed, Step, Command, Stored;
    SequenceRead(t, s, ps, c);
    CommandHandled(t, Read(s.k, ps, c), ViewOf(s.b), c);
  }

  // ---------------------------------------------------------------- moving the cursor

  function Up(k: Context, y: nat, n: nat): nat {
    if y >= k.top && y <= k.top + n then k.top else if y >= n then y - n else 0
  }

  /** A position counted from one; zero counts as one. */
  function FromOne(n: nat, limit: nat): nat
    requires limit > 0
  {
    Min(if n == 0 then 0 else n - 1, limit - 1)
  }

  /** Where the command should put a cursor at `x`, `y`. */
  function Target(k: Context, x: nat, y: nat, n: nat, c: char): (int, int)
    requires ContextOk(k) && x < k.cols && y < k.rows
  {
    match c
    case 'A' => (x, Up(k, y, n))
    case 'F' => (0, Up(k, y, n))
    case 'B' => (x, Down(k, y, n))
    case 'e' => (x, Down(k, y, n))
    case 'E' => (0, Down(k, y, n))
    case 'C' => (Min(x + n, k.cols - 1), y)
    case 'a' => (Min(x + n, k.cols - 1), y)
    case 'D' => (if n <= x then x - n else 0, y)
    case 'd' => (x, FromOne(n, k.rows))
    case 'G' => (FromOne(n, k.cols), y)
    case '`' => (FromOne(n, k.cols), y)
    case _ => (x, y)
  }

  /** It does unless it goes down from the row below the bottom margin, or to column or row zero. */
  predicate MovesRight(k: Context, y: nat, n: nat, c: char) {
    match c
    case 'B' => y != k.bottom
    case 'e' => y != k.bottom
    case 'E' => y != k.bottom
    case 'd' => n != 0 || k.rows == 1
    case 'G' => n != 0 || k.cols == 1
    case '`' => n != 0 || k.cols == 1
    case _ => true
  }

  lemma CommandTarget(k: Context, v: View, p: nat, q: nat, c: nat)
    requires ContextOk(k) && ViewOk(v, k) && c < 256 && c as char in "ABCDEFG`ade"
    ensures var a := CursorCommand(k, v, p, q, c);
      && a.Some? && a.value.Cursor? && a.value.x < k.cols && a.value.y < k.rows
      && ((a.value.x, a.value.y) == Target(k, v.x, v.y, p, c as char) <==> MovesRight(k, v.y, p, c as char))
  {
    hide UpFrom, DownFrom;
    CursorUp(k, v.y, p);
    CursorDown(k, v.y, p);
    DownInside(k, v.y, p);
  }

  lemma DownInside(k: Context, y: nat, n: nat)
    requires ContextOk(k) && y < k.rows
    ensures DownFrom(k, y, n) < k.rows
  {
  }

  /** CSI A, B, C, D, E, F, G, `, a, d and e put the cursor on their target if and only if `MovesRight`. */
  lemma CursorExact(t: Tables, s: State, ps: seq<seq<nat>>, c: nat)
    requires StateOk(s) && Ground(s.k) && IsSequence(ps, c) && c < 256 && c as char in "ABCDEFG`ade"
    ensures var x, y, n := CursorX(s.b), CursorY(s.b), Parameter(ps, 0, c);
      var (x', y') := Target(s.k, x, y, n, c as char);
      var r := Feed(t, s, Csi(ps, c));
      && r.k == After(s.k, ps, c) && r.b == s.b.(cx := r.b.cx, cy := r.b.cy)
      && ((r.b.cx, r.b.cy) == (x', y') <==> MovesRight(s.k, y, n, c as char))
  {
    hide Feed, Step, CursorCommand, Target, MovesRight, Stored;
    var k1, v := Read(s.k, ps, c), ViewOf(s.b);
    ReadFacts(s.k, ps, c);
    CommandTarget(k1, v, Parameter(ps, 0, c), Parameter(ps, 1, c), c);
    TargetSame(s.k, k1, v.x, v.y, Parameter(ps, 0, c), c as char);
    var a := CursorCommand(k1, v, Parameter(ps, 0, c), Parameter(ps, 1, c), c).value;
    CursorOnly(t, k1, v, c);
    Runs(t, s, ps, c, a);
  }

  lemma TargetSame(k: Context, k1: Context, x: nat, y: nat, n: nat, c: char)
    requires ContextOk(k) && ContextOk(k1) && k1 == k.(esc := k1.esc) && x < k.cols && y < k.rows
    ensures Target(k1, x, y, n, c) == Target(k, x, y, n, c) && MovesRight(k1, y, n, c) == MovesRight(k, y, n, c)
  {
  }

  lemma CursorOnly(t: Tables, k: Context, v: View, c: nat)
    requires ContextOk(k) && ViewOk(v, k) && MovesCursor(c)
    ensures var a := CursorCommand(k, v, k.esc.values[0], k.esc.values[1], c);
      a.Some? && Command(t, k, v, c) == Some((k, a.value))
  {
    hide CursorCommand;
    CursorHandled(k, v, k.esc.values[0], k.esc.values[1], c);
  }

  lemma EditOnly(t: Tables, k: Context, v: View, c: nat)
    requires ContextOk(k) && ViewOk(v, k) && Edits(c)
    ensures var a := EditCommand(k, v, k.esc.values[0], c); a.Some? && Command(t, k, v, c) == Some((k, a.value))
  {
    hide CursorCommand, EditCommand;
    CursorHandled(k, v, k.esc.values[0], k.esc.values[1], c);
    EditHandled(k, v, k.esc.values[0], c);
  }

  /** CSI row ; column H, or f, puts the cursor there, counted from one and kept on the screen. */
  lemma CursorPositioned(t: Tables, s: State, ps: seq<seq<nat>>, c: nat)
    requires StateOk(s) && Ground(s.k) && IsSequence(ps, c) && (c == 'H' as nat || c == 'f' as nat)
    ensures var row, column := Parameter(ps, 0, c), Parameter(ps, 1, c);
      Feed(t, s, Csi(ps, c))
      == State(After(s.k, ps, c), s.b.(cx := FromOne(column, s.b.cols), cy := FromOne(row, s.b.rows)))
  {
    hide Feed, Step, Stored;
    var k1, v := Read(s.k, ps, c), ViewOf(s.b);
    ReadFacts(s.k, ps, c);
    CursorOnly(t, k1, v, c);
    Runs(t, s, ps, c, CursorCommand(k1, v, Parameter(ps, 0, c), Parameter(ps, 1, c), c).value);
  }

  /** CSI s remembers where the cursor is, and CSI u puts it there. */
  lemma CursorSaved(t: Tables, s: State, ps: seq<seq<nat>>)
    requires StateOk(s) && Ground(s.k) && IsSequence(ps, 's' as nat)
    ensures Feed(t, s, Csi(ps, 's' as nat))
            == State(After(s.k, ps, 's' as nat).(savedX := CursorX(s.b), savedY := CursorY(s.b)), s.b)
  {
    hide Feed, Step, Stored;
    SequenceRead(t, s, ps, 's' as nat);
    ReadFacts(s.k, ps, 's' as nat);
  }

  lemma CursorRestored(t: Tables, s: State, ps: seq<seq<nat>>)
    requires StateOk(s) && Ground(s.k) && IsSequence(ps, 'u' as nat) && s.k.savedX < s.k.cols && s.k.savedY < s.k.rows
    ensures Feed(t, s, Csi(ps, 'u' as nat))
            == State(After(s.k, ps, 'u' as nat), s.b.(cx := s.k.savedX, cy := s.k.savedY))
  {
    hide Feed, Step, Stored;
    ReadFacts(s.k, ps, 'u' as nat);
    CursorOnly(t, Read(s.k, ps, 'u' as nat), ViewOf(s.b), 'u' as nat);
    Runs(t, s, ps, 'u' as nat, Cursor(s.k.savedX, s.k.savedY));
  }

  // ---------------------------------------------------------------- editing

  /** An editing sequence does its action and ends. */
  lemma EditRuns(t: Tables, s: State, ps: seq<seq<nat>>, c: nat)
    requires StateOk(s) && Ground(s.k) && IsSequence(ps, c) && Edits(c)
    ensures var a := EditCommand(s.k, ViewOf(s.b), Parameter(ps, 0, c), c);
      a.Some? && Feed(t, s, Csi(ps, c)) == State(After(s.k, ps, c), Apply(s.b, RegionOf(s.k), a.value))
  {
    hide Feed, Step, EditCommand, Stored, Edits;
    var k1, v := Read(s.k, ps, c), ViewOf(s.b);
    ReadFacts(s.k, ps, c);
    EditOnly(t, k1, v, c);
    EditSame(s.k, k1, v, Parameter(ps, 0, c), c);
    Runs(t, s, ps, c, EditCommand(k1, v, Parameter(ps, 0, c), c).value);
  }

  lemma EditSame(k: Context, k1: Context, v: View, p: nat, c: nat)
    requires ContextOk(k) && ContextOk(k1) && k1 == k.(esc := k1.esc) && ViewOk(v, k)
    ensures EditCommand(k1, v, p, c) == EditCommand(k, v, p, c)
  {
  }

  lemma RegionInside(s: State)
    requires StateOk(s)
    ensures Inside(RegionOf(s.k), s.b)
  {
  }

  /** CSI J erases from the cursor on, CSI 1 J up to the cursor, both exactly under their conditions, CSI 2 J and
      CSI 3 J everything, and any other parameter nothing. */
  lemma EraseDisplayBytes(t: Tables, s: State, ps: seq<seq<nat>>)
    requires StateOk(s) && Ground(s.k) && IsSequence(ps, 'J' as nat)
    ensures var x, y, n := CursorX(s.b), CursorY(s.b), Parameter(ps, 0, 'J' as nat); var g := RegionOf(s.k);
      var r, here := Feed(t, s, Csi(ps, 'J' as nat)).b, Index(x, y, s.b.cols);
      && (n == 0 ==> (r == SetCursor(Filled(s.b, here, |s.b.cells|), x, y) <==> BelowRight(s.b, g)))
      && (n == 1 ==> (r == SetCursor(Filled(s.b, 0, here + 1), x, y)
                      <==> AllBlank(s.b, FlowRows(s.b, g) * s.b.cols, here + 1)))
      && (n == 2 || n == 3 ==> r == Filled(s.b, 0, |s.b.cells|)) && (n > 3 ==> r == s.b)
  {
    hide Feed, Step, Index, Filled, BelowRight, AllBlank, Apply, EraseDisplay;
    EditRuns(t, s, ps, 'J' as nat);
    RegionInside(s);
    var n := Parameter(ps, 0, 'J' as nat);
    if n == 0 {
      EraseBelowExact(s.b, RegionOf(s.k), s.k);
    } else if n == 1 {
      EraseAboveExact(s.b, RegionOf(s.k), s.k);
    } else {
      EraseRest(s.b, RegionOf(s.k), s.k, n);
    }
  }

  lemma EraseRest(b: Backend, g: Region, k: Context, n: nat)
    requires WellFormed(b) && ContextOk(k) && k.rows == b.rows && k.cols == b.cols && n >= 2
    ensures Apply(b, g, EraseDisplay(k, ViewOf(b), n)) == if n <= 3 then Filled(b, 0, |b.cells|) else b
  {
    assert Clear(b, false).cells == Filled(b, 0, |b.cells|).cells;
  }

  /** CSI K, CSI 1 K and CSI 2 K. */
  lemma EraseLineBytes(t: Tables, s: State, ps: seq<seq<nat>>)
    requires StateOk(s) && Ground(s.k) && IsSequence(ps, 'K' as nat)
    ensures var x, y, n := CursorX(s.b), CursorY(s.b), Parameter(ps, 0, 'K' as nat);
      var r := Feed(t, s, Csi(ps, 'K' as nat)).b;
      && (n == 0 ==> (r == SetCursor(Blanked(s.b, y, x, s.b.cols), x, y) <==> ErasesRight(s.b, RegionOf(s.k))))
      && (n == 1 ==> (r == SetCursor(Blanked(s.b, y, 0, x + 1), x, y) <==> IsBlank(s.b, x, y)))
      && (n == 2 ==> r == SetCursor(Blanked(s.b, y, 0, s.b.cols), x, y)) && (n > 2 ==> r == s.b)
  {
    hide Feed, Step, Blanked, ErasesRight, Apply, EraseLine, IsBlank;
    EditRuns(t, s, ps, 'K' as nat);
    RegionInside(s);
    var n := Parameter(ps, 0, 'K' as nat);
    if n == 1 {
      EraseLineThroughExact(s.b, RegionOf(s.k), s.k);
    } else if n <= 2 {
      EraseLineExact(s.b, RegionOf(s.k), s.k, n);
    } else {
      EraseNothing(s.b, RegionOf(s.k), s.k, n);
    }
  }

  lemma EraseNothing(b: Backend, g: Region, k: Context, n: nat)
    requires WellFormed(b) && ContextOk(k) && k.rows == b.rows && k.cols == b.cols && n > 2
    ensures Apply(b, g, EraseLine(k, ViewOf(b), n)) == b
  {
  }

  /** CSI @ inserts blanks, CSI P deletes characters and CSI X erases them, exactly under their conditions. */
  lemma CharacterBytes(t: Tables, s: State, ps: seq<seq<nat>>)
    requires StateOk(s) && Ground(s.k) && IsSequence(ps, '@' as nat) && s.b.cols < WORD
    ensures var x, y, n := CursorX(s.b), CursorY(s.b), Parameter(ps, 0, '@' as nat); var g := RegionOf(s.k);
      && (Feed(t, s, Csi(ps, '@' as nat)).b == SetCursor(Inserted(s.b, x, y, n), x, y)
          <==> n > 0 || Blanked(s.b, y, x, s.b.cols) == s.b)
      && (Feed(t, s, Csi(ps, 'P' as nat)).b == SetCursor(Deleted(s.b, x, y, n), x, y) <==> DeletesRight(s.b, g, n))
      && (Feed(t, s, Csi(ps, 'X' as nat)).b == SetCursor(Blanked(s.b, y, x, Min(x + n, s.b.cols)), x, y)
          <==> ErasesCharsRight(s.b, g, Min(n, s.b.cols)))
  {
    hide Feed, Step, Blanked, DeletesRight, Inserted, Deleted, Apply, ErasesCharsRight, OpenGap;
    EditRuns(t, s, ps, '@' as nat);
    EditRuns(t, s, ps, 'P' as nat);
    EditRuns(t, s, ps, 'X' as nat);
    RegionInside(s);
    var n, g := Parameter(ps, 0, '@' as nat), RegionOf(s.k);
    GapOpened(s.b, g, n);
    DeleteExact(s.b, g, n);
    EraseCharsExact(s.b, g, n);
    MinTwice(CursorX(s.b), n, s.b.cols);
  }

  lemma MinTwice(x: nat, n: nat, cols: nat)
    ensures Min(x + Min(n, cols), cols) == Min(x + n, cols)
  {
  }

  lemma GapOpened(b: Backend, g: Region, n: nat)
    requires WellFormed(b)
    ensures var x, y := CursorX(b), CursorY(b);
      Apply(b, g, InsertBlanks(n)) == SetCursor(Inserted(b, x, y, n), x, y)
      <==> n > 0 || Blanked(b, y, x, b.cols) == b
  {
    hide OpenGap, Inserted, Blanked;
    InsertExact(b, CursorX(b), CursorY(b), n);
  }

  /** CSI L inserts lines and CSI M deletes them, exactly under their conditions. */
  lemma LineBytes(t: Tables, s: State, ps: seq<seq<nat>>)
    requires StateOk(s) && Ground(s.k) && IsSequence(ps, 'L' as nat)
    ensures var y, n := CursorY(s.b), Parameter(ps, 0, 'L' as nat); var g := RegionOf(s.k);
      && (Feed(t, s, Csi(ps, 'L' as nat)).b == MovedDown(s.b, y, g.bottom, n)
          <==> n == 0 || y < g.bottom || RowBlank(s.b, y, 0, s.b.cols))
      && (Feed(t, s, Csi(ps, 'M' as nat)).b == MovedUp(s.b, y, g.bottom, n)
          <==> LinesRepeat(s.b, g, y, Min(n, s.b.rows)))
  {
    hide Feed, Step, Apply, MovedUp, MovedDown, RowBlank, LinesRepeat;
    EditRuns(t, s, ps, 'L' as nat);
    EditRuns(t, s, ps, 'M' as nat);
    var n, g := Parameter(ps, 0, 'L' as nat), RegionOf(s.k);
    InsertLinesExact(s.b, g, Min(n, s.b.rows));
    DeleteLinesExact(s.b, g, Min(n, s.b.rows));
    MovesLimited(s.b, CursorY(s.b), g.bottom, n);
  }

  /** Moving by more rows than there are is moving by all of them. */
  lemma MovesLimited(b: Backend, top: nat, bottom: nat, n: nat)
    requires WellFormed(b) && bottom <= b.rows
    ensures MovedUp(b, top, bottom, Min(n, b.rows)) == MovedUp(b, top, bottom, n)
    ensures MovedDown(b, top, bottom, Min(n, b.rows)) == MovedDown(b, top, bottom, n)
  {
    assert MovedUp(b, top, bottom, Min(n, b.rows)).cells == MovedUp(b, top, bottom, n).cells;
    assert MovedDown(b, top, bottom, Min(n, b.rows)).cells == MovedDown(b, top, bottom, n).cells;
  }

  // ---------------------------------------------------------------- modes and margins

  /** The margins that CSI top ; bottom r asks for, counted from one: zero counts as one, and what is missing is the
      whole screen. */
  function AskedMargins(k: Context, ps: seq<seq<nat>>): (nat, nat) {
    var c := 'r' as nat;
    (if |ps| == 0 || Parameter(ps, 0, c) == 0 then 0 else Parameter(ps, 0, c) - 1,
     if |ps| <= 1 then k.rows else if Parameter(ps, 1, c) == 0 then 1 else Parameter(ps, 1, c))
  }

  /** CSI r sets the margins if they enclose at least two rows of the screen and to the whole screen otherwise, and puts
      the cursor home. */
  lemma MarginBytes(t: Tables, s: State, ps: seq<seq<nat>>)
    requires StateOk(s) && Ground(s.k) && IsSequence(ps, 'r' as nat)
    ensures var (top, bottom) := AskedMargins(s.k, ps); var r := Feed(t, s, Csi(ps, 'r' as nat));
      && r.b == s.b.(cx := 0, cy := 0)
      && r.k == After(s.k, ps, 'r' as nat).(top := r.k.top, bottom := r.k.bottom)
      && (r.k.top, r.k.bottom) == if top + 2 <= bottom <= s.k.rows then (top, bottom) else (0, s.k.rows)
  {
    hide Feed, Step, Stored;
    SequenceRead(t, s, ps, 'r' as nat);
    ReadFacts(s.k, ps, 'r' as nat);
  }

  /** CSI 4 h and CSI 4 l turn insert mode on and off; other numbers change nothing. */
  lemma ModeBytes(t: Tables, s: State, ps: seq<seq<nat>>, c: nat)
    requires StateOk(s) && Ground(s.k) && IsSequence(ps, c) && (c == 'h' as nat || c == 'l' as nat)
    ensures var on := if |ps| > 0 && Parameter(ps, 0, c) == 4 then c == 'h' as nat else s.k.modes.insert;
      Feed(t, s, Csi(ps, c)) == State(After(s.k, ps, c).(modes := s.k.modes.(insert := on)), s.b)
  {
    hide Feed, Step, Stored;
    SequenceRead(t, s, ps, c);
    ReadFacts(s.k, ps, c);
  }

  /** CSI m has the colours and the style chosen from its parameters, all of them and no others. */
  lemma ColourBytes(t: Tables, s: State, ps: seq<seq<nat>>)
    requires StateOk(s) && Ground(s.k) && IsSequence(ps, 'm' as nat)
    ensures var vs := seq(|ps|, i requires 0 <= i < |ps| => DecimalValue(ps[i]) % UINT);
      var l := t.sgr(Look(s.k.style, s.b.fg, s.b.bg), vs);
      Feed(t, s, Csi(ps, 'm' as nat))
      == State(After(s.k, ps, 'm' as nat).(style := l.style), s.b.(fg := l.fg, bg := l.bg))
  {
    hide Feed, Step;
    var vs := seq(|ps|, i requires 0 <= i < |ps| => DecimalValue(ps[i]) % UINT);
    SequenceRead(t, s, ps, 'm' as nat);
    ReadFacts(s.k, ps, 'm' as nat);
    assert Stored(ps, DefaultOf('m' as nat))[..|ps|] == vs;
  }
}
