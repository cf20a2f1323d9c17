/** What byte sequences mean to the terminal of kernel/drivers/video/flanterm/flanterm.c: characters in UTF-8, and
    control sequences with decimal parameters. */
module TerminalSequences {
  import opened Arithmetic
  import opened ScreenModel
  import opened TerminalModel
  import opened TerminalActions
  import opened TerminalErasing

  // ---------------------------------------------------------------- UTF-8

  /** The UTF-8 encoding of a code point outside ASCII (section 3 of RFC 3629). */
  function Utf8(p: nat): (s: seq<nat>)
    requires 0x80 <= p < 0x110000
    ensures Bytes(s)
  {
    if p < 0x800 then [0xc0 + p / 64, 0x80 + p % 64]
    else if p < 0x10000 then [0xe0 + p / 4096, 0x80 + p / 64 % 64, 0x80 + p % 64]
    else [0xf0 + p / 262144, 0x80 + p / 4096 % 64, 0x80 + p / 64 % 64, 0x80 + p % 64]
  }

  /** What is printed for a code point. */
  function Shape(t: Tables, p: nat): Action {
    match t.glyph(p)
    case Some(g) => Print(g)
    case None => Replacement(t.width(p))
  }

  lemma {:induction false} FeedFirst(t: Tables, s: State, c: nat, rest: seq<nat>)
    requires StateOk(s) && c < 256 && Bytes(rest)
    ensures Bytes([c] + rest) && Feed(t, s, [c] + rest) == Feed(t, Step(t, s, c), rest)
  {
    hide Step;
    FeedAppend(t, s, [c], rest);
    assert [c][..0] == [];
    assert Feed(t, s, []) == s;
  }

  /** A lead byte, whatever the parser was doing with escape sequences. */
  lemma LeadByte(t: Tables, s: State, c: nat)
    requires StateOk(s) && !s.k.esc.discardNext && s.k.remaining == 0 && 0xc0 <= c <= 0xf7
    ensures Step(t, s, c) == State(s.k.(remaining := if c < 0xe0 then 1 else if c < 0xf0 then 2 else 3,
      codePoint := LeadValue(c)), s.b)
  {
  }

  lemma MiddleByte(t: Tables, s: State, c: nat)
    requires StateOk(s) && !s.k.esc.discardNext && s.k.remaining > 1 && 0x80 <= c < 0xc0
    ensures Step(t, s, c) == State(s.k.(remaining := s.k.remaining - 1,
      codePoint := s.k.codePoint + (c - 0x80) * (if s.k.remaining == 3 then 4096 else 64)), s.b)
  {
  }

  lemma LastByte(t: Tables, s: State, c: nat)
    requires StateOk(s) && !s.k.esc.discardNext && s.k.remaining == 1 && 0x80 <= c < 0xc0
    ensures var p := s.k.codePoint + (c - 0x80);
      Step(t, s, c) == State(s.k.(remaining := 0, codePoint := p), Apply(s.b, RegionOf(s.k), Shape(t, p)))
  {
    assert RegionOf(s.k.(remaining := 0)) == RegionOf(s.k);
  }

  predicate Continuation(xs: seq<nat>) {
    |xs| <= 3 && forall i :: 0 <= i < |xs| ==> 0x80 <= xs[i] < 0xc0
  }

  /** What continuation bytes add to a code point. */
  function TailValue(xs: seq<nat>): nat
    requires Continuation(xs)
  {
    if xs == [] then 0
    else (xs[0] - 0x80) * (if |xs| == 3 then 4096 else if |xs| == 2 then 64 else 1) + TailValue(xs[1..])
  }

  lemma {:induction false} TailPrinted(t: Tables, s: State, xs: seq<nat>)
    requires StateOk(s) && !s.k.esc.discardNext && xs != [] && Continuation(xs) && s.k.remaining == |xs|
    ensures var p := s.k.codePoint + TailValue(xs);
      Feed(t, s, xs) == State(s.k.(remaining := 0, codePoint := p), Apply(s.b, RegionOf(s.k), Shape(t, p)))
    decreases |xs|
  {
    hide Step, Shape, Apply, Feed;
    assert xs == [xs[0]] + xs[1..];
    if |xs| == 1 {
      FeedLast(t, s, xs);
      LastByte(t, s, xs[0]);
    } else {
      MiddleByte(t, s, xs[0]);
      FeedFirst(t, s, xs[0], xs[1..]);
      TailPrinted(t, Step(t, s, xs[0]), xs[1..]);
    }
  }

  /** The value of a lead byte. */
  function LeadValue(c: nat): nat
    requires 0xc0 <= c <= 0xf7
  {
    if c < 0xe0 then (c - 0xc0) * 64 else if c < 0xf0 then (c - 0xe0) * 4096 else (c - 0xf0) * 262144
  }

  lemma Utf8Value(p: nat)
    requires 0x80 <= p < 0x110000
    ensures var u := Utf8(p);
      && u != [] && 0xc0 <= u[0] <= 0xf7 && Continuation(u[1..]) && LeadValue(u[0]) + TailValue(u[1..]) == p
      && |u| - 1 == (if u[0] < 0xe0 then 1 else if u[0] < 0xf0 then 2 else 3)
  {
    hide TailValue;
    var u := Utf8(p);
    Sixes(p);
    if p < 0x800 {
      assert u[1..] == [u[1]];
      TailOne(u[1]);
    } else if p < 0x10000 {
      assert u[1..] == [u[1], u[2]];
      TailTwo(u[1], u[2]);
    } else {
      assert u[1..] == [u[1], u[2], u[3]];
      TailThree(u[1], u[2], u[3]);
    }
  }

  /** A number in groups of six bits. */
  lemma Sixes(p: nat)
    requires p < 0x200000
    ensures p == p / 64 * 64 + p % 64
    ensures p / 64 * 64 == p / 4096 * 4096 + p / 64 % 64 * 64
    ensures p / 4096 * 4096 == p / 262144 * 262144 + p / 4096 % 64 * 4096
    ensures p < 0x800 ==> p / 64 < 0x20
    ensures p < 0x10000 ==> p / 4096 < 0x10
    ensures p / 262144 < 8
  {
  }

  lemma TailOne(a: nat)
    requires 0x80 <= a < 0xc0
    ensures Continuation([a]) && TailValue([a]) == a - 0x80
  {
    assert [a][1..] == [];
  }

  lemma TailTwo(a: nat, b: nat)
    requires 0x80 <= a < 0xc0 && 0x80 <= b < 0xc0
    ensures Continuation([a, b]) && TailValue([a, b]) == (a - 0x80) * 64 + (b - 0x80)
  {
    assert [a, b][1..] == [b];
    TailOne(b);
  }

  lemma TailThree(a: nat, b: nat, c: nat)
    requires 0x80 <= a < 0xc0 && 0x80 <= b < 0xc0 && 0x80 <= c < 0xc0
    ensures Continuation([a, b, c]) && TailValue([a, b, c]) == (a - 0x80) * 4096 + (b - 0x80) * 64 + (c - 0x80)
  {
    assert [a, b, c][1..] == [b, c];
    TailTwo(b, c);
  }

  /** Feeding the UTF-8 encoding of a code point prints that code point once and leaves the parser where it was,
      also in the middle of an escape sequence. */
  lemma Utf8Printed(t: Tables, s: State, p: nat)
    requires StateOk(s) && !s.k.esc.discardNext && s.k.remaining == 0 && 0x80 <= p < 0x110000
    ensures Feed(t, s, Utf8(p)) == State(s.k.(codePoint := p), Apply(s.b, RegionOf(s.k), Shape(t, p)))
  {
    hide Step, Shape, Apply, Feed, Utf8, TailValue;
    var u := Utf8(p);
    Utf8Value(p);
    LeadByte(t, s, u[0]);
    FeedFirst(t, s, u[0], u[1..]);
    assert u == [u[0]] + u[1..];
    TailPrinted(t, Step(t, s, u[0]), u[1..]);
  }

  lemma FeedLast(t: Tables, s: State, xs: seq<nat>)
    requires StateOk(s) && |xs| == 1 && Bytes(xs)
    ensures Feed(t, s, xs) == Step(t, s, xs[0])
  {
    assert xs[..0] == [];
    assert Feed(t, s, []) == s;
  }

  // ---------------------------------------------------------------- plain text

  /** Nothing but printing is going on: no sequence, no insert mode, the default character set. */
  predicate Printing(k: Context) {
    && !k.esc.active && !k.esc.discardNext && k.remaining == 0 && k.sets.select == 0 && !k.modes.insert
    && !(if k.sets.current == 0 then k.sets.g0Special else k.sets.g1Special)
  }

  predicate Printable(text: seq<nat>) {
    forall i :: 0 <= i < |text| ==> 0x20 <= text[i] <= 0x7e
  }

  lemma PrintByte(t: Tables, s: State, c: nat)
    requires StateOk(s) && Printing(s.k) && 0x20 <= c <= 0x7e
    ensures Step(t, s, c) == State(s.k, RawPut(s.b, c, RegionOf(s.k)))
  {
  }

  /** Text that fits into the line appears in it from the cursor on, in the current colours; the cursor follows, and
      nothing else changes. */
  lemma {:induction false} TextPrinted(t: Tables, s: State, text: seq<nat>)
    requires StateOk(s) && Printing(s.k) && Printable(text) && Bytes(text)
    requires s.b.cy < s.b.rows && s.b.cx + |text| <= s.b.cols
    ensures var r := Feed(t, s, text);
      && r == State(s.k, s.b.(cells := r.b.cells, cx := s.b.cx + |text|))
      && forall i :: 0 <= i < |s.b.cells| ==>
        var j := i - Index(s.b.cx, s.b.cy, s.b.cols);
        r.b.cells[i] == if 0 <= j < |text| then Cell(text[j], s.b.fg, s.b.bg) else s.b.cells[i]
  {
    hide Step;
    if text == [] {
    } else {
      var n := |text| - 1;
      TextPrinted(t, s, text[..n]);
      PrintByte(t, Feed(t, s, text[..n]), text[n]);
      IndexBound(s.b.cx + n, s.b.cy, s.b.rows, s.b.cols);
    }
  }

  /** Text of any length, as long as it ends above the bottom margin, goes on from line to line: it fills the cells in
      number order, and the cursor follows. */
  lemma {:induction false} TextFlows(t: Tables, s: State, text: seq<nat>)
    requires StateOk(s) && Printing(s.k) && Printable(text) && Bytes(text) && Flows(s.b, RegionOf(s.k))
    requires Index(s.b.cx, s.b.cy, s.b.cols) + |text| <= FlowRows(s.b, RegionOf(s.k)) * s.b.cols
    ensures var r, first := Feed(t, s, text), Index(s.b.cx, s.b.cy, s.b.cols);
      && r == State(s.k, s.b.(cells := r.b.cells, cx := r.b.cx, cy := r.b.cy))
      && Flows(r.b, RegionOf(s.k)) && Index(r.b.cx, r.b.cy, s.b.cols) == first + |text|
      && forall i :: 0 <= i < |s.b.cells| ==>
        r.b.cells[i] == if 0 <= i - first < |text| then Cell(text[i - first], s.b.fg, s.b.bg) else s.b.cells[i]
  {
    hide Step, RawPut, Index, Flows;
    if text == [] {
    } else {
      var n := |text| - 1;
      TextFlows(t, s, text[..n]);
      var c := Feed(t, s, text[..n]);
      PrintByte(t, c, text[n]);
      PutFlows(c.b, text[n], RegionOf(s.k));
    }
  }

  // ---------------------------------------------------------------- cursor movement

  /** CSI A stops at the top margin if it starts below it, and at the first row otherwise. */
  lemma CursorUp(k: Context, y: nat, n: nat)
    requires ContextOk(k)
    ensures UpFrom(k, y, n) == if y >= k.top && y <= k.top + n then k.top else if y >= n then y - n else 0
  {
  }

  /** Where CSI B should end: at the bottom margin if it starts above it, and at the last row otherwise. */
  function Down(k: Context, y: nat, n: nat): int
    requires ContextOk(k)
  {
    if y < k.bottom then Min(y + n, k.bottom - 1) else Min(y + n, k.rows - 1)
  }

  /** It does unless the cursor is in the row below the scroll region, from where it moves up. */
  lemma CursorDown(k: Context, y: nat, n: nat)
    requires ContextOk(k) && y < k.rows
    ensures DownFrom(k, y, n) == Down(k, y, n) <==> y != k.bottom
    ensures y == k.bottom ==> DownFrom(k, y, n) == y - 1
  {
  }

  // ---------------------------------------------------------------- control sequences

  /** Outside every sequence. */
  predicate Ground(k: Context) {
    && !k.esc.active && !k.esc.csi && !k.esc.osc && !k.esc.discardNext && !k.esc.decPrivate
    && k.remaining == 0 && k.sets.select == 0
  }

  /** Inside a control sequence, with `n` parameters read and perhaps another begun. */
  function InCsi(k: Context, offset: nat, vs: seq<nat>, n: nat, begun: bool): Context {
    k.(esc := k.esc.(active := true, csi := true, unhandled := false, offset := offset, values := vs, count := n,
                     rrr := begun))
  }

  predicate CsiOk(k: Context, b: Backend, vs: seq<nat>, n: nat) {
    StateOk(State(k, b)) && Ground(k.(esc := k.esc.(decPrivate := false))) && |vs| == MAX_VALUES && n < MAX_VALUES
  }

  lemma OpensCsi(t: Tables, s: State)
    requires StateOk(s) && Ground(s.k)
    ensures Feed(t, s, [0x1b, '[' as nat]) == State(InCsi(s.k, 1, seq(MAX_VALUES, _ => 0), 0, false), s.b)
  {
    FeedFirst(t, s, 0x1b, ['[' as nat]);
    assert [0x1b] + ['[' as nat] == [0x1b, '[' as nat];
    FeedLast(t, Step(t, s, 0x1b), ['[' as nat]);
    hide Feed;
    assert Step(t, s, 0x1b) == State(s.k.(esc := s.k.esc.(offset := 0, active := true)), s.b);
  }

  lemma DigitByte(t: Tables, k: Context, b: Backend, offset: nat, vs: seq<nat>, n: nat, begun: bool, d: nat)
    requires CsiOk(k, b, vs, n) && d < 10
    ensures Step(t, State(InCsi(k, offset, vs, n, begun), b), '0' as nat + d)
            == State(InCsi(k, offset + 1, vs[n := (vs[n] * 10 + d) % UINT], n, true), b)
  {
  }

  lemma SeparatorByte(t: Tables, k: Context, b: Backend, offset: nat, vs: seq<nat>, n: nat, begun: bool)
    requires CsiOk(k, b, vs, n) && (begun || vs[n] == 0)
    ensures Step(t, State(InCsi(k, offset, vs, n, begun), b), ';' as nat)
            == State(InCsi(k, offset + 1, vs, n + 1, false), b)
  {
  }

  /** A decimal number as its digits, from the first on. */
  predicate Decimals(ds: seq<nat>) {
    forall i :: 0 <= i < |ds| ==> ds[i] < 10
  }

  function DigitBytes(ds: seq<nat>): (r: seq<nat>)
    requires Decimals(ds)
    ensures |r| == |ds| && Bytes(r)
  {
    seq(|ds|, i requires 0 <= i < |ds| => '0' as nat + ds[i])
  }

  function DecimalValue(ds: seq<nat>): nat {
    if ds == [] then 0 else DecimalValue(ds[..|ds| - 1]) * 10 + ds[|ds| - 1]
  }

  /** Digits are taken in with the value so far in `vs[n]`. */
  lemma {:induction false} DigitsRead(t: Tables, k: Context, b: Backend, offset: nat, vs: seq<nat>, n: nat,
                                      ds: seq<nat>)
    requires CsiOk(k, b, vs, n) && vs[n] == 0 && Decimals(ds)
    ensures Feed(t, State(InCsi(k, offset, vs, n, false), b), DigitBytes(ds))
            == State(InCsi(k, offset + |ds|, vs[n := DecimalValue(ds) % UINT], n, ds != []), b)
  {
    hide Step, Feed;
    if ds == [] {
      assert vs[n := 0] == vs;
      FeedNothing(t, State(InCsi(k, offset, vs, n, false), b));
    } else {
      var rest, d := ds[..|ds| - 1], ds[|ds| - 1];
      DigitsRead(t, k, b, offset, vs, n, rest);
      assert DigitBytes(ds) == DigitBytes(rest) + ['0' as nat + d];
      FeedOne(t, State(InCsi(k, offset, vs, n, false), b), DigitBytes(rest), '0' as nat + d);
      DigitByte(t, k, b, offset + |rest|, vs[n := DecimalValue(rest) % UINT], n, rest != [], d);
      ModStep(DecimalValue(rest), d);
      assert vs[n := DecimalValue(rest) % UINT][n := DecimalValue(ds) % UINT] == vs[n := DecimalValue(ds) % UINT];
    }
  }

  lemma FeedOne(t: Tables, s: State, bytes: seq<nat>, c: nat)
    requires StateOk(s) && Bytes(bytes) && c < 256
    ensures Bytes(bytes + [c]) && Feed(t, s, bytes + [c]) == Step(t, Feed(t, s, bytes), c)
  {
    assert (bytes + [c])[..|bytes|] == bytes;
  }

  lemma ModStep(v: nat, d: nat)
    ensures (v % UINT * 10 + d) % UINT == (v * 10 + d) % UINT
  {
    var q := v / UINT;
    assert v * 10 + d == (v % UINT * 10 + d) + q * 10 * UINT;
  }

  predicate Parameters(ps: seq<seq<nat>>) {
    |ps| <= MAX_VALUES && forall i :: 0 <= i < |ps| ==> Decimals(ps[i])
  }

  /** Parameters, each with a semicolon behind it. */
  function Closed(ps: seq<seq<nat>>): (r: seq<nat>)
    requires Parameters(ps)
    ensures Bytes(r)
  {
    if ps == [] then [] else Closed(ps[..|ps| - 1]) + (DigitBytes(ps[|ps| - 1]) + [';' as nat])
  }

  /** The parameter array after `ps`. */
  function Stored(ps: seq<seq<nat>>, default: nat): (vs: seq<nat>)
    ensures |vs| == MAX_VALUES
  {
    seq(MAX_VALUES, i requires 0 <= i => if i < |ps| then DecimalValue(ps[i]) % UINT else default)
  }

  lemma StoredNext(ps: seq<seq<nat>>)
    requires 0 < |ps| <= MAX_VALUES
    ensures var n := |ps| - 1; Stored(ps[..n], 0)[n := DecimalValue(ps[n]) % UINT] == Stored(ps, 0)
  {
  }

  lemma {:induction false} ClosedRead(t: Tables, k: Context, b: Backend, offset: nat, ps: seq<seq<nat>>)
    requires CsiOk(k, b, Stored([], 0), 0) && Parameters(ps)
    ensures Feed(t, State(InCsi(k, offset, Stored([], 0), 0, false), b), Closed(ps))
            == State(InCsi(k, offset + |Closed(ps)|, Stored(ps, 0), |ps|, false), b)
  {
    hide Step, Feed, Stored;
    var s := State(InCsi(k, offset, Stored([], 0), 0, false), b);
    if ps == [] {
      FeedNothing(t, s);
    } else {
      var n := |ps| - 1;
      var rest, ds := ps[..n], ps[n];
      ClosedRead(t, k, b, offset, rest);
      FeedAppend(t, s, Closed(rest), DigitBytes(ds) + [';' as nat]);
      ClosedOne(t, k, b, offset + |Closed(rest)|, ps);
    }
  }

  lemma FeedNothing(t: Tables, s: State)
    requires StateOk(s)
    ensures Feed(t, s, []) == s
  {
  }

  /** The last of the parameters, with its semicolon. */
  lemma ClosedOne(t: Tables, k: Context, b: Backend, offset: nat, ps: seq<seq<nat>>)
    requires CsiOk(k, b, Stored([], 0), 0) && Parameters(ps) && ps != []
    ensures var n := |ps| - 1; var text := DigitBytes(ps[n]) + [';' as nat];
      Feed(t, State(InCsi(k, offset, Stored(ps[..n], 0), n, false), b), text)
      == State(InCsi(k, offset + |text|, Stored(ps, 0), |ps|, false), b)
  {
    hide Step, Feed;
    var n := |ps| - 1;
    var ds, vs := ps[n], Stored(ps[..n], 0);
    var s := State(InCsi(k, offset, vs, n, false), b);
    FeedAppend(t, s, DigitBytes(ds), [';' as nat]);
    DigitsRead(t, k, b, offset, vs, n, ds);
    StoredNext(ps);
    FeedLast(t, Feed(t, s, DigitBytes(ds)), [';' as nat]);
    SeparatorByte(t, k, b, offset + |ds|, Stored(ps, 0), n, ds != []);
  }

  /** At least one parameter, the last of them not empty. */
  predicate Given(ps: seq<seq<nat>>) {
    Parameters(ps) && ps != [] && ps[|ps| - 1] != []
  }

  /** The text of a control sequence between its introducer and its final byte. */
  function ParameterText(ps: seq<seq<nat>>): (r: seq<nat>)
    requires Given(ps)
    ensures Bytes(r) && r != []
  {
    Closed(ps[..|ps| - 1]) + DigitBytes(ps[|ps| - 1])
  }

  predicate Final(c: nat) {
    0x1c <= c < 0x80 && !('0' as nat <= c <= '9' as nat) && c != ';' as nat
  }

  function DefaultOf(c: nat): nat {
    if c == 'J' as nat || c == 'K' as nat || c == 'q' as nat then 0 else 1
  }

  lemma FinalRead(t: Tables, k: Context, b: Backend, offset: nat, ps: seq<seq<nat>>, c: nat)
    requires CsiOk(k, b, Stored([], 0), 0) && 0 < |ps| <= MAX_VALUES && offset >= 2 && Final(c)
    ensures var k1 := InCsi(k, offset + 1, Stored(ps, DefaultOf(c)), |ps|, false);
      var r := FinalByte(t, k1, ViewOf(b), c);
      Step(t, State(InCsi(k, offset, Stored(ps, 0), |ps| - 1, true), b), c)
      == State(r.0, Apply(b, RegionOf(k), r.1))
  {
    hide FinalByte, Apply;
    var vs := Stored(ps, 0);
    assert vs[..|ps|] + seq(MAX_VALUES - |ps|, _ => DefaultOf(c)) == Stored(ps, DefaultOf(c));
  }

  /** A sequence with parameters, from behind its introducer on. */
  lemma ParametersRead(t: Tables, k: Context, b: Backend, offset: nat, ps: seq<seq<nat>>, c: nat)
    requires CsiOk(k, b, Stored([], 0), 0) && Given(ps) && Final(c) && offset >= 1
    ensures var text := ParameterText(ps);
      var k1 := InCsi(k, offset + 1 + |text|, Stored(ps, DefaultOf(c)), |ps|, false);
      var r := FinalByte(t, k1, ViewOf(b), c);
      Feed(t, State(InCsi(k, offset, Stored([], 0), 0, false), b), text + [c])
      == State(r.0, Apply(b, RegionOf(k), r.1))
  {
    hide Step, Feed, FinalByte, Apply, Stored;
    var n, s := |ps| - 1, State(InCsi(k, offset, Stored([], 0), 0, false), b);
    var head, last := Closed(ps[..n]), DigitBytes(ps[n]);
    ClosedRead(t, k, b, offset, ps[..n]);
    FeedAppend(t, s, head, last);
    LastDigits(t, k, b, offset + |head|, ps);
    assert head + last == ParameterText(ps);
    FeedAppend(t, s, ParameterText(ps), [c]);
    FinalRead(t, k, b, offset + |ParameterText(ps)|, ps, c);
    FeedLast(t, Feed(t, s, ParameterText(ps)), [c]);
  }

  /** A control sequence with up to 16 decimal parameters reaches its command with exactly their values in 32-bit
      arithmetic, zero for the empty ones, defaults for the missing ones, and nothing on the screen changed before. */
  lemma ControlRead(t: Tables, s: State, ps: seq<seq<nat>>, c: nat)
    requires StateOk(s) && Ground(s.k) && Given(ps) && Final(c)
    ensures var text := ParameterText(ps);
      var k1 := InCsi(s.k, 2 + |text|, Stored(ps, DefaultOf(c)), |ps|, false);
      var r := FinalByte(t, k1, ViewOf(s.b), c);
      Feed(t, s, [0x1b, '[' as nat] + text + [c]) == State(r.0, Apply(s.b, RegionOf(s.k), r.1))
  {
    hide Step, Feed, FinalByte, Apply, Stored;
    var intro, text := [0x1b, '[' as nat], ParameterText(ps);
    StoredNone();
    OpensCsi(t, s);
    assert intro + text + [c] == intro + (text + [c]);
    FeedAppend(t, s, intro, text + [c]);
    ParametersRead(t, s.k, s.b, 1, ps, c);
  }

  predicate OfParameter(c: nat) {
    '0' as nat <= c <= '9' as nat || c == ';' as nat
  }

  lemma ExtraByte(t: Tables, k: Context, b: Backend, offset: nat, vs: seq<nat>, c: nat)
    requires CsiOk(k, b, vs, 0) && OfParameter(c)
    ensures Step(t, State(InCsi(k, offset, vs, MAX_VALUES, false), b), c)
            == State(InCsi(k, offset + 1, vs, MAX_VALUES, false), b)
  {
  }

  /** After 16 parameters, digits and semicolons are ignored. */
  lemma {:induction false} ExtraIgnored(t: Tables, k: Context, b: Backend, offset: nat, vs: seq<nat>, extra: seq<nat>)
    requires CsiOk(k, b, vs, 0) && Bytes(extra) && forall i :: 0 <= i < |extra| ==> OfParameter(extra[i])
    ensures Feed(t, State(InCsi(k, offset, vs, MAX_VALUES, false), b), extra)
            == State(InCsi(k, offset + |extra|, vs, MAX_VALUES, false), b)
  {
    hide Step, CsiOk;
    if extra == [] {
    } else {
      var n := |extra| - 1;
      ExtraIgnored(t, k, b, offset, vs, extra[..n]);
      ExtraByte(t, k, b, offset + n, vs, extra[n]);
    }
  }

  /** A DEC private sequence, ESC [ ? with parameters. It shows or hides the cursor if it begins with 25 and ends with h
      or l, changes nothing else, and ends. */
  lemma PrivateRead(t: Tables, s: State, ps: seq<seq<nat>>, c: nat)
    requires StateOk(s) && Ground(s.k) && Given(ps) && Final(c)
    ensures var r := Feed(t, s, [0x1b, '[' as nat, '?' as nat] + ParameterText(ps) + [c]);
      var shows := DecimalValue(ps[0]) % UINT == 25 && (c == 'h' as nat || c == 'l' as nat);
      var modes := if shows then s.k.modes.(cursor := c == 'h' as nat) else s.k.modes;
      r == State(s.k.(modes := modes, esc := r.k.esc), s.b) && Ground(r.k)
  {
    hide Step, Feed, ParameterText;
    var intro, text := [0x1b, '[' as nat], ParameterText(ps);
    var k1 := s.k.(esc := s.k.esc.(decPrivate := true));
    StoredNone();
    OpensCsi(t, s);
    FeedAppend(t, s, intro, ['?' as nat]);
    assert intro + ['?' as nat] == [0x1b, '[' as nat, '?' as nat];
    FeedLast(t, Feed(t, s, intro), ['?' as nat]);
    PrivateMark(t, s);
    assert intro + ['?' as nat] + text + [c] == (intro + ['?' as nat]) + (text + [c]);
    FeedAppend(t, s, intro + ['?' as nat], text + [c]);
    ParametersRead(t, k1, s.b, 2, ps, c);
  }

  lemma PrivateMark(t: Tables, s: State)
    requires StateOk(s) && Ground(s.k)
    ensures var k1 := s.k.(esc := s.k.esc.(decPrivate := true));
      Step(t, State(InCsi(s.k, 1, Stored([], 0), 0, false), s.b), '?' as nat)
      == State(InCsi(k1, 2, Stored([], 0), 0, false), s.b)
  {
  }

  lemma StoredNone()
    ensures Stored([], 0) == seq(MAX_VALUES, _ => 0)
  {
  }

  lemma LastDigits(t: Tables, k: Context, b: Backend, offset: nat, ps: seq<seq<nat>>)
    requires CsiOk(k, b, Stored([], 0), 0) && Given(ps)
    ensures var n := |ps| - 1;
      Feed(t, State(InCsi(k, offset, Stored(ps[..n], 0), n, false), b), DigitBytes(ps[n]))
      == State(InCsi(k, offset + |ps[n]|, Stored(ps, 0), n, true), b)
  {
    hide Step, Feed;
    var n := |ps| - 1;
    DigitsRead(t, k, b, offset, Stored(ps[..n], 0), n, ps[n]);
    StoredNext(ps);
  }
}
