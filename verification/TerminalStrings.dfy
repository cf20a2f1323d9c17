/** Operating system commands: strings between ESC ] and BEL or ESC \. */
module TerminalStrings {
  import opened ScreenModel
  import opened TerminalModel
  import opened TerminalActions
  import opened TerminalSequences
  import opened TerminalControls

  /** A code point that ends no string. */
  predicate InString(p: nat) {
    p < 0x110000 && p != 7 && p != 0x18 && p != 0x1a && p != 0x1b
  }

  predicate IsString(ps: seq<nat>) {
    forall i :: 0 <= i < |ps| ==> InString(ps[i])
  }

  function CharBytes(p: nat): (s: seq<nat>)
    requires InString(p)
    ensures Bytes(s)
  {
    if p < 0x80 then [p] else Utf8(p)
  }

  function StringBytes(ps: seq<nat>): (s: seq<nat>)
    requires IsString(ps)
    ensures Bytes(s)
  {
    if ps == [] then [] else StringBytes(ps[..|ps| - 1]) + CharBytes(ps[|ps| - 1])
  }

  /** The screen after printing the characters of a string outside ASCII. */
  function Drawn(t: Tables, b: Backend, g: Region, ps: seq<nat>): (r: Backend)
    requires WellFormed(b)
    ensures WellFormed(r) && r.rows == b.rows && r.cols == b.cols
  {
    if ps == [] then b
    else
      var n := |ps| - 1;
      var b1 := Drawn(t, b, g, ps[..n]);
      if ps[n] < 0x80 then b1 else Apply(b1, g, Shape(t, ps[n]))
  }

  /** The parser inside a string that began in `k`. */
  predicate Inner(k: Context, r: Context, escaped: bool) {
    r == k.(esc := k.esc.(active := true, osc := true, oscEscape := escaped, offset := r.esc.offset),
            codePoint := r.codePoint)
  }

  /** The parser after it. */
  predicate Outer(k: Context, r: Context) {
    r == k.(esc := k.esc.(oscEscape := false, offset := r.esc.offset), codePoint := r.codePoint)
  }

  lemma StringOpens(t: Tables, s: State)
    requires StateOk(s) && Ground(s.k)
    ensures var r := Feed(t, s, [0x1b, ']' as nat]); r.b == s.b && Inner(s.k, r.k, false)
  {
    hide Feed, Step;
    EscapeByte(t, s, ']' as nat);
  }

  lemma StringByte(t: Tables, k: Context, s: State, p: nat)
    requires StateOk(s) && Ground(k) && Inner(k, s.k, false) && InString(p) && p < 0x80
    ensures var r := Step(t, s, p); r.b == s.b && Inner(k, r.k, false)
  {
  }

  lemma StringChar(t: Tables, k: Context, s: State, p: nat)
    requires StateOk(s) && Ground(k) && Inner(k, s.k, false) && InString(p)
    ensures var r := Feed(t, s, CharBytes(p));
      && r.b == (if p < 0x80 then s.b else Apply(s.b, RegionOf(s.k), Shape(t, p))) && Inner(k, r.k, false)
  {
    hide Feed, Step, Apply, Shape;
    if p < 0x80 {
      FeedLast(t, s, [p]);
      StringByte(t, k, s, p);
    } else {
      Utf8Printed(t, s, p);
    }
  }

  lemma {:induction false} StringInner(t: Tables, k: Context, s: State, ps: seq<nat>)
    requires StateOk(s) && Ground(k) && Inner(k, s.k, false) && IsString(ps)
    ensures var r := Feed(t, s, StringBytes(ps)); r.b == Drawn(t, s.b, RegionOf(k), ps) && Inner(k, r.k, false)
  {
    hide Feed, Step, Apply, Shape, CharBytes;
    if ps == [] {
      FeedNothing(t, s);
    } else {
      var n := |ps| - 1;
      StringInner(t, k, s, ps[..n]);
      FeedAppend(t, s, StringBytes(ps[..n]), CharBytes(ps[n]));
      StringChar(t, k, Feed(t, s, StringBytes(ps[..n])), ps[n]);
    }
  }

  /** The bytes of a string and what ends it. */
  function Command(ps: seq<nat>, end: seq<nat>): (s: seq<nat>)
    requires IsString(ps) && Bytes(end)
    ensures Bytes(s)
  {
    [0x1b, ']' as nat] + StringBytes(ps) + end
  }

  lemma StringRead(t: Tables, s: State, ps: seq<nat>, end: seq<nat>) returns (r: State)
    requires StateOk(s) && Ground(s.k) && IsString(ps) && Bytes(end)
    ensures StateOk(r) && r.b == Drawn(t, s.b, RegionOf(s.k), ps) && Inner(s.k, r.k, false)
    ensures Feed(t, s, Command(ps, end)) == Feed(t, r, end)
  {
    hide Feed, Step, Drawn;
    var open := [0x1b, ']' as nat];
    StringOpens(t, s);
    FeedAppend(t, s, open, StringBytes(ps));
    StringInner(t, s.k, Feed(t, s, open), ps);
    FeedAppend(t, s, open + StringBytes(ps), end);
    r := Feed(t, s, open + StringBytes(ps));
  }

  /** A string that BEL or ESC \ ends does to the screen what its characters outside ASCII do alone, which are printed,
      and nothing else; the parser is then outside every sequence. */
  lemma StringExact(t: Tables, s: State, ps: seq<nat>, end: seq<nat>)
    requires StateOk(s) && Ground(s.k) && IsString(ps) && (end == [7] || end == [0x1b, '\\' as nat])
    ensures var r := Feed(t, s, Command(ps, end));
      r.b == Drawn(t, s.b, RegionOf(s.k), ps) && Outer(s.k, r.k) && Ground(r.k)
  {
    hide Feed, Step, Drawn, StringBytes;
    var r := StringRead(t, s, ps, end);
    if end == [7] {
      FeedLast(t, r, end);
      BelEnds(t, s.k, r);
    } else {
      assert [0x1b] + ['\\' as nat] == end;
      FeedFirst(t, r, 0x1b, ['\\' as nat]);
      EscapeEnds(t, s.k, r);
      FeedLast(t, Step(t, r, 0x1b), ['\\' as nat]);
    }
  }

  lemma BelEnds(t: Tables, k: Context, s: State)
    requires StateOk(s) && Ground(k) && Inner(k, s.k, false)
    ensures var r := Step(t, s, 7); r.b == s.b && Outer(k, r.k)
  {
  }

  lemma EscapeEnds(t: Tables, k: Context, s: State)
    requires StateOk(s) && Ground(k) && Inner(k, s.k, false)
    ensures var r := Step(t, s, 0x1b); r.b == s.b && Inner(k, r.k, true)
    ensures var r := Step(t, Step(t, s, 0x1b), '\\' as nat); r.b == s.b && Outer(k, r.k)
  {
    EscapeMarks(t, k, s);
    MarkEnds(t, k, Step(t, s, 0x1b));
  }

  lemma EscapeMarks(t: Tables, k: Context, s: State)
    requires StateOk(s) && Ground(k) && Inner(k, s.k, false)
    ensures var r := Step(t, s, 0x1b); r.b == s.b && Inner(k, r.k, true)
  {
  }

  lemma MarkEnds(t: Tables, k: Context, s: State)
    requires StateOk(s) && Ground(k) && Inner(k, s.k, true)
    ensures var r := Step(t, s, '\\' as nat); r.b == s.b && Outer(k, r.k)
  {
  }

  /** So a string of ASCII characters is ignored. */
  lemma {:induction false} AsciiIgnored(t: Tables, b: Backend, g: Region, ps: seq<nat>)
    requires WellFormed(b) && forall i :: 0 <= i < |ps| ==> ps[i] < 0x80
    ensures Drawn(t, b, g, ps) == b
  {
    if ps == [] {
    } else {
      AsciiIgnored(t, b, g, ps[..|ps| - 1]);
    }
  }

  /** Another character that has a glyph is not, if there is room in the line. */
  lemma OtherPrinted(t: Tables, b: Backend, g: Region, p: nat)
    requires WellFormed(b) && p >= 0x80 && t.glyph(p).Some? && b.cx < b.cols
    ensures Drawn(t, b, g, [p]) == RawPut(b, t.glyph(p).value, g) != b
  {
    assert [p][..0] == [];
    assert Drawn(t, b, g, []) == b;
  }

  /** ESC and another byte than `\` end the string and are an escape sequence of their own. */
  lemma StringCut(t: Tables, s: State, ps: seq<nat>, c: nat)
    requires StateOk(s) && Ground(s.k) && IsString(ps) && c < 0x80 && c != '\\' as nat && c != 0x18 && c != 0x1a
    requires forall i :: 0 <= i < |ps| ==> ps[i] < 0x80
    ensures var r, q := Feed(t, s, Command(ps, [0x1b, c])), Feed(t, s, [0x1b, c]);
      r.b == q.b && Alike(q.k, r.k)
  {
    hide Feed, Step, Drawn, StringBytes;
    AsciiIgnored(t, s.b, RegionOf(s.k), ps);
    var r := StringRead(t, s, ps, [0x1b, c]);
    assert [0x1b] + [c] == [0x1b, c];
    FeedFirst(t, r, 0x1b, [c]);
    EscapeMarks(t, s.k, r);
    FeedLast(t, Step(t, r, 0x1b), [c]);
    EscapeByte(t, s, c);
    MarkCuts(t, s.k, Step(t, r, 0x1b), c);
  }

  lemma MarkCuts(t: Tables, k: Context, s: State, c: nat)
    requires StateOk(s) && Ground(k) && Inner(k, s.k, true) && c < 0x80 && c != '\\' as nat && c != 0x18 && c != 0x1a
    ensures ContextOk(k) && k.rows == s.b.rows && k.cols == s.b.cols
    ensures var k1 := k.(esc := k.esc.(offset := 1, active := true));
      var r, q := Step(t, s, c), EscapeCommand(k1, ViewOf(s.b), c);
      r.b == Apply(s.b, RegionOf(k), q.1) && Alike(q.0, r.k)
  {
    hide Apply, EscapeCommand, Step;
    var k1 := k.(esc := k.esc.(offset := 1, active := true));
    var k2 := s.k.(esc := s.k.esc.(osc := false, oscEscape := false, offset := s.k.esc.offset + 1));
    MarkByte(t, k, s, c);
    CommandSame(k1, k2, ViewOf(s.b), c);
  }

  lemma MarkByte(t: Tables, k: Context, s: State, c: nat)
    requires StateOk(s) && Ground(k) && Inner(k, s.k, true) && c < 0x80 && c != '\\' as nat && c != 0x18 && c != 0x1a
    ensures var k2 := s.k.(esc := s.k.esc.(osc := false, oscEscape := false, offset := s.k.esc.offset + 1));
      var q := EscapeCommand(k2, ViewOf(s.b), c); Step(t, s, c) == State(q.0, Apply(s.b, RegionOf(k), q.1))
  {
    hide Apply, EscapeCommand;
  }

  /** Two states of the parser that differ only in how it came there. */
  predicate Alike(p: Context, q: Context) {
    q == p.(esc := p.esc.(offset := q.esc.offset, oscEscape := q.esc.oscEscape), codePoint := q.codePoint)
  }

  lemma PartsSame(k1: Context, k2: Context, v: View, c: nat)
    requires ContextOk(k1) && ContextOk(k2) && ViewOk(v, k1) && Alike(k1, k2)
    ensures LineCommand(k1, v, c) == LineCommand(k2, v, c) && Alike(Reinit(k1), Reinit(k2))
    ensures var e1, e2 := StartControl(k1.esc), StartControl(k2.esc);
      e2 == e1.(offset := e2.offset, oscEscape := e2.oscEscape)
  {
  }

  ghost predicate SameCommand(k1: Context, k2: Context, v: View, c: nat)
    requires ContextOk(k1) && ContextOk(k2) && ViewOk(v, k1) && ViewOk(v, k2)
  {
    var p, q := EscapeCommand(k1, v, c), EscapeCommand(k2, v, c);
    p.1 == q.1 && Alike(p.0, q.0)
  }

  lemma OpeningSame(k1: Context, k2: Context, v: View, c: nat)
    requires ContextOk(k1) && ContextOk(k2) && ViewOk(v, k1) && Alike(k1, k2)
    requires c == ']' as nat || c == '[' as nat || c == 'c' as nat
    ensures SameCommand(k1, k2, v, c)
  {
    hide LineCommand, Reinit, StartControl;
    PartsSame(k1, k2, v, c);
  }

  lemma SavingSame(k1: Context, k2: Context, v: View, c: nat)
    requires ContextOk(k1) && ContextOk(k2) && ViewOk(v, k1) && Alike(k1, k2)
    requires c == '7' as nat || c == '8' as nat
    ensures SameCommand(k1, k2, v, c)
  {
    hide LineCommand, Reinit, StartControl;
    PartsSame(k1, k2, v, c);
  }

  lemma CharsetSame(k1: Context, k2: Context, v: View, c: nat)
    requires ContextOk(k1) && ContextOk(k2) && ViewOk(v, k1) && Alike(k1, k2)
    requires c == '(' as nat || c == ')' as nat
    ensures SameCommand(k1, k2, v, c)
  {
    hide LineCommand, Reinit, StartControl;
    PartsSame(k1, k2, v, c);
  }

  lemma OtherSame(k1: Context, k2: Context, v: View, c: nat)
    requires ContextOk(k1) && ContextOk(k2) && ViewOk(v, k1) && Alike(k1, k2)
    requires c != ']' as nat && c != '[' as nat && c != 'c' as nat && c != '7' as nat && c != '8' as nat
    requires c != '(' as nat && c != ')' as nat
    ensures SameCommand(k1, k2, v, c)
  {
    hide LineCommand, Reinit, StartControl;
    PartsSame(k1, k2, v, c);
  }

  /** The commands of escape sequences do not depend on that. */
  lemma CommandSame(k1: Context, k2: Context, v: View, c: nat)
    requires ContextOk(k1) && ContextOk(k2) && ViewOk(v, k1) && Alike(k1, k2)
    ensures SameCommand(k1, k2, v, c)
  {
    hide SameCommand;
    if c == ']' as nat || c == '[' as nat || c == 'c' as nat {
      OpeningSame(k1, k2, v, c);
    } else if c == '7' as nat || c == '8' as nat {
      SavingSame(k1, k2, v, c);
    } else if c == '(' as nat || c == ')' as nat {
      CharsetSame(k1, k2, v, c);
    } else {
      OtherSame(k1, k2, v, c);
    }
  }
}
