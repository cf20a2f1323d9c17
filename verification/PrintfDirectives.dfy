/** Format directives as text: how they are read, and what they mean. */
module PrintfDirectives {
  import opened Wrappers
  import opened PrintfModel
  import opened PrintfTheorems

  // ---------------------------------------------------------------- directives

  /** A width or precision: a decimal number, perhaps empty, or an asterisk for an argument. */
  datatype Amount = Digits(text: string) | Asterisk

  /** A directive as section 7.21.6.1 of ISO C11 writes it. */
  datatype Directive = Directive(flags: string, width: Amount, prec: Option<Amount>, modifier: Modifier, conv: char)

  predicate FlagChar(c: char) {
    c == '-' || c == '+' || c == ' ' || c == '#' || c == '0'
  }

  /** The conversion specifiers of the standard without floating point, and `b` and `B` of C23. */
  predicate Letter(c: char) {
    || c == 'd' || c == 'i' || c == 'o' || c == 'u' || c == 'x' || c == 'X' || c == 'b' || c == 'B'
    || c == 'c' || c == 's' || c == 'p' || c == '%'
  }

  function DigitValue(c: char): Option<nat> {
    match c
    case '0' => Some(0)
    case '1' => Some(1)
    case '2' => Some(2)
    case '3' => Some(3)
    case '4' => Some(4)
    case '5' => Some(5)
    case '6' => Some(6)
    case '7' => Some(7)
    case '8' => Some(8)
    case '9' => Some(9)
    case _ => None
  }

  predicate AllDecimal(s: string) {
    forall i :: 0 <= i < |s| ==> DigitValue(s[i]).Some?
  }

  predicate IsAmount(a: Amount) {
    a.Digits? ==> AllDecimal(a.text)
  }

  predicate WellWritten(d: Directive) {
    && (forall i :: 0 <= i < |d.flags| ==> FlagChar(d.flags[i]))
    && IsAmount(d.width) && (d.width.Digits? && d.width.text != "" ==> d.width.text[0] != '0')
    && (d.prec.Some? ==> IsAmount(d.prec.value))
    && Letter(d.conv)
  }

  function ModifierText(m: Modifier): string {
    match m
    case Plain => ""
    case Short => "h"
    case Char => "hh"
    case Long => "l"
    case LongLong => "ll"
    case IntMax => "j"
    case SizeT => "z"
    case PtrDiff => "t"
  }

  function AmountText(a: Amount): string {
    match a
    case Digits(t) => t
    case Asterisk => "*"
  }

  function PrecText(prec: Option<Amount>): string {
    match prec
    case None => ""
    case Some(p) => "." + AmountText(p)
  }

  function Text(d: Directive): string {
    "%" + (d.flags + (AmountText(d.width) + (PrecText(d.prec) + (ModifierText(d.modifier) + [d.conv]))))
  }

  /** The value of a decimal number, zero for none. */
  function Decimal(s: string): nat
    requires AllDecimal(s)
  {
    if s == "" then 0 else Decimal(s[..|s| - 1]) * 10 + DigitValue(s[|s| - 1]).value
  }

  function AmountValue(a: Amount): nat
    requires IsAmount(a)
  {
    match a
    case Digits(t) => Decimal(t)
    case Asterisk => 0
  }

  /** `-` overrides `0`, `+` overrides the blank. */
  function FlagMeaning(flags: string): Flags {
    Flags('-' in flags, '0' in flags && '-' !in flags, if '+' in flags then '+' else if ' ' in flags then ' ' else NUL,
          '#' in flags)
  }

  function GivenBy(a: Amount): Option3 {
    if a.Digits? then Literal else Star
  }

  /** A precision overrides `0` for integers; %%, %c and %p have none, and %s is never filled with zeros. */
  function Meaning(d: Directive): Spec
    requires WellWritten(d)
  {
    var conv := ConversionOf(d.conv).value;
    var noPrec := d.prec.None? || conv == Percent || conv == Character || conv == Pointer;
    var f := FlagMeaning(d.flags);
    Spec(f.(zero := f.zero && conv != String && !(IsInteger(conv) && d.prec.Some?)),
         AmountValue(d.width), if d.width == Digits("") then Absent else GivenBy(d.width),
         if d.prec.Some? then AmountValue(d.prec.value) else 0, if noPrec then Absent else GivenBy(d.prec.value),
         d.modifier, conv, d.conv == 'X' || d.conv == 'B')
  }

  /** `t` stands in `s` at `i`. */
  predicate Stands(s: string, i: nat, t: string) {
    i + |t| <= |s| && s[i..i + |t|] == t
  }

  lemma StandsSplit(s: string, i: nat, t: string, u: string)
    requires Stands(s, i, t + u)
    ensures Stands(s, i, t) && Stands(s, i + |t|, u)
  {
    assert s[i..i + |t|] == (t + u)[..|t|];
    assert s[i + |t|..i + |t| + |u|] == (t + u)[|t|..];
  }

  lemma StandsAt(s: string, i: nat, t: string, k: nat)
    requires Stands(s, i, t) && k < |t|
    ensures i + k < |s| && s[i + k] == t[k] && Peek(s, i + k) == t[k]
  {
    assert s[i..i + |t|][k] == t[k];
  }

  /** The formatter knows the same characters. */
  lemma SameCharacters(c: char)
    ensures FlagChar(c) <==> IsFlag(c)
    ensures Letter(c) <==> ConversionOf(c).Some?
  {
  }

  lemma SameDigits(c: char)
    ensures DigitValue(c).Some? <==> IsDigit(c)
    ensures IsDigit(c) ==> DigitValue(c) == Some(Digit(c))
  {
  }

  function FoldFlags(f: Flags, flags: string): Flags {
    if flags == "" then f else FlagStep(FoldFlags(f, flags[..|flags| - 1]), flags[|flags| - 1])
  }

  lemma {:induction false} FoldMeaning(flags: string)
    requires forall i :: 0 <= i < |flags| ==> IsFlag(flags[i])
    ensures FoldFlags(NO_FLAGS, flags) == FlagMeaning(flags)
  {
    if flags == "" {
    } else {
      var rest := flags[..|flags| - 1];
      FoldMeaning(rest);
      assert forall c :: c in flags <==> c in rest || c == flags[|flags| - 1] by {
        assert flags == rest + [flags[|flags| - 1]];
      }
    }
  }

  lemma {:induction false} FlagsRead(s: string, i: nat, flags: string, n: nat)
    requires Stands(s, i, flags) && n <= |flags| && !IsFlag(Peek(s, i + |flags|))
    requires forall k :: 0 <= k < |flags| ==> IsFlag(flags[k])
    ensures ParseFlags(s, i + n, FoldFlags(NO_FLAGS, flags[..n])) == (FoldFlags(NO_FLAGS, flags), i + |flags|)
    decreases |flags| - n
  {
    if n == |flags| {
      assert flags[..n] == flags;
    } else {
      StandsAt(s, i, flags, n);
      assert flags[..n + 1][..n] == flags[..n];
      FlagsRead(s, i, flags, n + 1);
    }
  }

  lemma {:induction false} NumberRead(s: string, i: nat, t: string, n: nat)
    requires Stands(s, i, t) && n <= |t| && !IsDigit(Peek(s, i + |t|)) && AllDecimal(t)
    ensures ParseNumber(s, i + n, Decimal(t[..n])) == (Decimal(t), i + |t|)
    decreases |t| - n
  {
    hide IsDigit, Digit, DigitValue, Stands;
    if n == |t| {
      assert t[..n] == t;
    } else {
      StandsAt(s, i, t, n);
      SameDigits(t[n]);
      assert t[..n + 1][..n] == t[..n];
      NumberRead(s, i, t, n + 1);
    }
  }

  /** Characters that can follow the width. */
  predicate AfterWidth(c: char) {
    c == '.' || AfterPrecision(c)
  }

  predicate AfterPrecision(c: char) {
    c == 'h' || c == 'l' || c == 'j' || c == 'z' || c == 't' || ConversionOf(c).Some?
  }

  lemma ModifierRead(s: string, i: nat, m: Modifier, c: char)
    requires Stands(s, i, ModifierText(m) + [c]) && ConversionOf(c).Some?
    ensures ParseModifier(s, i) == (m, i + |ModifierText(m)|)
    ensures Peek(s, i + |ModifierText(m)|) == c && AfterPrecision(Peek(s, i))
  {
    var t := ModifierText(m) + [c];
    StandsAt(s, i, t, 0);
    StandsAt(s, i, t, |t| - 1);
    if |t| > 1 {
      StandsAt(s, i, t, 1);
    }
  }

  lemma PrecisionRead(s: string, i: nat, prec: Option<Amount>)
    requires Stands(s, i, PrecText(prec)) && (prec.Some? ==> IsAmount(prec.value))
    requires AfterPrecision(Peek(s, i + |PrecText(prec)|))
    ensures ParsePrecision(s, i) == (if prec.Some? then AmountValue(prec.value) else 0,
                                     if prec.Some? then GivenBy(prec.value) else Absent, i + |PrecText(prec)|)
    ensures AfterWidth(Peek(s, i))
  {
    hide ParseNumber, Stands, AfterPrecision;
    AfterPrecisionIs(Peek(s, i + |PrecText(prec)|));
    if prec.Some? {
      var p := AmountText(prec.value);
      StandsSplit(s, i, ".", p);
      StandsAt(s, i, ".", 0);
      if p != "" {
        StandsAt(s, i + 1, p, 0);
        SameDigits(p[0]);
      }
      if prec.value.Digits? {
        NumberRead(s, i + 1, p, 0);
        assert p[..0] == "";
      }
    }
  }

  /** A precision written with a minus sign is read to its end and counts as none. */
  lemma MinusPrecision(s: string, i: nat, t: string)
    requires Stands(s, i, ".-" + t) && AllDecimal(t) && AfterPrecision(Peek(s, i + 2 + |t|))
    ensures ParsePrecision(s, i) == (Decimal(t), Absent, i + 2 + |t|)
  {
    hide ParseNumber, Stands, AfterPrecision;
    AfterPrecisionIs(Peek(s, i + 2 + |t|));
    StandsSplit(s, i, ".-", t);
    StandsAt(s, i, ".-", 0);
    StandsAt(s, i, ".-", 1);
    NumberRead(s, i + 2, t, 0);
    assert t[..0] == "";
  }

  lemma AfterPrecisionIs(c: char)
    requires AfterPrecision(c)
    ensures !IsDigit(c) && c != '-' && c != '.' && c != '*'
  {
  }

  lemma WidthRead(s: string, i: nat, w: Amount)
    requires Stands(s, i, AmountText(w)) && IsAmount(w) && AfterWidth(Peek(s, i + |AmountText(w)|))
    requires w.Digits? && w.text != "" ==> w.text[0] != '0'
    ensures ParseWidth(s, i) == (AmountValue(w), if w == Digits("") then Absent else GivenBy(w), i + |AmountText(w)|)
    ensures !IsFlag(Peek(s, i))
  {
    hide ParseNumber, Peek, Stands;
    var t := AmountText(w);
    if t != "" {
      StandsAt(s, i, t, 0);
      SameDigits(t[0]);
    }
    if w.Digits? {
      NumberRead(s, i, t, 0);
      assert t[..0] == "";
    }
  }

  /** Where the parts of a directive stand. */
  lemma Parts(s: string, i: nat, d: Directive)
    requires Stands(s, i, Text(d))
    ensures var i2 := i + 1 + |d.flags|; var i3 := i2 + |AmountText(d.width)|; var i4 := i3 + |PrecText(d.prec)|;
      && Stands(s, i + 1, d.flags) && Stands(s, i2, AmountText(d.width)) && Stands(s, i3, PrecText(d.prec))
      && Stands(s, i4, ModifierText(d.modifier) + [d.conv])
      && i + |Text(d)| == i4 + |ModifierText(d.modifier)| + 1
  {
    hide Stands, ModifierText, PrecText, AmountText;
    var m := ModifierText(d.modifier) + [d.conv];
    var p := PrecText(d.prec) + m;
    var w := AmountText(d.width) + p;
    StandsSplit(s, i, "%", d.flags + w);
    StandsSplit(s, i + 1, d.flags, w);
    StandsSplit(s, i + 1 + |d.flags|, AmountText(d.width), p);
    StandsSplit(s, i + 1 + |d.flags| + |AmountText(d.width)|, PrecText(d.prec), m);
  }

  lemma FlagsMean(s: string, i: nat, flags: string)
    requires Stands(s, i, flags) && !IsFlag(Peek(s, i + |flags|))
    requires forall k :: 0 <= k < |flags| ==> FlagChar(flags[k])
    ensures ParseFlags(s, i, NO_FLAGS) == (FlagMeaning(flags), i + |flags|)
  {
    FlagsRead(s, i, flags, 0);
    assert flags[..0] == "";
    FoldMeaning(flags);
  }

  /** Every well-written directive is read to its end and means what it should. */
  lemma DirectiveRead(s: string, i: nat, d: Directive)
    requires WellWritten(d) && Stands(s, i, Text(d))
    ensures ParseSpec(s, i) == Some((Meaning(d), i + |Text(d)|))
  {
    hide ParseFlags, ParseWidth, ParsePrecision, ParseModifier, Peek, ConversionOf, Stands, Text, PrecText,
      ModifierText, FlagMeaning, AmountValue, AmountText, IsAmount;
    var i2 := i + 1 + |d.flags|;
    var i3 := i2 + |AmountText(d.width)|;
    Parts(s, i, d);
    SameCharacters(d.conv);
    ModifierRead(s, i3 + |PrecText(d.prec)|, d.modifier, d.conv);
    PrecisionRead(s, i3, d.prec);
    WidthRead(s, i2, d.width);
    FlagsMean(s, i + 1, d.flags);
  }

  /** Without asterisks an integer directive takes one argument, for itself. */
  lemma NoStars(d: Directive, args: Arguments, n: nat)
    requires WellWritten(d) && IsInteger(Meaning(d).conv)
    requires d.width.Digits? && (d.prec.Some? ==> d.prec.value.Digits?)
    ensures TakeStars(Meaning(d), args, n) == (Meaning(d), n) && TakesArgument(Meaning(d).conv) && Sound(Meaning(d))
    ensures !(Meaning(d).flags.left && Meaning(d).flags.zero)
  {
  }

  lemma Starts(s: string, i: nat, d: Directive)
    requires Stands(s, i, Text(d))
    ensures i < |s| && s[i] == '%'
  {
    StandsAt(s, i, Text(d), 0);
  }
}
