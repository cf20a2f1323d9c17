/** Whole formats: ordinary text and directives in order, each directive with its arguments. */
module PrintfFormats {
  import opened PrintfModel
  import opened PrintfTheorems
  import opened PrintfDirectives
  import opened PrintfStandard

  // ---------------------------------------------------------------- ordinary text

  predicate Ordinary(s: string) {
    forall i :: 0 <= i < |s| ==> s[i] != '%'
  }

  /** A character that is not `%` is printed as it is and takes no argument. */
  lemma CharacterPrints(s: string, i: nat, args: Arguments, n: nat)
    requires i < |s| && s[i] != '%'
    ensures Output(s, i, args, n) == [s[i]] + Output(s, i + 1, args, n)
  {
  }

  /** So is a `%` that starts no directive. */
  lemma LonePercentPrints(s: string, i: nat, args: Arguments, n: nat)
    requires i < |s| && s[i] == '%' && ParseSpec(s, i).None?
    ensures Output(s, i, args, n) == "%" + Output(s, i + 1, args, n)
  {
    hide ParseSpec;
  }

  /** Ordinary text anywhere in a format is printed unchanged, and the rest follows with the same arguments. */
  lemma {:induction false} TextPrints(s: string, i: nat, text: string, args: Arguments, n: nat)
    requires Stands(s, i, text) && Ordinary(text)
    ensures Output(s, i, args, n) == text + Output(s, i + |text|, args, n)
    decreases |text|
  {
    hide Output, NextRound;
    if text == "" {
      assert "" + Output(s, i, args, n) == Output(s, i, args, n);
    } else {
      assert text == [text[0]] + text[1..];
      StandsSplit(s, i, [text[0]], text[1..]);
      StandsAt(s, i, text, 0);
      CharacterPrints(s, i, args, n);
      TextPrints(s, i + 1, text[1..], args, n);
      var rest := Output(s, i + |text|, args, n);
      assert [text[0]] + (text[1..] + rest) == text + rest;
    }
  }

  /** A format without `%` prints itself. */
  lemma OrdinaryPrints(s: string, args: Arguments, n: nat)
    requires Ordinary(s)
    ensures Output(s, 0, args, n) == s
  {
    assert s[0..0 + |s|] == s;
    TextPrints(s, 0, s, args, n);
    assert s + "" == s;
  }

  // ---------------------------------------------------------------- directives

  /** The arguments that a directive takes in all. */
  function Takes(d: Directive): nat
    requires WellWritten(d)
  {
    Stars(d) + if d.conv == '%' then 0 else 1
  }

  /** What a directive prints with the arguments from `n` on. */
  function FieldOf(d: Directive, args: Arguments, n: nat): string
    requires WellWritten(d)
  {
    Field(Filled(d, WidthArg(d, args, n), PrecArg(d, args, n)), args(n + Stars(d)))
  }

  lemma AnyDirectivePrints(s: string, i: nat, d: Directive, args: Arguments, n: nat)
    requires WellWritten(d) && Stands(s, i, Text(d))
    ensures Output(s, i, args, n) == FieldOf(d, args, n) + Output(s, i + |Text(d)|, args, n + Takes(d))
  {
    hide NextRound, FieldOf, Takes, Text, WellWritten, Stands;
    Starts(s, i, d);
    DirectiveRound(s, i, d, args, n);
  }

  lemma DirectiveRound(s: string, i: nat, d: Directive, args: Arguments, n: nat)
    requires WellWritten(d) && Stands(s, i, Text(d)) && i < |s| && s[i] == '%'
    ensures NextRound(s, i, args, n) == Round(FieldOf(d, args, n), i + |Text(d)|, n + Takes(d))
  {
    hide Field, ParseSpec, Text, TakeStars, Filled, WellWritten, Stands, Meaning, Stars, WidthArg, PrecArg,
      TakesArgument;
    DirectiveRead(s, i, d);
    StarsTaken(d, args, n);
    PercentTakesNone(d, WidthArg(d, args, n), PrecArg(d, args, n));
  }

  lemma PercentTakesNone(d: Directive, w: int, p: int)
    requires WellWritten(d)
    ensures TakesArgument(Filled(d, w, p).conv) <==> d.conv != '%'
  {
    hide FlagMeaning, AmountValue;
  }

  /** From format text to output: an integer directive anywhere in a format prints one field, which reads back as
      the next argument and is as long as it should be; the rest of the format follows. */
  lemma DirectivePrints(s: string, i: nat, d: Directive, args: Arguments, n: nat)
    requires WellWritten(d) && Stands(s, i, Text(d)) && IsInteger(Meaning(d).conv)
    requires d.width.Digits? && (d.prec.Some? ==> d.prec.value.Digits?)
    ensures var spec, a := Meaning(d), args(n); var f := Field(spec, a);
      && Output(s, i, args, n) == f + Output(s, i + |Text(d)|, args, n + 1)
      && Read(f, Base(spec.conv)) == Argued(spec, a)
      && |f| == Max(spec.width, SignLength(spec, a) + PrefixLength(spec, a) + DigitLength(spec, a))
  {
    hide Field, Read, Argued, SignLength, PrefixLength, DigitLength, Output, Text, Meaning, TakeStars, Filled,
      WellWritten, Stands, WidthArg, PrecArg, ConversionOf, TakesArgument;
    AnyDirectivePrints(s, i, d, args, n);
    NoStars(d, args, n);
    StarsTaken(d, args, n);
    PercentTakesNone(d, WidthArg(d, args, n), PrecArg(d, args, n));
    ReadBack(Meaning(d), args(n));
    FieldLength(Meaning(d), args(n));
  }

  // ---------------------------------------------------------------- formats

  datatype Piece = Ordinarily(text: string) | Directed(d: Directive)

  predicate IsPiece(p: Piece) {
    match p
    case Ordinarily(t) => Ordinary(t)
    case Directed(d) => WellWritten(d)
  }

  predicate IsFormat(ps: seq<Piece>) {
    forall i :: 0 <= i < |ps| ==> IsPiece(ps[i])
  }

  function PieceText(p: Piece): string {
    match p
    case Ordinarily(t) => t
    case Directed(d) => Text(d)
  }

  function FormatText(ps: seq<Piece>): string {
    if ps == [] then "" else PieceText(ps[0]) + FormatText(ps[1..])
  }

  /** The text of a format with the arguments from `n` on. */
  function Shown(ps: seq<Piece>, args: Arguments, n: nat): string
    requires IsFormat(ps)
  {
    if ps == [] then ""
    else match ps[0]
      case Ordinarily(t) => t + Shown(ps[1..], args, n)
      case Directed(d) => FieldOf(d, args, n) + Shown(ps[1..], args, n + Takes(d))
  }

  lemma OutputEnds(s: string, i: nat, args: Arguments, n: nat)
    requires i == |s|
    ensures Output(s, i, args, n) == ""
  {
  }

  /** Every format prints its pieces in order, each directive with the arguments that the ones before it left. */
  lemma {:induction false} PiecesPrint(s: string, i: nat, ps: seq<Piece>, args: Arguments, n: nat)
    requires IsFormat(ps) && Stands(s, i, FormatText(ps)) && i + |FormatText(ps)| == |s|
    ensures Output(s, i, args, n) == Shown(ps, args, n)
    decreases |ps|
  {
    hide Output, FieldOf, Takes, Text, WellWritten, Stands, Ordinary;
    if ps == [] {
      OutputEnds(s, i, args, n);
    } else {
      var t, rest := PieceText(ps[0]), FormatText(ps[1..]);
      StandsSplit(s, i, t, rest);
      assert IsPiece(ps[0]);
      match ps[0]
      case Ordinarily(_) =>
        TextPrints(s, i, t, args, n);
        PiecesPrint(s, i + |t|, ps[1..], args, n);
      case Directed(d) =>
        AnyDirectivePrints(s, i, d, args, n);
        PiecesPrint(s, i + |t|, ps[1..], args, n + Takes(d));
    }
  }

  /** The same, as the standard asks for it. */
  function Wanted(ps: seq<Piece>, args: Arguments, n: nat): string
    requires IsFormat(ps)
  {
    if ps == [] then ""
    else match ps[0]
      case Ordinarily(t) => t + Wanted(ps[1..], args, n)
      case Directed(d) =>
        Printed(OrderOf(d, WidthArg(d, args, n), PrecArg(d, args, n)), args(n + Stars(d)))
        + Wanted(ps[1..], args, n + Takes(d))
  }

  /** Every directive is defined and does not depart from the standard with its arguments. */
  predicate Conforms(ps: seq<Piece>, args: Arguments, n: nat)
    requires IsFormat(ps)
  {
    ps == [] ||
    match ps[0]
    case Ordinarily(t) => Conforms(ps[1..], args, n)
    case Directed(d) =>
      && Defined(d) && !Departs(d, WidthArg(d, args, n), PrecArg(d, args, n), args(n + Stars(d)))
      && Conforms(ps[1..], args, n + Takes(d))
  }

  lemma {:induction false} ShownIsWanted(ps: seq<Piece>, args: Arguments, n: nat)
    requires IsFormat(ps) && Conforms(ps, args, n)
    ensures Shown(ps, args, n) == Wanted(ps, args, n)
    decreases |ps|
  {
    hide Field, Printed, OrderOf, Filled, Takes, Stars, WellWritten, Defined, Departs, WidthArg, PrecArg;
    if ps == [] {
    } else {
      assert IsPiece(ps[0]);
      match ps[0]
      case Ordinarily(_) => ShownIsWanted(ps[1..], args, n);
      case Directed(d) =>
        FieldExact(d, WidthArg(d, args, n), PrecArg(d, args, n), args(n + Stars(d)));
        ShownIsWanted(ps[1..], args, n + Takes(d));
    }
  }

  /** A format of ordinary text and directives that do not depart prints exactly what the standard asks for. */
  lemma FormatPrints(ps: seq<Piece>, args: Arguments)
    requires IsFormat(ps)
    ensures Output(FormatText(ps), 0, args, 0) == Shown(ps, args, 0)
    ensures Conforms(ps, args, 0) ==> Output(FormatText(ps), 0, args, 0) == Wanted(ps, args, 0)
  {
    hide Output, Shown, Wanted, Conforms;
    var s := FormatText(ps);
    assert s[0..0 + |s|] == s;
    PiecesPrint(s, 0, ps, args, 0);
    if Conforms(ps, args, 0) {
      ShownIsWanted(ps, args, 0);
    }
  }
}
