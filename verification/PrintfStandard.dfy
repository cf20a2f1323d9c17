/** What section 7.21.6.1 of ISO C11 (7.23.6.1 of C23 for %b) asks of a directive, in its own terms, and exactly when
    the formatter of kernel/libc/stdio/nanoprintf.h prints that. */
module PrintfStandard {
  import opened Arithmetic
  import opened Wrappers
  import opened PrintfModel
  import opened PrintfTheorems
  import opened PrintfDirectives

  // ---------------------------------------------------------------- the standard

  /** A directive with its asterisks filled in: a negative width is a `-` flag and a width, a negative precision is
      none. */
  datatype Order = Order(flags: string, width: nat, prec: Option<nat>, modifier: Modifier, letter: char)

  function OrderOf(d: Directive, w: int, p: int): Order
    requires WellWritten(d)
  {
    Order(d.flags + (if d.width.Asterisk? && w < 0 then "-" else ""),
          if d.width.Asterisk? then PrintfModel.Abs(w) else Decimal(d.width.text),
          match d.prec {
            case None => None
            case Some(Asterisk) => if p < 0 then None else Some(p)
            case Some(Digits(t)) => Some(Decimal(t))
          },
          d.modifier, d.conv)
  }

  predicate IsSigned(c: char) {
    c == 'd' || c == 'i'
  }

  predicate IsNumber(c: char) {
    IsSigned(c) || c == 'u' || c == 'o' || c == 'x' || c == 'X' || c == 'b' || c == 'B'
  }

  /** The behaviour of the directive is defined: `#`, `0` and a precision only where they have a meaning, and `%%` with
      nothing in between. */
  predicate Defined(d: Directive) {
    && ('0' in d.flags ==> IsNumber(d.conv))
    && ('#' in d.flags ==> d.conv == 'o' || d.conv == 'x' || d.conv == 'X' || d.conv == 'b' || d.conv == 'B')
    && (d.prec.Some? ==> IsNumber(d.conv) || d.conv == 's')
    && (d.conv == '%' ==> d.flags == "" && d.width == Digits(""))
  }

  function Radix(c: char): (r: nat)
    ensures 2 <= r <= 16
  {
    match c
    case 'b' => 2
    case 'B' => 2
    case 'o' => 8
    case 'x' => 16
    case 'X' => 16
    case 'p' => 16
    case _ => 10
  }

  /** The number of values of the argument type that a length modifier names: char, short, int and the 64-bit types. */
  function Values(m: Modifier): nat {
    match m
    case Char => 256
    case Short => 65536
    case Plain => UINT
    case _ => WORD
  }

  /** The value of the argument type that has the low bits of the word. */
  function ValueOf(o: Order, word: nat): int {
    var n := if o.letter == 'p' then WORD else Values(o.modifier);
    var v := word % n;
    if IsSigned(o.letter) && v >= n / 2 then v - n else v
  }

  const LOWER_DIGITS := "0123456789abcdef"
  const UPPER_DIGITS := "0123456789ABCDEF"

  /** The numeral of a number, the most significant digit first. */
  function Numeral(v: nat, base: nat, upper: bool): (s: string)
    requires 2 <= base <= 16
    ensures s != ""
    decreases v
  {
    var d := (if upper then UPPER_DIGITS else LOWER_DIGITS)[v % base];
    if v < base then [d] else Shorter(v, base); Numeral(v / base, base, upper) + [d]
  }

  lemma Shorter(v: nat, base: nat)
    requires 2 <= base <= v
    ensures v / base != 0 && v / base < v
  {
    DivMod(v, base);
    QuotientLess(v, base);
  }

  function CSign(o: Order, v: int): string {
    if !IsSigned(o.letter) then ""
    else if v < 0 then "-"
    else if '+' in o.flags then "+"
    else if ' ' in o.flags then " "
    else ""
  }

  function CPrefix(o: Order, v: int): string {
    if o.letter == 'p' then "0x"
    else if '#' !in o.flags || v == 0 then ""
    else match o.letter
      case 'x' => "0x"
      case 'X' => "0X"
      case 'b' => "0b"
      case 'B' => "0B"
      case _ => ""
  }

  /** At least as many digits as the precision, none for a zero with precision zero; `#` makes an octal number start
      with a zero. */
  function CNumber(o: Order, v: int): string {
    var digits := if v == 0 && o.prec == Some(0) then ""
                  else Numeral(PrintfModel.Abs(v), Radix(o.letter), o.letter == 'X');
    var least := if o.prec.Some? then o.prec.value else 1;
    var octal := o.letter == 'o' && '#' in o.flags && (digits == "" || digits[0] != '0');
    Times('0', Monus(if octal then Max(least, |digits| + 1) else least, |digits|)) + digits
  }

  /** The three parts of a number in a field: blanks on one side, or zeros behind sign and prefix. */
  function Justified(left: bool, zeros: bool, width: nat, sign: string, prefix: string, number: string): string {
    var pad := Monus(width, |sign| + |prefix| + |number|);
    if left then sign + prefix + number + Times(' ', pad)
    else if zeros then sign + prefix + Times('0', pad) + number
    else Times(' ', pad) + (sign + prefix + number)
  }

  function CText(o: Order, a: Argument): string {
    match o.letter
    case '%' => "%"
    case 'c' => [(a.word % 256) as char]
    case _ => if o.prec.Some? && o.prec.value < |a.text| then a.text[..o.prec.value] else a.text
  }

  /** What the standard has a directive print. */
  function Printed(o: Order, a: Argument): string {
    var left := '-' in o.flags;
    if IsNumber(o.letter) || o.letter == 'p' then
      var v := ValueOf(o, a.word);
      Justified(left, '0' in o.flags && o.prec.None?, o.width, CSign(o, v), CPrefix(o, v), CNumber(o, v))
    else Justified(left, false, o.width, "", "", CText(o, a))
  }

  /** How many characters the number has before the field is filled up. */
  function Needed(o: Order, a: Argument): nat {
    var v := ValueOf(o, a.word);
    |CSign(o, v)| + |CPrefix(o, v)| + |CNumber(o, v)|
  }

  // ---------------------------------------------------------------- arguments

  /** Every value of the type of an argument is recovered from the word it was passed in. */
  lemma ArgumentRecovered(o: Order, v: int)
    requires IsNumber(o.letter)
    requires var n: int := Values(o.modifier); if IsSigned(o.letter) then -(n / 2) <= v < n / 2 else 0 <= v < n
    ensures ValueOf(o, v % WORD) == v
  {
    var n := Values(o.modifier);
    Wrapped(v, n);
  }

  lemma Wrapped(v: int, n: nat)
    requires n in {256, 65536, UINT, WORD} && 0 <= v + n && v < n
    ensures v % WORD % n == if v < 0 then v + n else v
  {
    if v >= 0 {
      Euclid(v, WORD, 0, v);
      Euclid(v, n, 0, v);
    } else {
      assert v % WORD == v + WORD;
      var q := if n == 256 then 0x100_0000_0000_0000 else if n == 65536 then 0x1_0000_0000_0000
               else if n == UINT then UINT else 1;
      assert q * n == WORD;
      assert v + WORD == (q - 1) * n + (v + n) by { Successor(q - 1, n); }
      Euclid(v + WORD, n, q - 1, v + n);
    }
  }

  lemma {:induction false} NumeralIsReverse(v: nat, base: nat, upper: bool)
    requires 2 <= base <= 16
    ensures Reverse(Rev(v, base, upper)) == Numeral(v, base, upper)
    decreases v
  {
    hide Reverse;
    var d := DigitChar(v % base, upper);
    DigitTable(v % base, upper);
    DivMod(v, base);
    if v < base {
      assert v / base == 0 by { Euclid(v, base, 0, v); }
      ReverseCons(d, "");
      EmptyValue(base);
    } else {
      Shorter(v, base);
      NumeralIsReverse(v / base, base, upper);
      ReverseCons(d, Rev(v / base, base, upper));
    }
  }

  lemma DigitTable(d: nat, upper: bool)
    requires d < 16
    ensures DigitChar(d, upper) == (if upper then UPPER_DIGITS else LOWER_DIGITS)[d]
  {
  }

  // ---------------------------------------------------------------- asterisks

  /** The directive as the formatter has it after taking width `w` and precision `p` from the arguments. */
  function Filled(d: Directive, w: int, p: int): Spec
    requires WellWritten(d)
  {
    var s := Meaning(d);
    s.(flags := s.flags.(left := s.flags.left || (d.width.Asterisk? && w < 0)),
       width := if d.width.Asterisk? then PrintfModel.Abs(w) else s.width,
       prec := if s.precOpt == Star then (if p < 0 then 0 else p) else s.prec,
       precOpt := if s.precOpt == Star && p < 0 then Absent else s.precOpt)
  }

  /** The arguments that a directive takes before the one it prints. */
  function Stars(d: Directive): nat
    requires WellWritten(d)
  {
    (if d.width.Asterisk? then 1 else 0) + (if Meaning(d).precOpt == Star then 1 else 0)
  }

  function WidthArg(d: Directive, args: Arguments, n: nat): int {
    if d.width.Asterisk? then IntArg(args(n).word) else 0
  }

  function PrecArg(d: Directive, args: Arguments, n: nat): int {
    IntArg(args(if d.width.Asterisk? then n + 1 else n).word)
  }

  /** The width is taken first, then the precision. */
  lemma StarsTaken(d: Directive, args: Arguments, n: nat)
    requires WellWritten(d)
    ensures TakeStars(Meaning(d), args, n) == (Filled(d, WidthArg(d, args, n), PrecArg(d, args, n)), n + Stars(d))
  {
    hide FlagMeaning, AmountValue, ConversionOf, IntArg;
  }

  // ---------------------------------------------------------------- numbers

  lemma {:induction false} NumeralCase(v: nat, base: nat)
    requires 2 <= base <= 10
    ensures Numeral(v, base, true) == Numeral(v, base, false)
    decreases v
  {
    assert UPPER_DIGITS[v % base] == LOWER_DIGITS[v % base];
    if v < base {
    } else {
      Shorter(v, base);
      NumeralCase(v / base, base);
    }
  }

  /** A numeral does not start with a zero, but that of zero is one. */
  lemma {:induction false} NumeralStart(v: nat, base: nat, upper: bool)
    requires 2 <= base <= 16
    ensures Numeral(v, base, upper)[0] == '0' <==> v == 0
    decreases v
  {
    if v < base {
      assert v % base == v by { Euclid(v, base, 0, v); }
    } else {
      Shorter(v, base);
      NumeralStart(v / base, base, upper);
    }
  }

  /** The digits of the conversion, with the zeros of the precision, are those of the standard. */
  lemma NumberText(digits: string, prec: nat, octal: bool, rev: string)
    requires Reverse(rev) == digits
    ensures var r := if octal then rev + "0" else rev;
      Times('0', Monus(prec, |r|)) + Reverse(r)
      == Times('0', Monus(if octal then Max(prec, |digits| + 1) else prec, |digits|)) + digits
  {
    if octal {
      var r := rev + "0";
      assert Reverse(r) == Times('0', 1) + digits;
      var z := Monus(prec, |r|);
      assert Times('0', z) + Times('0', 1) == Times('0', z + 1);
    }
  }

  /** What the flags and the precision of the directive come to in the formatter. */
  lemma FilledFacts(d: Directive, w: int, p: int)
    requires WellWritten(d) && Defined(d)
    ensures var s, o := Filled(d, w, p), OrderOf(d, w, p);
      && s.flags.left == ('-' in o.flags) && s.flags.alt == ('#' in o.flags) && s.width == o.width
      && (s.widthOpt == Absent ==> s.width == 0) && s.modifier == o.modifier && o.letter == d.conv
      && s.flags.prepend == (if '+' in o.flags then '+' else if ' ' in o.flags then ' ' else NUL)
      && (s.precOpt != Absent <==> o.prec.Some?) && s.prec == (if o.prec.Some? then o.prec.value else 0)
      && s.flags.zero == ('0' in d.flags && '-' !in d.flags && !(IsInteger(s.conv) && d.prec.Some?))
  {
    assert Decimal("") == 0;
    hide Decimal;
    var s, o := Filled(d, w, p), OrderOf(d, w, p);
    assert d.conv != 's' && !IsNumber(d.conv) ==> d.prec.None?;
    assert forall c :: c in o.flags <==> c in d.flags || (c == '-' && d.width.Asterisk? && w < 0);
  }

  lemma LetterFacts(d: Directive, w: int, p: int, a: Argument)
    requires WellWritten(d) && Defined(d) && (IsNumber(d.conv) || d.conv == 'p')
    ensures var s, o := Filled(d, w, p), OrderOf(d, w, p); var v := ValueOf(o, a.word);
      && Numeric(s.conv) && Base(s.conv) == Radix(d.conv) && (s.conv == Binary <==> Radix(d.conv) == 2)
      && (s.conv == Octal <==> d.conv == 'o') && (s.conv == Pointer <==> d.conv == 'p')
      && (s.conv == SignedInt <==> IsSigned(d.conv)) && Argued(s, a) == v
      && (s.conv == HexInt <==> d.conv == 'x' || d.conv == 'X') && s.upper == (d.conv == 'X' || d.conv == 'B')
      && (s.conv == Binary <==> d.conv == 'b' || d.conv == 'B')
  {
    hide Decimal, FlagMeaning;
  }

  /** The formatter's directive and the standard's agree in everything but the filling of the field. */
  predicate Agrees(s: Spec, o: Order) {
    && s.flags.alt == ('#' in o.flags)
    && s.flags.prepend == (if '+' in o.flags then '+' else if ' ' in o.flags then ' ' else NUL)
    && (s.precOpt != Absent <==> o.prec.Some?) && s.prec == (if o.prec.Some? then o.prec.value else 0)
    && Numeric(s.conv) && Base(s.conv) == Radix(o.letter) && s.upper == (o.letter == 'X' || o.letter == 'B')
    && (s.conv == Octal <==> o.letter == 'o') && (s.conv == Pointer <==> o.letter == 'p')
    && (s.conv == SignedInt <==> IsSigned(o.letter)) && (s.conv == HexInt <==> o.letter == 'x' || o.letter == 'X')
    && (s.conv == Binary <==> o.letter == 'b' || o.letter == 'B')
    && ('#' in o.flags ==> o.letter != 'p') && (o.letter == 'p' ==> o.prec.None?)
  }

  lemma SignsConform(s: Spec, o: Order, a: Argument)
    requires Agrees(s, o) && Argued(s, a) == ValueOf(o, a.word)
    ensures var v, c := ValueOf(o, a.word), Convert(s, a);
      && c.sign == CSign(o, v) && c.prefix == CPrefix(o, v) && c.zero == (v == 0 && o.letter != 'p')
      && (o.letter != 'o' ==> c.prec == s.prec)
  {
    hide Rev, ValueOf, Base, Radix;
  }

  /** The digits that the conversion leaves in its buffer, and its precision. */
  lemma DigitsLeft(s: Spec, o: Order, a: Argument)
    requires Agrees(s, o) && Argued(s, a) == ValueOf(o, a.word)
    ensures var v, c := ValueOf(o, a.word), Convert(s, a);
      var hidden, octal := v == 0 && o.prec == Some(0), o.letter == 'o' && '#' in o.flags;
      var r := Rev(PrintfModel.Abs(v), Radix(o.letter), o.letter == 'X' || o.letter == 'B');
      && c.rev == (if hidden then "" else if octal && v != 0 then r + "0" else r)
      && c.prec == if hidden && octal then 1 else s.prec
  {
    hide Rev, ValueOf, Radix;
  }

  /** With the zeros of the precision they are the number that the standard asks for. */
  lemma NumbersConform(s: Spec, o: Order, a: Argument)
    requires Agrees(s, o) && Argued(s, a) == ValueOf(o, a.word)
    ensures Times('0', PrecPad(s, Convert(s, a))) + Reverse(Convert(s, a).rev) == CNumber(o, ValueOf(o, a.word))
  {
    hide Convert, Rev, Numeral, Reverse, Times, ValueOf, Radix, Argued;
    var v := ValueOf(o, a.word);
    var n, base, upper := PrintfModel.Abs(v), Radix(o.letter), o.letter == 'X' || o.letter == 'B';
    DigitsLeft(s, o, a);
    NumeralIsReverse(n, base, upper);
    NumeralStart(n, base, upper);
    if o.letter == 'B' {
      assert base == 2 by { BinaryRadix(o.letter); }
      NumeralCase(n, base);
    }
    if v == 0 && o.prec == Some(0) {
      EmptyValue(base);
      NumberText("", Convert(s, a).prec, false, "");
    } else {
      NumberText(Numeral(n, base, upper), s.prec, o.letter == 'o' && '#' in o.flags && v != 0, Rev(n, base, upper));
    }
  }

  lemma BinaryRadix(c: char)
    ensures c == 'B' ==> Radix(c) == 2
  {
  }

  lemma FilledAgrees(d: Directive, w: int, p: int, a: Argument)
    requires WellWritten(d) && Defined(d) && (IsNumber(d.conv) || d.conv == 'p')
    ensures var s, o := Filled(d, w, p), OrderOf(d, w, p); Agrees(s, o) && Argued(s, a) == ValueOf(o, a.word)
  {
    hide Filled, OrderOf, ValueOf, WellWritten, Argued;
    FilledFacts(d, w, p);
    LetterFacts(d, w, p, a);
    if d.conv == 'p' {
      NoAlternative(d, w, p);
    }
  }

  lemma NoAlternative(d: Directive, w: int, p: int)
    requires WellWritten(d) && Defined(d) && d.conv == 'p'
    ensures '#' !in OrderOf(d, w, p).flags && OrderOf(d, w, p).prec.None?
  {
  }

  // ---------------------------------------------------------------- fields

  /** The field of a number, by the side and the character that fill it up. */
  lemma NumberField(s: Spec, a: Argument, number: string)
    requires Numeric(s.conv) && Sound(s)
    requires var c := Convert(s, a); number == Times('0', PrecPad(s, c)) + Reverse(c.rev)
    ensures var c := Convert(s, a); var pad := Monus(s.width, |c.sign| + |c.prefix| + |number|);
      Field(s, a)
      == if s.flags.left && PadChar(s, c) == '0' then c.sign + c.prefix + number + Times('0', pad)
         else Justified(s.flags.left, PadChar(s, c) == '0', s.width, c.sign, c.prefix, number)
  {
    hide Convert, Reverse, Times, PadChar, PrecPad;
    var c := Convert(s, a);
    SignOrPrefix(s, a);
    PadChars(s, c);
    NumericPad(s, c);
    hide FieldPad;
    var pad := FieldPad(s, c);
    assert pad == Monus(s.width, |c.sign| + |c.prefix| + |number|) by { PadLength(s, c); }
    var z, r := Times('0', PrecPad(s, c)), Reverse(c.rev);
    assert c.sign + z + r == c.sign + number;
    if s.flags.left {
      JoinSides(c.sign, c.prefix, number);
      FillNothing(PadChar(s, c), pad);
    } else if PadChar(s, c) == '0' {
      assert "" + z + r == number;
      JoinMiddle(c.sign, c.prefix, Times('0', pad), number);
    } else {
      JoinSides(c.sign, c.prefix, number);
      JoinBefore(Times(' ', pad), c.prefix, c.sign, number);
      FillNothing(PadChar(s, c), pad);
    }
  }

  lemma PadLength(s: Spec, c: Payload)
    requires s.conv != String
    ensures FieldPad(s, c) == Monus(s.width, |c.sign| + |c.prefix| + |Times('0', PrecPad(s, c)) + Reverse(c.rev)|)
  {
  }

  lemma FillNothing(c: char, pad: nat)
    ensures pad == 0 ==> Times(c, pad) == "" && Times(' ', pad) == ""
  {
  }

  lemma JoinSides(sign: string, prefix: string, number: string)
    requires sign == "" || prefix == ""
    ensures prefix + (sign + number) == sign + prefix + number
  {
    assert prefix + (sign + number) == prefix + sign + number;
    assert prefix + sign == sign + prefix;
  }

  lemma JoinMiddle(sign: string, prefix: string, fill: string, number: string)
    ensures (sign + prefix + fill) + number + "" == sign + prefix + fill + number
  {
  }

  lemma JoinBefore(fill: string, prefix: string, sign: string, number: string)
    ensures (fill + prefix) + (sign + number) + "" == fill + (prefix + (sign + number))
    ensures fill == "" ==> prefix + (sign + number) + "" == prefix + (sign + number)
  {
  }

  /** Fields that are filled up differently are different. */
  lemma FillsDiffer(width: nat, sign: string, prefix: string, number: string)
    requires var need := |sign| + |prefix| + |number|; width > need
    requires (sign == "" || prefix == "") && (sign != "" ==> |sign| == 1 && sign[0] != '0')
    requires prefix != "" ==> prefix[0] == '0'
    ensures var pad := width - (|sign| + |prefix| + |number|); var left := sign + prefix + number;
      && left + Times('0', pad) != left + Times(' ', pad)
      && sign + prefix + Times('0', pad) + number != Times(' ', pad) + left
  {
    var need := |sign| + |prefix| + |number|;
    var pad, left := width - need, sign + prefix + number;
    assert (left + Times('0', pad))[width - 1] == '0' && (left + Times(' ', pad))[width - 1] == ' ';
    var a, b := sign + prefix + Times('0', pad) + number, Times(' ', pad) + left;
    if prefix != "" {
      assert a[0] == '0' && b[0] == ' ';
    } else {
      assert a[|sign|] == '0';
      assert b[|sign|] == if |sign| < pad then ' ' else sign[0];
    }
  }

  /** Where the formatter departs from the standard: the field has to be filled up, `0` without `-` is given, and the
      width comes from a negative argument, or a negative argument takes the place of the precision, or %b has a
      precision. */
  predicate Departs(d: Directive, w: int, p: int, a: Argument)
    requires WellWritten(d)
  {
    var o := OrderOf(d, w, p);
    var negative := d.width.Asterisk? && w < 0;
    && IsNumber(d.conv) && '0' in d.flags && '-' !in d.flags && o.width > Needed(o, a)
    && if d.conv == 'b' || d.conv == 'B' then
         (negative || o.prec.Some?) && !(o.prec == Some(0) && ValueOf(o, a.word) == 0)
       else if d.prec.None? then negative
       else o.prec.None? && !negative
  }

  /** Two ways to fill up the same field come to the same exactly if there is nothing to fill or they are the same. */
  lemma FormsEqual(left: bool, mine: bool, zeros: bool, width: nat, sign: string, prefix: string, number: string)
    requires (sign == "" || prefix == "") && (sign != "" ==> |sign| == 1 && sign[0] != '0')
    requires prefix != "" ==> prefix[0] == '0'
    ensures var need := |sign| + |prefix| + |number|;
      (if left && mine then sign + prefix + number + Times('0', Monus(width, need))
       else Justified(left, mine, width, sign, prefix, number))
      == Justified(left, zeros, width, sign, prefix, number)
      <==> width <= need || (if left then !mine else mine == zeros)
  {
    hide Times;
    var need, all := |sign| + |prefix| + |number|, sign + prefix + number;
    if width > need {
      FillsDiffer(width, sign, prefix, number);
    } else {
      FillNothing('0', 0);
      assert all + "" == "" + all == all && sign + prefix + "" + number == all;
    }
  }

  /** The formatter fills with zeros. */
  predicate FillsZeros(d: Directive, w: int, p: int, a: Argument)
    requires WellWritten(d)
  {
    var o := OrderOf(d, w, p);
    && '0' in d.flags && '-' !in d.flags
    && if d.conv == 'b' || d.conv == 'B' then !(o.prec == Some(0) && ValueOf(o, a.word) == 0) else d.prec.None?
  }

  lemma PadIsZero(d: Directive, w: int, p: int, a: Argument)
    requires WellWritten(d) && Defined(d) && (IsNumber(d.conv) || d.conv == 'p')
    ensures var s := Filled(d, w, p);
      s.width > 0 ==> (PadChar(s, Convert(s, a)) == '0' <==> FillsZeros(d, w, p, a))
  {
    hide Filled, OrderOf, WellWritten, Convert, ValueOf, CNumber, CSign, CPrefix, Argued, Numeric;
    var s, o := Filled(d, w, p), OrderOf(d, w, p);
    FilledFacts(d, w, p);
    LetterFacts(d, w, p, a);
    FilledAgrees(d, w, p, a);
    SignsConform(s, o, a);
    OrderFacts(d, w, p);
    NumericKinds(s.conv);
  }

  lemma NumericKinds(c: Conversion)
    ensures Numeric(c) ==> c != String && c != Character && c != Percent
    ensures Numeric(c) && c != Binary && c != Pointer ==> IsInteger(c)
  {
  }

  lemma NumberExact(d: Directive, w: int, p: int, a: Argument)
    requires WellWritten(d) && Defined(d) && (IsNumber(d.conv) || d.conv == 'p')
    ensures Field(Filled(d, w, p), a) == Printed(OrderOf(d, w, p), a) <==> !Departs(d, w, p, a)
  {
    hide Filled, OrderOf, WellWritten, Defined, Field, Printed, Departs, FillsAlike;
    FillsCompared(d, w, p, a);
    DepartsExactly(d, w, p, a);
  }

  /** There is nothing to fill, or the formatter fills as the standard asks. */
  predicate FillsAlike(d: Directive, w: int, p: int, a: Argument)
    requires WellWritten(d)
  {
    var s, o := Filled(d, w, p), OrderOf(d, w, p);
    var mine := PadChar(s, Convert(s, a)) == '0';
    o.width <= Needed(o, a) || if s.flags.left then !mine else mine == ('0' in o.flags && o.prec.None?)
  }

  lemma FillsCompared(d: Directive, w: int, p: int, a: Argument)
    requires WellWritten(d) && Defined(d) && (IsNumber(d.conv) || d.conv == 'p')
    ensures Field(Filled(d, w, p), a) == Printed(OrderOf(d, w, p), a) <==> FillsAlike(d, w, p, a)
  {
    hide Filled, OrderOf, WellWritten, Convert, ValueOf, CNumber, CSign, CPrefix, Field, Argued, Justified, Times,
      PadChar;
    var s, o := Filled(d, w, p), OrderOf(d, w, p);
    var c, v := Convert(s, a), ValueOf(o, a.word);
    NumberParts(d, w, p, a);
    SignShape(o, v);
    FilledFacts(d, w, p);
    OrderFacts(d, w, p);
    var zeros := '0' in o.flags && o.prec.None?;
    FormsEqual(s.flags.left, PadChar(s, c) == '0', zeros, o.width, CSign(o, v), CPrefix(o, v), CNumber(o, v));
  }

  lemma DepartsExactly(d: Directive, w: int, p: int, a: Argument)
    requires WellWritten(d) && Defined(d) && (IsNumber(d.conv) || d.conv == 'p')
    ensures FillsAlike(d, w, p, a) <==> !Departs(d, w, p, a)
  {
    hide Filled, OrderOf, WellWritten, Convert, ValueOf, Needed, PadChar;
    FilledFacts(d, w, p);
    OrderFacts(d, w, p);
    PadIsZero(d, w, p, a);
  }

  lemma NumberParts(d: Directive, w: int, p: int, a: Argument)
    requires WellWritten(d) && Defined(d) && (IsNumber(d.conv) || d.conv == 'p')
    ensures var s, o := Filled(d, w, p), OrderOf(d, w, p); var c, v := Convert(s, a), ValueOf(o, a.word);
      var sign, prefix, number := CSign(o, v), CPrefix(o, v), CNumber(o, v);
      Field(s, a)
      == if s.flags.left && PadChar(s, c) == '0'
         then sign + prefix + number + Times('0', Monus(o.width, |sign| + |prefix| + |number|))
         else Justified(s.flags.left, PadChar(s, c) == '0', o.width, sign, prefix, number)
  {
    hide Filled, OrderOf, WellWritten, Convert, ValueOf, CNumber, CSign, CPrefix, Field, Argued, Justified, Times,
      PadChar;
    var s, o := Filled(d, w, p), OrderOf(d, w, p);
    FilledFacts(d, w, p);
    FilledAgrees(d, w, p, a);
    SignsConform(s, o, a);
    NumbersConform(s, o, a);
    NumberField(s, a, CNumber(o, ValueOf(o, a.word)));
  }

  lemma OrderFacts(d: Directive, w: int, p: int)
    requires WellWritten(d)
    ensures var o := OrderOf(d, w, p);
      && ('-' in o.flags <==> '-' in d.flags || (d.width.Asterisk? && w < 0)) && ('0' in o.flags <==> '0' in d.flags)
      && o.letter == d.conv && (d.prec.None? ==> o.prec.None?)
  {
  }

  lemma SignShape(o: Order, v: int)
    ensures CSign(o, v) == "" || CPrefix(o, v) == ""
    ensures CSign(o, v) != "" ==> |CSign(o, v)| == 1 && CSign(o, v)[0] != '0'
    ensures CPrefix(o, v) != "" ==> CPrefix(o, v)[0] == '0'
  {
  }

  /** %s, %c and %% print what the standard asks for. */
  lemma TextConforms(d: Directive, w: int, p: int, a: Argument)
    requires WellWritten(d) && Defined(d) && !IsNumber(d.conv) && d.conv != 'p'
    ensures Field(Filled(d, w, p), a) == Printed(OrderOf(d, w, p), a)
  {
    hide Filled, OrderOf, WellWritten;
    var s, o := Filled(d, w, p), OrderOf(d, w, p);
    FilledFacts(d, w, p);
    TextLetters(d, w, p);
    OrderFacts(d, w, p);
    TextField(s, o, a);
  }

  lemma TextLetters(d: Directive, w: int, p: int)
    requires WellWritten(d) && !IsNumber(d.conv) && d.conv != 'p'
    ensures var c := Filled(d, w, p).conv;
      && (c == String <==> d.conv == 's') && (c == Character <==> d.conv == 'c') && (c == Percent <==> d.conv == '%')
      && (c == String || c == Character || c == Percent)
  {
  }

  lemma TextField(s: Spec, o: Order, a: Argument)
    requires s.conv == String || s.conv == Character || s.conv == Percent
    requires (s.conv == String <==> o.letter == 's') && (s.conv == Character <==> o.letter == 'c')
    requires (s.conv == Percent <==> o.letter == '%') && !IsNumber(o.letter) && o.letter != 'p'
    requires s.flags.left == ('-' in o.flags) && !s.flags.zero && s.width == o.width
    requires (s.widthOpt == Absent ==> s.width == 0) && (s.precOpt != Absent <==> o.prec.Some?)
    requires s.prec == (if o.prec.Some? then o.prec.value else 0) && (s.conv != String ==> o.prec.None?)
    ensures Field(s, a) == Printed(o, a)
  {
    var c := Convert(s, a);
    var text, pad := CText(o, a), Monus(s.width, |CText(o, a)|);
    TextConverted(s, o, a);
    hide Convert, CText;
    var left := s.flags.left;
    TextSides(s, c, pad);
    var l, t := if left then "" else Times(' ', pad), if left then Times(' ', pad) else "";
    assert Field(s, a) == l + text + t;
    assert Printed(o, a) == Justified(left, false, s.width, "", "", text);
    assert "" + "" + text == text;
  }

  lemma TextConverted(s: Spec, o: Order, a: Argument)
    requires s.conv == String || s.conv == Character || s.conv == Percent
    requires (s.conv == String <==> o.letter == 's') && (s.conv == Character <==> o.letter == 'c')
    requires (s.conv == Percent <==> o.letter == '%') && (s.precOpt != Absent <==> o.prec.Some?)
    requires s.prec == (if o.prec.Some? then o.prec.value else 0) && (s.conv != String ==> o.prec.None?)
    ensures var c, text := Convert(s, a), CText(o, a);
      c.rev == text && c.sign == "" && c.prefix == "" && PrecPad(s, c) == 0 && (s.conv != String ==> |text| == 1)
  {
  }

  lemma TextSides(s: Spec, c: Payload, pad: nat)
    requires s.conv == String || s.conv == Character || s.conv == Percent
    requires c.sign == "" && c.prefix == "" && PrecPad(s, c) == 0 && (s.conv != String ==> |c.rev| == 1)
    requires !s.flags.zero && (s.widthOpt == Absent ==> s.width == 0) && pad == Monus(s.width, |c.rev|)
    ensures Lead(s, c) == (if s.flags.left then "" else Times(' ', pad)) && Body(s, c) == c.rev
    ensures Tail(s, c) == if s.flags.left then Times(' ', pad) else ""
  {
    if s.conv != String {
      assert Reverse(c.rev) == c.rev;
      assert "" + Times('0', 0) + c.rev == c.rev;
    }
    assert pad == 0 ==> Times(' ', pad) == "";
    assert Times(' ', pad) + "" == Times(' ', pad);
  }

  /** A directive with a defined meaning prints what the standard asks for if and only if it does not depart. */
  lemma FieldExact(d: Directive, w: int, p: int, a: Argument)
    requires WellWritten(d) && Defined(d)
    ensures Field(Filled(d, w, p), a) == Printed(OrderOf(d, w, p), a) <==> !Departs(d, w, p, a)
  {
    hide Field, Filled, Printed, OrderOf;
    if IsNumber(d.conv) || d.conv == 'p' {
      NumberExact(d, w, p, a);
    } else {
      TextConforms(d, w, p, a);
    }
  }

  /** %0*.*d with width 5, precision -1 and argument 7 should print 00007 and does not. */
  lemma NegativePrecisionDeparts()
    ensures var d := Directive("0", Asterisk, Some(Asterisk), Plain, 'd');
      && WellWritten(d) && Printed(OrderOf(d, 5, -1), Argument(7, "")) == "00007"
      && Field(Filled(d, 5, -1), Argument(7, "")) != "00007"
  {
    var d := Directive("0", Asterisk, Some(Asterisk), Plain, 'd');
    var o, a := OrderOf(d, 5, -1), Argument(7, "");
    SevenPrinted(o);
    hide Field, Filled, Printed;
    FieldExact(d, 5, -1, a);
  }

  lemma SevenPrinted(o: Order)
    requires o == Order("0", 5, None, Plain, 'd')
    ensures ValueOf(o, 7) == 7 && Needed(o, Argument(7, "")) == 1 && Printed(o, Argument(7, "")) == "00007"
  {
    hide CSign, CPrefix, CNumber, ValueOf, Times;
    SevenParts(o);
    SevenZeros();
    assert "" + "" + "0000" + "7" == "00007";
  }

  lemma SevenParts(o: Order)
    requires o == Order("0", 5, None, Plain, 'd')
    ensures ValueOf(o, 7) == 7 && CSign(o, 7) == "" && CPrefix(o, 7) == "" && CNumber(o, 7) == "7"
  {
    assert Numeral(7, 10, false) == "7";
    assert Times('0', 0) + "7" == "7";
  }

  lemma SevenZeros()
    ensures Times('0', 4) == "0000"
  {
  }
}
