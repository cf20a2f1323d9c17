/** The format directives of kernel/libc/stdio/nanoprintf.h on values: how a directive is read, and what text
    one conversion produces. */
module PrintfModel {
  import opened Arithmetic
  import opened Wrappers

  // ---------------------------------------------------------------- directives

  datatype Flags = Flags(left: bool, zero: bool, prepend: char, alt: bool)
  datatype Option3 = Absent | Literal | Star
  datatype Modifier = Plain | Short | Char | Long | LongLong | IntMax | SizeT | PtrDiff
  datatype Conversion =
    | Percent | Character | String | SignedInt | Binary | Octal | HexInt | UnsignedInt | Pointer

  /** npf_format_spec_t. */
  datatype Spec = Spec(flags: Flags, width: nat, widthOpt: Option3, prec: nat, precOpt: Option3,
                       modifier: Modifier, conv: Conversion, upper: bool)

  const NUL: char := '\0'
  const NO_FLAGS := Flags(false, false, NUL, false)

  /** The byte at `i` of a C string. */
  function Peek(s: string, i: nat): char {
    if i < |s| then s[i] else NUL
  }

  predicate IsFlag(c: char) {
    c == '-' || c == '0' || c == '+' || c == ' ' || c == '#'
  }

  function FlagStep(f: Flags, c: char): Flags {
    if c == '-' then f.(left := true, zero := false)
    else if c == '0' then f.(zero := !f.left)
    else if c == '+' then f.(prepend := '+')
    else if c == ' ' then (if f.prepend == NUL then f.(prepend := ' ') else f)
    else f.(alt := true)
  }

  function ParseFlags(s: string, i: nat, f: Flags): (r: (Flags, nat))
    ensures i <= r.1 && (i <= |s| ==> r.1 <= |s|)
    decreases |s| - i
  {
    if IsFlag(Peek(s, i)) then ParseFlags(s, i + 1, FlagStep(f, s[i])) else (f, i)
  }

  predicate IsDigit(c: char) {
    '0' <= c <= '9'
  }

  function Digit(c: char): nat
    requires IsDigit(c)
  {
    c as nat - '0' as nat
  }

  function ParseNumber(s: string, i: nat, acc: nat): (r: (nat, nat))
    ensures i <= r.1 && (i <= |s| ==> r.1 <= |s|)
    decreases |s| - i
  {
    if IsDigit(Peek(s, i)) then ParseNumber(s, i + 1, acc * 10 + Digit(s[i])) else (acc, i)
  }

  /** Width: an asterisk or digits. */
  function ParseWidth(s: string, i: nat): (r: (nat, Option3, nat))
    ensures i <= r.2 && (i <= |s| ==> r.2 <= |s|)
  {
    if Peek(s, i) == '*' then (0, Star, i + 1)
    else
      var (w, j) := ParseNumber(s, i, 0);
      (w, if IsDigit(Peek(s, i)) then Literal else Absent, j)
  }

  /** Precision: a point, then an asterisk, or digits that a minus sign makes as good as absent. */
  function ParsePrecision(s: string, i: nat): (r: (nat, Option3, nat))
    ensures i <= r.2 && (i <= |s| ==> r.2 <= |s|)
  {
    if Peek(s, i) != '.' then (0, Absent, i)
    else if Peek(s, i + 1) == '*' then (0, Star, i + 2)
    else if Peek(s, i + 1) == '-' then
      var (p, j) := ParseNumber(s, i + 2, 0);
      (p, Absent, j)
    else
      var (p, j) := ParseNumber(s, i + 1, 0);
      (p, Literal, j)
  }

  function ParseModifier(s: string, i: nat): (r: (Modifier, nat))
    ensures i <= r.1 && (i <= |s| ==> r.1 <= |s|)
  {
    var c := Peek(s, i);
    if c == 'h' then (if Peek(s, i + 1) == 'h' then (Char, i + 2) else (Short, i + 1))
    else if c == 'l' then (if Peek(s, i + 1) == 'l' then (LongLong, i + 2) else (Long, i + 1))
    else if c == 'j' then (IntMax, i + 1)
    else if c == 'z' then (SizeT, i + 1)
    else if c == 't' then (PtrDiff, i + 1)
    else (Plain, i)
  }

  function ConversionOf(c: char): Option<Conversion> {
    match c
    case '%' => Some(Percent)
    case 'c' => Some(Character)
    case 's' => Some(String)
    case 'i' => Some(SignedInt)
    case 'd' => Some(SignedInt)
    case 'o' => Some(Octal)
    case 'u' => Some(UnsignedInt)
    case 'x' => Some(HexInt)
    case 'X' => Some(HexInt)
    case 'b' => Some(Binary)
    case 'B' => Some(Binary)
    case 'p' => Some(Pointer)
    case _ => None
  }

  predicate IsInteger(c: Conversion) {
    c == SignedInt || c == Octal || c == HexInt || c == UnsignedInt
  }

  /** What the conversion makes of flags and precision. */
  function Adjust(spec: Spec): Spec {
    if spec.conv == Percent || spec.conv == Character || spec.conv == Pointer then spec.(precOpt := Absent)
    else if spec.conv == String || (IsInteger(spec.conv) && spec.precOpt != Absent)
    then spec.(flags := spec.flags.(zero := false))
    else spec
  }

  /** npf_parse_format_spec on the directive whose `%` is at `i`: the directive and where it ends. */
  function ParseSpec(s: string, i: nat): (r: Option<(Spec, nat)>)
    ensures r.Some? ==> i < r.value.1 && (i < |s| ==> r.value.1 <= |s|)
  {
    var (f, a) := ParseFlags(s, i + 1, NO_FLAGS);
    var (w, wo, b) := ParseWidth(s, a);
    var (p, po, c) := ParsePrecision(s, b);
    var (m, d) := ParseModifier(s, c);
    match ConversionOf(Peek(s, d))
    case None => None
    case Some(conv) => Some((Adjust(Spec(f, w, wo, p, po, m, conv, Peek(s, d) == 'X' || Peek(s, d) == 'B')), d + 1))
  }

  // ---------------------------------------------------------------- conversions

  function Bits(m: Modifier): nat {
    match m
    case Plain => 0x1_0000_0000
    case Short => 0x1_0000
    case Char => 0x100
    case _ => WORD
  }

  function UnsignedArg(m: Modifier, word: nat): nat {
    word % Bits(m)
  }

  /** Two's complement. */
  function SignedArg(m: Modifier, word: nat): int {
    var v := word % Bits(m);
    if v < Bits(m) / 2 then v else v - Bits(m)
  }

  function Base(c: Conversion): (b: nat)
    ensures 2 <= b <= 16 && (c != Binary ==> b >= 8)
  {
    match c
    case Binary => 2
    case Octal => 8
    case HexInt => 16
    case Pointer => 16
    case _ => 10
  }

  function DigitChar(d: nat, upper: bool): char
    requires d < 16
  {
    if d < 10 then ('0' as nat + d) as char
    else if upper then ('A' as nat + (d - 10)) as char
    else ('a' as nat + (d - 10)) as char
  }

  /** npf_utoa_rev: the digits of `val`, the last first. */
  function Rev(val: nat, base: nat, upper: bool): (r: string)
    requires 2 <= base <= 16
    ensures |r| > 0
    decreases val
  {
    var d := DigitChar(val % base, upper);
    if val / base == 0 then [d] else QuotientLess(val, base); [d] + Rev(val / base, base, upper)
  }

  lemma QuotientLess(val: nat, base: nat)
    requires base >= 2 && val / base != 0
    ensures val / base < val
  {
    assert val == base * (val / base) + val % base;
    assert base * (val / base) >= 2 * (val / base);
  }

  /** The converted argument, before padding. */
  datatype Payload = Payload(rev: string, sign: string, prefix: string, prec: nat, zero: bool)

  function SignText(v: int, prepend: char): string {
    if v < 0 then "-" else if prepend == NUL then "" else [prepend]
  }

  function Abs(v: int): nat {
    if v < 0 then -v else v
  }

  predicate Hidden(spec: Spec, v: int) {
    v == 0 && spec.precOpt != Absent && spec.prec == 0
  }

  function ConvertSigned(spec: Spec, v: int): Payload {
    Payload(if Hidden(spec, v) then "" else Rev(Abs(v), 10, spec.upper), SignText(v, spec.flags.prepend), "",
            spec.prec, v == 0)
  }

  function ConvertUnsigned(spec: Spec, v: nat): Payload {
    var digits := if Hidden(spec, v) then "" else Rev(v, Base(spec.conv), spec.upper);
    var alt := v != 0 && spec.flags.alt;
    Payload(if alt && spec.conv == Octal then digits + "0" else digits, "",
            if !alt then "" else PrefixText(spec.conv, spec.upper),
            if Hidden(spec, v) && spec.conv == Octal && spec.flags.alt then 1 else spec.prec, v == 0)
  }

  function PrefixText(c: Conversion, upper: bool): string {
    if c == HexInt then (if upper then "0X" else "0x")
    else if c == Binary then (if upper then "0B" else "0b")
    else ""
  }

  /** One variable argument as a 64-bit word, or as the string it points to. */
  datatype Argument = Argument(word: nat, text: string)

  /** The argument of the conversion as text. For %s the text is not reversed. */
  function Convert(spec: Spec, a: Argument): Payload {
    match spec.conv
    case Percent => Payload("%", "", "", spec.prec, false)
    case Character => Payload([(a.word % 256) as char], "", "", spec.prec, false)
    case String =>
      Payload(if spec.precOpt == Absent || |a.text| <= spec.prec then a.text else a.text[..spec.prec], "", "",
              spec.prec, false)
    case SignedInt => ConvertSigned(spec, SignedArg(spec.modifier, a.word))
    case Pointer => Payload(Rev(a.word % WORD, 16, false), "", "0x", spec.prec, false)
    case _ => ConvertUnsigned(spec, UnsignedArg(spec.modifier, a.word))
  }

  /** The character that fills up the field, or NUL for none. */
  function PadChar(spec: Spec, p: Payload): char {
    if spec.widthOpt == Absent then NUL
    else if !spec.flags.zero then ' '
    else if spec.conv == String || spec.conv == Character || spec.conv == Percent then NUL
    else if spec.precOpt != Absent && p.prec == 0 && p.zero then ' '
    else '0'
  }

  function Times(c: char, n: nat): (s: string)
    ensures |s| == n && forall i :: 0 <= i < n ==> s[i] == c
  {
    seq(n, _ => c)
  }

  function Monus(a: int, b: int): nat {
    if a > b then a - b else 0
  }

  function Reverse(s: string): (r: string)
    ensures |r| == |s| && forall i :: 0 <= i < |s| ==> r[i] == s[|s| - 1 - i]
  {
    seq(|s|, i requires 0 <= i < |s| => s[|s| - 1 - i])
  }

  function PrecPad(spec: Spec, p: Payload): nat {
    if spec.conv == String then 0 else Monus(p.prec, |p.rev|)
  }

  function FieldPad(spec: Spec, p: Payload): nat {
    Monus(spec.width, |p.rev| + |p.sign| + |p.prefix| + PrecPad(spec, p))
  }

  /** What precedes the payload: padding on the left, the prefix, and the sign if zeros follow it. */
  function Lead(spec: Spec, p: Payload): string {
    var c := PadChar(spec, p);
    if spec.flags.left || c == NUL then p.prefix
    else if c == '0' then p.sign + p.prefix + Times('0', FieldPad(spec, p))
    else Times(c, FieldPad(spec, p)) + p.prefix
  }

  function Body(spec: Spec, p: Payload): string {
    if spec.conv == String then p.rev
    else (if !spec.flags.left && PadChar(spec, p) == '0' then "" else p.sign)
         + Times('0', PrecPad(spec, p)) + Reverse(p.rev)
  }

  function Tail(spec: Spec, p: Payload): string {
    if spec.flags.left && PadChar(spec, p) != NUL then Times(PadChar(spec, p), FieldPad(spec, p)) else ""
  }

  /** The text of one conversion. */
  function Field(spec: Spec, a: Argument): string {
    var p := Convert(spec, a);
    Lead(spec, p) + Body(spec, p) + Tail(spec, p)
  }

  // ---------------------------------------------------------------- whole formats

  /** Where the arguments of a call are: an unlimited supply, of which a format takes what it asks for. */
  type Arguments = nat -> Argument

  /** `(int)` of a word. */
  function IntArg(word: nat): int {
    SignedArg(Plain, word)
  }

  /** Width and precision taken from arguments. A negative width justifies to the left but keeps the `0` flag. */
  function TakeStars(spec: Spec, args: Arguments, n: nat): (r: (Spec, nat)) {
    var w := IntArg(args(n).word);
    var (spec1, n1) :=
      if spec.widthOpt != Star then (spec, n)
      else (spec.(width := Abs(w), flags := if w < 0 then spec.flags.(left := true) else spec.flags), n + 1);
    var p := IntArg(args(n1).word);
    if spec1.precOpt != Star then (spec1, n1)
    else if p < 0 then (spec1.(prec := 0, precOpt := Absent), n1 + 1)
    else (spec1.(prec := p), n1 + 1)
  }

  predicate TakesArgument(c: Conversion) {
    c != Percent
  }

  /** What one round of npf_vpprintf prints, where the next starts, and how many arguments are taken by then. */
  datatype Round = Round(text: string, next: nat, taken: nat)

  function NextRound(s: string, i: nat, args: Arguments, n: nat): (r: Round)
    requires i < |s|
    ensures i < r.next <= |s|
  {
    var r := if s[i] == '%' then ParseSpec(s, i) else None;
    match r
    case None => Round([s[i]], i + 1, n)
    case Some((spec, j)) =>
      var (spec1, n1) := TakeStars(spec, args, n);
      Round(Field(spec1, args(n1)), j, if TakesArgument(spec1.conv) then n1 + 1 else n1)
  }

  /** npf_vpprintf from position `i` on, with `n` arguments already taken. */
  function Output(s: string, i: nat, args: Arguments, n: nat): string
    decreases |s| - i
  {
    if i >= |s| then ""
    else
      var r := NextRound(s, i, args, n);
      r.text + Output(s, r.next, args, r.taken)
  }
}
