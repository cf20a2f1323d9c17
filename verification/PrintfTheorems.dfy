/** What the integer conversions of kernel/libc/stdio/nanoprintf.h promise: the text reads back as the argument,
    it has the length that section 7.21.6.1 of ISO C11 asks for, and directives mean what that section says. */
module PrintfTheorems {
  import opened Arithmetic
  import opened PrintfModel

  // ---------------------------------------------------------------- digits

  function Power(b: nat, n: nat): nat {
    if n == 0 then 1 else b * Power(b, n - 1)
  }

  lemma EighthBound(val: nat, base: nat, p: nat)
    requires base >= 8 && val < 8 * p
    ensures val / base < p && (val / base != 0 ==> p > 1)
  {
    var q := val / base;
    assert val == base * q + val % base;
    assert (base - 8) * q >= 0;
    assert (base - 8) * q == base * q - 8 * q;
  }

  lemma {:induction false} RevShort(val: nat, base: nat, upper: bool, n: nat)
    requires 8 <= base <= 16 && n >= 1 && val < Power(8, n)
    ensures |Rev(val, base, upper)| <= n
    decreases n
  {
    if val / base == 0 {
    } else {
      EighthBound(val, base, Power(8, n - 1));
      RevShort(val / base, base, upper, n - 1);
    }
  }

  /** Any 64-bit value in octal with a leading zero fits the conversion buffer of 23 characters. */
  lemma DigitsFit(val: nat, base: nat, upper: bool)
    requires 8 <= base <= 16 && val < WORD
    ensures |Rev(val, base, upper)| + 1 <= 23
  {
    assert Power(8, 22) >= WORD by {
      assert Power(8, 11) == 0x2_0000_0000;
      PowerSplit(11, 11);
    }
    RevShort(val, base, upper, 22);
  }

  lemma {:induction false} PowerSplit(m: nat, n: nat)
    ensures Power(8, m + n) == Power(8, m) * Power(8, n)
  {
    if m == 0 {
    } else {
      PowerSplit(m - 1, n);
      assert 8 * (Power(8, m - 1) * Power(8, n)) == 8 * Power(8, m - 1) * Power(8, n);
    }
  }

  /** The value of a digit in any base up to 16. */
  function DigitValue(c: char): int {
    if '0' <= c <= '9' then c as int - '0' as int
    else if 'a' <= c <= 'f' then c as int - 'a' as int + 10
    else if 'A' <= c <= 'F' then c as int - 'A' as int + 10
    else -1
  }

  predicate AllDigits(s: string, base: nat) {
    forall i :: 0 <= i < |s| ==> 0 <= DigitValue(s[i]) < base
  }

  /** The value of a digit string, the most significant digit first. */
  function Value(s: string, base: nat): int
    requires AllDigits(s, base)
  {
    if s == "" then 0 else Value(s[..|s| - 1], base) * base + DigitValue(s[|s| - 1])
  }

  lemma DigitBack(d: nat, upper: bool)
    requires d < 16
    ensures DigitValue(DigitChar(d, upper)) == d
  {
  }

  lemma ReverseCons(c: char, s: string)
    ensures Reverse([c] + s) == Reverse(s) + [c]
  {
  }

  lemma ValueAppend(s: string, c: char, base: nat)
    requires AllDigits(s, base) && 0 <= DigitValue(c) < base
    ensures AllDigits(s + [c], base) && Value(s + [c], base) == Value(s, base) * base + DigitValue(c)
  {
    assert (s + [c])[..|s|] == s;
  }

  /** The digits stand for the value. */
  lemma {:induction false} RevValue(val: nat, base: nat, upper: bool)
    requires 2 <= base <= 16
    ensures AllDigits(Reverse(Rev(val, base, upper)), base) && Value(Reverse(Rev(val, base, upper)), base) == val
    decreases val
  {
    hide DigitChar, DigitValue, Reverse, AllDigits, Value;
    var d := DigitChar(val % base, upper);
    var rest := if val / base == 0 then "" else Rev(val / base, base, upper);
    assert Rev(val, base, upper) == [d] + rest;
    DigitBack(val % base, upper);
    DivMod(val, base);
    ReverseCons(d, rest);
    if val / base == 0 {
      EmptyValue(base);
    } else {
      QuotientLess(val, base);
      RevValue(val / base, base, upper);
    }
    ValueAppend(Reverse(rest), d, base);
  }

  lemma EmptyValue(base: nat)
    ensures Reverse("") == "" && AllDigits(Reverse(""), base) && Value(Reverse(""), base) == 0
  {
  }

  lemma {:induction false} ValueZeros(n: nat, s: string, base: nat)
    requires AllDigits(s, base) && base >= 2
    ensures AllDigits(Times('0', n) + s, base) && Value(Times('0', n) + s, base) == Value(s, base)
    decreases |s|, n
  {
    var t := Times('0', n) + s;
    if s != "" {
      ValueZeros(n, s[..|s| - 1], base);
      assert t[..|t| - 1] == Times('0', n) + s[..|s| - 1];
    } else if n > 0 {
      ValueZeros(n - 1, s, base);
      assert t[..|t| - 1] == Times('0', n - 1) + s;
    } else {
      assert t == s;
    }
  }

  // ---------------------------------------------------------------- reading a number

  function SkipSpaces(s: string): string {
    if s != "" && s[0] == ' ' then SkipSpaces(s[1..]) else s
  }

  /** How many digits of the base `s` starts with. */
  function DigitCount(s: string, base: nat): (n: nat)
    ensures n <= |s| && AllDigits(s[..n], base)
  {
    if s != "" && 0 <= DigitValue(s[0]) < base then
      var n := DigitCount(s[1..], base);
      assert s[..n + 1] == [s[0]] + s[1..][..n];
      n + 1
    else 0
  }

  predicate HasPrefix(s: string, base: nat) {
    && |s| >= 2 && s[0] == '0'
    && ((base == 16 && (s[1] == 'x' || s[1] == 'X')) || (base == 2 && (s[1] == 'b' || s[1] == 'B')))
  }

  function ReadUnsigned(s: string, base: nat): int {
    var t := if HasPrefix(s, base) then s[2..] else s;
    Value(t[..DigitCount(t, base)], base)
  }

  /** A number in the manner of strtoll: blanks, a sign, the prefix of the base, and all digits that follow. */
  function Read(s: string, base: nat): int {
    var t := SkipSpaces(s);
    if t != "" && t[0] == '-' then -ReadUnsigned(t[1..], base)
    else if t != "" && t[0] == '+' then ReadUnsigned(t[1..], base)
    else ReadUnsigned(t, base)
  }

  lemma {:induction false} SkipTimes(n: nat, s: string)
    ensures SkipSpaces(Times(' ', n) + s) == SkipSpaces(s)
  {
    if n == 0 {
      assert Times(' ', n) + s == s;
    } else {
      SkipTimes(n - 1, s);
      assert (Times(' ', n) + s)[1..] == Times(' ', n - 1) + s;
    }
  }

  lemma {:induction false} CountDigits(d: string, n: nat, base: nat)
    requires AllDigits(d, base)
    ensures DigitCount(d + Times(' ', n), base) == |d|
  {
    if d == "" {
    } else {
      CountDigits(d[1..], n, base);
      assert (d + Times(' ', n))[1..] == d[1..] + Times(' ', n);
    }
  }

  predicate IsPrefix(p: string, base: nat) {
    p == "" || (base == 16 && (p == "0x" || p == "0X")) || (base == 2 && (p == "0b" || p == "0B"))
  }

  /** No digit string looks like a prefix. */
  lemma NoPrefix(d: string, n: nat, base: nat)
    requires AllDigits(d, base)
    ensures !HasPrefix(d + Times(' ', n), base)
  {
    var s := d + Times(' ', n);
    if |s| >= 2 {
      assert s[1] == if 1 < |d| then d[1] else ' ';
      if 1 < |d| && base == 2 {
        assert DigitValue(d[1]) < 2;
      }
    }
  }

  /** Digits with an optional prefix in front and blanks behind read as the value of the digits. */
  lemma ReadDigits(prefix: string, d: string, n: nat, base: nat)
    requires AllDigits(d, base) && IsPrefix(prefix, base)
    ensures ReadUnsigned(prefix + d + Times(' ', n), base) == Value(d, base)
  {
    hide DigitCount, Times, AllDigits, Value;
    var t := d + Times(' ', n);
    var s := prefix + d + Times(' ', n);
    CountDigits(d, n, base);
    NoPrefix(d, n, base);
    assert t[..|d|] == d;
    assert s == prefix + t;
    if prefix != "" {
      assert s[0] == prefix[0] && s[1] == prefix[1];
      assert s[2..] == t;
    } else {
      assert s == t;
    }
  }

  predicate IsSign(sign: string, negative: bool) {
    if negative then sign == "-" else sign == "" || sign == "+" || sign == " "
  }

  /** A number as the conversions lay it out. */
  lemma ReadLayout(a: nat, sign: string, prefix: string, d: string, n: nat, base: nat, negative: bool)
    requires AllDigits(d, base) && IsPrefix(prefix, base) && IsSign(sign, negative)
    ensures Read(Times(' ', a) + (sign + (prefix + d + Times(' ', n))), base)
            == if negative then -Value(d, base) else Value(d, base)
  {
    var t := prefix + d + Times(' ', n);
    SkipTimes(a, sign + t);
    ReadDigits(prefix, d, n, base);
    if sign == "" {
      assert sign + t == t;
      LeadingDigit(prefix, d, n, base);
    } else if sign == " " {
      assert (sign + t)[1..] == t;
      LeadingDigit(prefix, d, n, base);
    } else {
      assert (sign + t)[1..] == t;
    }
  }

  /** Skipping blanks loses nothing of an unsigned number. */
  lemma LeadingDigit(prefix: string, d: string, n: nat, base: nat)
    requires AllDigits(d, base) && IsPrefix(prefix, base)
    ensures var t := prefix + d + Times(' ', n);
      && ReadUnsigned(SkipSpaces(t), base) == Value(d, base)
      && (SkipSpaces(t) != "" ==> SkipSpaces(t)[0] != '-' && SkipSpaces(t)[0] != '+')
  {
    var t := prefix + d + Times(' ', n);
    ReadDigits(prefix, d, n, base);
    if prefix + d == "" {
      assert t == Times(' ', n) + "";
      SkipTimes(n, "");
    } else {
      assert t[0] == (prefix + d)[0];
      assert DigitValue(t[0]) >= 0;
    }
  }

  // ---------------------------------------------------------------- fields

  predicate Numeric(c: Conversion) {
    IsInteger(c) || c == Binary || c == Pointer
  }

  /** The argument as the number it stands for. */
  function Argued(spec: Spec, a: Argument): int {
    if spec.conv == SignedInt then SignedArg(spec.modifier, a.word)
    else if spec.conv == Pointer then a.word % WORD
    else UnsignedArg(spec.modifier, a.word)
  }

  /** What parsing leaves: a width that is absent is zero. */
  predicate Sound(spec: Spec) {
    && (spec.widthOpt == Absent ==> spec.width == 0)
    && (spec.flags.prepend == NUL || spec.flags.prepend == '+' || spec.flags.prepend == ' ')
  }

  /** The zeros that precision or the `0` flag put in front. */
  function ZerosBefore(spec: Spec, p: Payload): nat {
    PrecPad(spec, p) + (if !spec.flags.left && PadChar(spec, p) == '0' then FieldPad(spec, p) else 0)
  }

  function ZerosAfter(spec: Spec, p: Payload): nat {
    if spec.flags.left && PadChar(spec, p) == '0' then FieldPad(spec, p) else 0
  }

  function SpacesBefore(spec: Spec, p: Payload): nat {
    if !spec.flags.left && PadChar(spec, p) == ' ' then FieldPad(spec, p) else 0
  }

  function SpacesAfter(spec: Spec, p: Payload): nat {
    if spec.flags.left && PadChar(spec, p) == ' ' then FieldPad(spec, p) else 0
  }

  function DigitText(spec: Spec, p: Payload): string {
    Times('0', ZerosBefore(spec, p)) + Reverse(p.rev) + Times('0', ZerosAfter(spec, p))
  }

  /** The layout of a number: blanks, sign, prefix, digits, blanks. */
  lemma Layout(spec: Spec, a: Argument)
    requires Numeric(spec.conv) && Sound(spec)
    ensures Field(spec, a) == Laid(spec, Convert(spec, a))
  {
    hide Lead, Body, Tail, Laid;
    hide Convert;
    var p := Convert(spec, a);
    SignOrPrefix(spec, a);
    NumericPad(spec, p);
    if spec.flags.left {
      LayoutLeft(spec, p);
    } else if PadChar(spec, p) == '0' {
      LayoutZero(spec, p);
    } else {
      LayoutSpaces(spec, p);
    }
  }

  function Laid(spec: Spec, p: Payload): string {
    Times(' ', SpacesBefore(spec, p))
      + (p.sign + (p.prefix + DigitText(spec, p) + Times(' ', SpacesAfter(spec, p))))
  }

  lemma LayoutLeft(spec: Spec, p: Payload)
    requires spec.conv != String && spec.flags.left && (p.sign == "" || p.prefix == "")
    requires PadChar(spec, p) == NUL ==> FieldPad(spec, p) == 0
    ensures Lead(spec, p) + Body(spec, p) + Tail(spec, p) == Laid(spec, p)
  {
    hide PrecPad, FieldPad, Reverse, PadChar;
    assert PadChar(spec, p) == NUL || PadChar(spec, p) == '0' || PadChar(spec, p) == ' ' by { PadChars(spec, p); }
    var z, r := PrecPad(spec, p), Reverse(p.rev);
    JoinLeft(p.sign, p.prefix, z, r, ZerosAfter(spec, p), SpacesAfter(spec, p));
    assert Tail(spec, p) == if ZerosAfter(spec, p) > 0 then Times('0', ZerosAfter(spec, p))
                            else Times(' ', SpacesAfter(spec, p));
  }

  lemma LayoutZero(spec: Spec, p: Payload)
    requires spec.conv != String && !spec.flags.left && PadChar(spec, p) == '0'
    ensures Lead(spec, p) + Body(spec, p) + Tail(spec, p) == Laid(spec, p)
  {
    hide PrecPad, FieldPad, Reverse, PadChar;
    JoinZero(p.sign, p.prefix, FieldPad(spec, p), PrecPad(spec, p), Reverse(p.rev));
  }

  lemma LayoutSpaces(spec: Spec, p: Payload)
    requires spec.conv != String && !spec.flags.left && PadChar(spec, p) != '0' && (p.sign == "" || p.prefix == "")
    requires PadChar(spec, p) == NUL ==> FieldPad(spec, p) == 0
    ensures Lead(spec, p) + Body(spec, p) + Tail(spec, p) == Laid(spec, p)
  {
    hide PrecPad, FieldPad, Reverse, PadChar;
    PadChars(spec, p);
    JoinSpaces(p.sign, p.prefix, SpacesBefore(spec, p), PrecPad(spec, p), Reverse(p.rev));
    assert Lead(spec, p) == Times(' ', SpacesBefore(spec, p)) + p.prefix;
  }

  lemma PadChars(spec: Spec, p: Payload)
    ensures PadChar(spec, p) == NUL || PadChar(spec, p) == '0' || PadChar(spec, p) == ' '
  {
  }

  lemma SignOrPrefix(spec: Spec, a: Argument)
    ensures Convert(spec, a).sign == "" || Convert(spec, a).prefix == ""
  {
  }

  lemma NumericPad(spec: Spec, p: Payload)
    requires Numeric(spec.conv) && Sound(spec)
    ensures PadChar(spec, p) == NUL ==> FieldPad(spec, p) == 0
  {
  }

  lemma JoinLeft(sign: string, prefix: string, z: nat, r: string, f: nat, g: nat)
    requires (sign == "" || prefix == "") && (f == 0 || g == 0)
    ensures prefix + (sign + Times('0', z) + r) + (if f > 0 then Times('0', f) else Times(' ', g))
            == Times(' ', 0) + (sign + (prefix + (Times('0', z) + r + Times('0', f)) + Times(' ', g)))
  {
    if sign == "" {
      assert sign + Times('0', z) + r == Times('0', z) + r;
    }
  }

  lemma JoinZero(sign: string, prefix: string, f: nat, z: nat, r: string)
    ensures (sign + prefix + Times('0', f)) + ("" + Times('0', z) + r) + ""
            == Times(' ', 0) + (sign + (prefix + (Times('0', z + f) + r + Times('0', 0)) + Times(' ', 0)))
  {
    assert Times('0', f) + Times('0', z) == Times('0', z + f);
  }

  lemma JoinSpaces(sign: string, prefix: string, f: nat, z: nat, r: string)
    requires sign == "" || prefix == ""
    ensures (Times(' ', f) + prefix) + (sign + Times('0', z) + r) + ""
            == Times(' ', f) + (sign + (prefix + (Times('0', z + 0) + r + Times('0', 0)) + Times(' ', 0)))
  {
    if sign == "" {
      assert sign + Times('0', z) + r == Times('0', z) + r;
    }
  }

  /** Sign, prefix and digits before padding. */
  lemma Converted(spec: Spec, a: Argument)
    requires Numeric(spec.conv) && Sound(spec)
    ensures var p := Convert(spec, a);
      && AllDigits(Reverse(p.rev), Base(spec.conv))
      && Value(Reverse(p.rev), Base(spec.conv)) == PrintfModel.Abs(Argued(spec, a))
      && IsSign(p.sign, Argued(spec, a) < 0) && IsPrefix(p.prefix, Base(spec.conv))
  {
    hide Rev, Value, AllDigits, Reverse;
    var v, base := PrintfModel.Abs(Argued(spec, a)), Base(spec.conv);
    RevValue(v, base, spec.conv != Pointer && spec.upper);
    EmptyValue(base);
    OctalZero(Rev(v, base, spec.conv != Pointer && spec.upper), base);
  }

  /** The leading zero of an octal number does not change its value. */
  lemma OctalZero(r: string, base: nat)
    requires AllDigits(Reverse(r), base) && base >= 2
    ensures AllDigits(Reverse(r + "0"), base) && Value(Reverse(r + "0"), base) == Value(Reverse(r), base)
  {
    assert Reverse(r + "0") == Times('0', 1) + Reverse(r);
    ValueZeros(1, Reverse(r), base);
  }

  lemma Reassociate(a: int, b: int, c: int)
    ensures a * b * c == a * (c * b)
  {
  }

  /** Zeros behind a number multiply it. */
  lemma {:induction false} ValueShifted(s: string, n: nat, base: nat)
    requires AllDigits(s, base) && base >= 2
    ensures AllDigits(s + Times('0', n), base)
    ensures Value(s + Times('0', n), base) == Value(s, base) * Power(base, n)
  {
    hide AllDigits, Value;
    if n == 0 {
      assert s + Times('0', n) == s;
    } else {
      ValueShifted(s, n - 1, base);
      assert s + Times('0', n) == (s + Times('0', n - 1)) + ['0'];
      ValueAppend(s + Times('0', n - 1), '0', base);
      Reassociate(Value(s, base), Power(base, n - 1), base);
    }
  }

  lemma {:induction false} PowerGrows(base: nat, n: nat)
    requires base >= 2
    ensures Power(base, n) >= 1 && (n > 0 ==> Power(base, n) >= 2)
  {
    if n == 0 {
    } else {
      PowerGrows(base, n - 1);
      assert base * Power(base, n - 1) >= 2 * Power(base, n - 1);
    }
  }

  lemma Unshifted(v: nat, base: nat, n: nat)
    requires base >= 2
    ensures v * Power(base, n) == v <==> v == 0 || n == 0
  {
    PowerGrows(base, n);
    if v > 0 && n > 0 {
      assert v * Power(base, n) >= v * 2;
    }
  }

  /** The width leaves room on the right, and `-` together with `0` fills it with zeros. */
  predicate FillsRight(spec: Spec, a: Argument) {
    && spec.flags.left && spec.flags.zero
    && spec.width > SignLength(spec, a) + PrefixLength(spec, a) + DigitLength(spec, a)
  }

  lemma ZerosOnRight(spec: Spec, a: Argument)
    requires Numeric(spec.conv) && Sound(spec) && Argued(spec, a) != 0
    ensures ZerosAfter(spec, Convert(spec, a)) > 0 <==> FillsRight(spec, a)
  {
    hide SignLength, PrefixLength, DigitLength, Rev;
    PayloadLengths(spec, a);
    assert !Convert(spec, a).zero;
  }

  /** Every integer conversion reads back as its argument, whatever the flags, width and precision, except when
      zeros are put on the right of a number that is not zero. */
  lemma ReadBack(spec: Spec, a: Argument)
    requires Numeric(spec.conv) && Sound(spec)
    ensures Read(Field(spec, a), Base(spec.conv)) == Argued(spec, a) <==> Argued(spec, a) == 0 || !FillsRight(spec, a)
  {
    hide Field, Convert, Lead, Body, Tail, AllDigits, ZerosBefore, ZerosAfter, SpacesBefore, SpacesAfter, Read,
      Argued, Power, Value, FillsRight;
    var p := Convert(spec, a);
    var base, v := Base(spec.conv), PrintfModel.Abs(Argued(spec, a));
    Layout(spec, a);
    Converted(spec, a);
    ValueZeros(ZerosBefore(spec, p), Reverse(p.rev), base);
    ValueShifted(Times('0', ZerosBefore(spec, p)) + Reverse(p.rev), ZerosAfter(spec, p), base);
    ReadLayout(SpacesBefore(spec, p), p.sign, p.prefix, DigitText(spec, p), SpacesAfter(spec, p), base,
               Argued(spec, a) < 0);
    Unshifted(v, base, ZerosAfter(spec, p));
    if Argued(spec, a) != 0 {
      ZerosOnRight(spec, a);
    }
  }

  /** A directive without an asterisk never puts zeros on the right. */
  lemma LiteralReadsBack(s: string, i: nat, a: Argument)
    requires ParseSpec(s, i).Some? && ParseSpec(s, i).value.0.widthOpt != Star
    ensures var spec := ParseSpec(s, i).value.0;
      Numeric(spec.conv) ==> Sound(spec) && Read(Field(spec, a), Base(spec.conv)) == Argued(spec, a)
  {
    hide Field, Convert, Read, Argued, PadChar, FieldPad;
    var spec := ParseSpec(s, i).value.0;
    FlagsSound(s, i + 1, NO_FLAGS);
    WidthSound(s, ParseFlags(s, i + 1, NO_FLAGS).1);
    if Numeric(spec.conv) {
      ReadBack(spec, a);
    }
  }

  predicate FlagsOk(f: Flags) {
    !(f.left && f.zero) && (f.prepend == NUL || f.prepend == '+' || f.prepend == ' ')
  }

  lemma {:induction false} FlagsSound(s: string, i: nat, f: Flags)
    requires FlagsOk(f)
    ensures FlagsOk(ParseFlags(s, i, f).0)
    decreases |s| - i
  {
    if !IsFlag(Peek(s, i)) {
    } else {
      FlagsSound(s, i + 1, FlagStep(f, s[i]));
    }
  }

  lemma WidthSound(s: string, i: nat)
    ensures ParseWidth(s, i).1 == Absent ==> ParseWidth(s, i).0 == 0
  {
  }

  /** A negative width from an argument does: `%0*d` of 7 with width -5 does not read as 7. */
  lemma StarZerosAfter()
    ensures var spec := Spec(Flags(true, true, NUL, false), 5, Star, 0, Absent, Plain, SignedInt, false);
      Read(Field(spec, Argument(7, "")), 10) != 7
  {
    hide Field, Read, Argued, FillsRight;
    var spec := Spec(Flags(true, true, NUL, false), 5, Star, 0, Absent, Plain, SignedInt, false);
    SevenFills(spec);
    ReadBack(spec, Argument(7, ""));
  }

  lemma SevenFills(spec: Spec)
    requires spec == Spec(Flags(true, true, NUL, false), 5, Star, 0, Absent, Plain, SignedInt, false)
    ensures Argued(spec, Argument(7, "")) == 7 && FillsRight(spec, Argument(7, ""))
  {
    assert |Rev(7, 10, false)| == 1;
  }

  // ---------------------------------------------------------------- lengths

  /** A number has `n` digits if it lies between two powers of the base. */
  predicate HasDigits(val: nat, base: nat, n: nat) {
    n > 0 && Power(base, n - 1) <= val < Power(base, n)
  }

  lemma {:induction false} RevLength(val: nat, base: nat, upper: bool)
    requires 2 <= base <= 16 && val > 0
    ensures HasDigits(val, base, |Rev(val, base, upper)|)
    decreases val
  {
    hide HasDigits, Rev;
    RevStep(val, base, upper);
    if val / base == 0 {
      OneDigit(val, base);
    } else {
      RevLength(val / base, base, upper);
      OneMoreDigit(val, base, |Rev(val / base, base, upper)|);
    }
  }

  lemma OneDigit(val: nat, base: nat)
    requires base > 0 && val > 0 && val / base == 0
    ensures HasDigits(val, base, 1)
  {
    DivMod(val, base);
    PowerStart(base);
  }

  lemma OneMoreDigit(val: nat, base: nat, n: nat)
    requires base > 0 && HasDigits(val / base, base, n)
    ensures HasDigits(val, base, n + 1)
  {
    hide Power, Scale;
    Between(val, base, Power(base, n - 1), Power(base, n));
    PowerStep(base, n);
    PowerStep(base, n + 1);
  }

  lemma RevStep(val: nat, base: nat, upper: bool)
    requires 2 <= base <= 16
    ensures val / base == 0 ==> |Rev(val, base, upper)| == 1
    ensures val / base != 0 ==> val / base < val && |Rev(val, base, upper)| == 1 + |Rev(val / base, base, upper)|
  {
    if val / base != 0 {
      QuotientLess(val, base);
    }
  }

  lemma PowerStart(base: nat)
    ensures Power(base, 0) == 1 && Power(base, 1) == base
  {
  }

  lemma PowerStep(base: nat, n: nat)
    requires n > 0
    ensures Power(base, n) == Scale(base, Power(base, n - 1))
  {
  }

  function Scale(a: nat, b: nat): nat {
    a * b
  }

  lemma Between(val: nat, base: nat, lo: nat, hi: nat)
    requires base > 0 && lo <= val / base < hi
    ensures Scale(base, lo) <= val < Scale(base, hi)
  {
    var q := val / base;
    DivMod(val, base);
    MulMono(lo, q, base);
    MulMono(q + 1, hi, base);
  }

  function Max(a: nat, b: nat): nat {
    if a >= b then a else b
  }

  function SignLength(spec: Spec, a: Argument): nat {
    if spec.conv == SignedInt && (Argued(spec, a) < 0 || spec.flags.prepend != NUL) then 1 else 0
  }

  function PrefixLength(spec: Spec, a: Argument): nat {
    if spec.conv == Pointer || (spec.flags.alt && Argued(spec, a) != 0 && (spec.conv == HexInt || spec.conv == Binary))
    then 2 else 0
  }

  /** The digits of the number, none for a zero with precision zero; `#` makes an octal number start with 0. */
  function DigitLength(spec: Spec, a: Argument): nat {
    var v := Argued(spec, a);
    var octal := spec.conv == Octal && spec.flags.alt;
    if v == 0 && spec.conv != Pointer && spec.precOpt != Absent && spec.prec == 0 then (if octal then 1 else 0)
    else Max(spec.prec, |Rev(PrintfModel.Abs(v), Base(spec.conv), false)| + (if octal && v != 0 then 1 else 0))
  }

  lemma PayloadLengths(spec: Spec, a: Argument)
    requires Numeric(spec.conv)
    ensures var p := Convert(spec, a);
      && |p.sign| == SignLength(spec, a) && |p.prefix| == PrefixLength(spec, a)
      && Max(p.prec, |p.rev|) == DigitLength(spec, a)
  {
    hide Rev;
    var v := PrintfModel.Abs(Argued(spec, a));
    CaseLength(v, Base(spec.conv), spec.upper);
  }

  /** The length of a field is the width, or what sign, prefix and digits need if that is more. */
  lemma FieldLength(spec: Spec, a: Argument)
    requires Numeric(spec.conv) && Sound(spec)
    ensures |Field(spec, a)| == Max(spec.width, SignLength(spec, a) + PrefixLength(spec, a) + DigitLength(spec, a))
  {
    hide Convert, SignLength, PrefixLength, DigitLength;
    PayloadLengths(spec, a);
  }

  /** Letter case does not change lengths. */
  lemma {:induction false} CaseLength(val: nat, base: nat, upper: bool)
    requires 2 <= base <= 16
    ensures |Rev(val, base, upper)| == |Rev(val, base, false)|
    decreases val
  {
    if val / base == 0 {
    } else {
      QuotientLess(val, base);
      CaseLength(val / base, base, upper);
    }
  }
}
