/** The formatter of kernel/libc/stdio/nanoprintf.h, in the configuration of kernel/libc/stdio/printf.c. */
module Printf {
  import opened Arithmetic
  import opened Wrappers
  import opened PrintfModel
  import opened PrintfTheorems
  import Bits

  const CONVERSION_BUFFER_SIZE: nat := 23

  // ---------------------------------------------------------------- parsing

  method ScanFlags(s: string, start: nat) returns (f: Flags, cur: nat)
    ensures (f, cur) == ParseFlags(s, start, NO_FLAGS)
  {
    f, cur := NO_FLAGS, start;
    while IsFlag(Peek(s, cur))
      invariant ParseFlags(s, start, NO_FLAGS) == ParseFlags(s, cur, f)
      decreases |s| - cur
    {
      var c := s[cur];
      if c == '-' {
        f := f.(left := true, zero := false);
      } else if c == '0' {
        f := f.(zero := !f.left);
      } else if c == '+' {
        f := f.(prepend := '+');
      } else if c == ' ' {
        if f.prepend == NUL {
          f := f.(prepend := ' ');
        }
      } else {
        f := f.(alt := true);
      }
      cur := cur + 1;
    }
  }

  method ScanNumber(s: string, start: nat) returns (v: nat, cur: nat)
    ensures (v, cur) == ParseNumber(s, start, 0)
  {
    v, cur := 0, start;
    while IsDigit(Peek(s, cur))
      invariant ParseNumber(s, start, 0) == ParseNumber(s, cur, v)
      decreases |s| - cur
    {
      v := v * 10 + Digit(s[cur]);
      cur := cur + 1;
    }
  }

  /** Width and precision. */
  method ScanSizes(s: string, start: nat) returns (w: nat, wo: Option3, p: nat, po: Option3, cur: nat)
    ensures (w, wo) == (ParseWidth(s, start).0, ParseWidth(s, start).1)
    ensures (p, po, cur) == ParsePrecision(s, ParseWidth(s, start).2)
  {
    w, wo, cur := 0, Absent, start;
    if Peek(s, cur) == '*' {
      wo := Star;
      cur := cur + 1;
    } else {
      if IsDigit(Peek(s, cur)) {
        wo := Literal;
      }
      w, cur := ScanNumber(s, cur);
    }
    p, po := 0, Absent;
    if Peek(s, cur) == '.' {
      cur := cur + 1;
      if Peek(s, cur) == '*' {
        po := Star;
        cur := cur + 1;
      } else {
        if Peek(s, cur) == '-' {
          cur := cur + 1;
        } else {
          po := Literal;
        }
        p, cur := ScanNumber(s, cur);
      }
    }
  }

  /** npf_parse_format_spec. */
  method ParseFormatSpec(s: string, at: nat) returns (r: Option<(Spec, nat)>)
    ensures r == ParseSpec(s, at)
  {
    hide ParseFlags, ParseWidth, ParsePrecision;
    var f, cur := ScanFlags(s, at + 1);
    var w, wo, p, po, cur2 := ScanSizes(s, cur);
    var (m, end) := ParseModifier(s, cur2);
    var c := ConversionOf(Peek(s, end));
    if c.None? {
      return None;
    }
    var upper := Peek(s, end) == 'X' || Peek(s, end) == 'B';
    return Some((Adjust(Spec(f, w, wo, p, po, m, c.value, upper)), end + 1));
  }

  // ---------------------------------------------------------------- conversion

  /** npf_utoa_rev. */
  method UtoaRev(val: nat, buf: array<char>, base: nat, upper: bool) returns (n: nat)
    requires 2 <= base <= 16 && |Rev(val, base, upper)| <= buf.Length
    modifies buf
    ensures n == |Rev(val, base, upper)| && buf[..n] == Rev(val, base, upper)
  {
    hide Rev;
    ghost var r := Rev(val, base, upper);
    var v: nat := val;
    n := 0;
    while true
      invariant n + |Rev(v, base, upper)| == |r| && buf[..n] + Rev(v, base, upper) == r
      decreases v
    {
      RevParts(v, base, upper);
      var d, q := DigitChar(v % base, upper), v / base;
      ghost var before := buf[..n];
      buf[n] := d;
      n := n + 1;
      assert buf[..n] == before + [d];
      if q == 0 {
        break;
      }
      v := q;
    }
  }

  lemma RevParts(v: nat, base: nat, upper: bool)
    requires 2 <= base <= 16
    ensures v % base < 16 && 0 <= v / base && (v / base != 0 ==> v / base < v)
    ensures Rev(v, base, upper)
            == [DigitChar(v % base, upper)] + (if v / base == 0 then "" else Rev(v / base, base, upper))
  {
    if v / base != 0 {
      QuotientLess(v, base);
    }
  }

  /** The switch of npf_vpprintf over the signed conversions. */
  method SignedPayload(spec: Spec, v: int) returns (p: Payload)
    requires Abs(v) < WORD
    ensures p == ConvertSigned(spec, v)
  {
    var cbuf := new char[CONVERSION_BUFFER_SIZE];
    var len := 0;
    if !(v == 0 && spec.precOpt != Absent && spec.prec == 0) {
      DigitsFit(Abs(v), 10, spec.upper);
      len := UtoaRev(Abs(v), cbuf, 10, spec.upper);
    }
    p := Payload(cbuf[..len], SignText(v, spec.flags.prepend), "", spec.prec, v == 0);
  }

  /** The switch of npf_vpprintf over the unsigned conversions. */
  method UnsignedPayload(spec: Spec, v: nat) returns (p: Payload)
    requires v < WORD && IsInteger(spec.conv)
    ensures p == ConvertUnsigned(spec, v)
  {
    var cbuf := new char[CONVERSION_BUFFER_SIZE];
    var len, prec, prefix := 0, spec.prec, "";
    DigitsFit(v, Base(spec.conv), spec.upper);
    if v == 0 && spec.precOpt != Absent && spec.prec == 0 {
      if spec.conv == Octal && spec.flags.alt {
        prec := 1;
      }
    } else {
      len := UtoaRev(v, cbuf, Base(spec.conv), spec.upper);
    }
    if v != 0 && spec.flags.alt && spec.conv == Octal {
      ghost var digits := cbuf[..len];
      cbuf[len] := '0';
      len := len + 1;
      assert cbuf[..len] == digits + "0";
    }
    if v != 0 && spec.flags.alt && spec.conv == HexInt {
      prefix := if spec.upper then "0X" else "0x";
    }
    p := Payload(cbuf[..len], "", prefix, prec, v == 0);
  }

  /** npf_bin_len, without the intrinsics. */
  method BinLen(u: nat) returns (n: nat)
    ensures n == |Rev(u, 2, false)|
  {
    hide Rev;
    RevParts(u, 2, false);
    if u == 0 {
      return 1;
    }
    n := 0;
    var w: nat := u;
    while w != 0
      invariant n + (if w == 0 then 0 else |Rev(w, 2, false)|) == |Rev(u, 2, false)|
      decreases w
    {
      RevParts(w, 2, false);
      w := w / 2;
      n := n + 1;
    }
  }

  /** The bits that the loop of %b takes out of `v`, the lowest first as in the buffer of the other conversions. */
  method BinaryDigits(v: nat, upper: bool) returns (digits: string)
    ensures digits == Rev(v, 2, upper)
  {
    hide Rev, Bits.Shr, Bits.And;
    var len := BinLen(v);
    CaseLength(v, 2, upper);
    digits := "";
    var k := 0;
    BitStart(v);
    while k < len
      invariant 0 <= k <= len && |digits| == k
      invariant k < len ==> digits + Rev(Bits.Shr(v, k), 2, upper) == Rev(v, 2, upper)
      invariant k == len ==> digits == Rev(v, 2, upper)
    {
      RevParts(Bits.Shr(v, k), 2, upper);
      Bits.AndOne(Bits.Shr(v, k));
      Bits.ShrNext(v, k);
      digits := digits + [('0' as nat + Bits.And(Bits.Shr(v, k), 1)) as char];
      k := k + 1;
    }
  }

  lemma BitStart(v: nat)
    ensures Bits.Shr(v, 0) == v
  {
  }

  /** The payload of %b. */
  method BinaryPayload(spec: Spec, v: nat) returns (p: Payload)
    requires v < WORD && spec.conv == Binary
    ensures p == ConvertUnsigned(spec, v)
  {
    hide Rev;
    var digits := "";
    if !(v == 0 && spec.precOpt != Absent && spec.prec == 0) {
      digits := BinaryDigits(v, spec.upper);
    }
    var prefix := if v != 0 && spec.flags.alt then PrefixText(Binary, spec.upper) else "";
    p := Payload(digits, "", prefix, spec.prec, v == 0);
  }

  /** How much of a string %s prints. */
  method StringLength(spec: Spec, text: string) returns (n: nat)
    ensures n == if spec.precOpt == Absent || |text| <= spec.prec then |text| else spec.prec
  {
    n := 0;
    while (spec.precOpt == Absent || n < spec.prec) && n < |text|
      invariant n <= |text| && (spec.precOpt == Absent || n <= spec.prec || n == 0)
      decreases |text| - n
    {
      n := n + 1;
    }
  }

  /** The conversion switch of npf_vpprintf. */
  method ConvertArgument(spec: Spec, a: Argument) returns (p: Payload)
    ensures p == Convert(spec, a)
  {
    match spec.conv
    case Percent => p := Payload("%", "", "", spec.prec, false);
    case Character => p := Payload([(a.word % 256) as char], "", "", spec.prec, false);
    case String =>
      var n := StringLength(spec, a.text);
      p := Payload(a.text[..n], "", "", spec.prec, false);
    case SignedInt => p := SignedPayload(spec, SignedArg(spec.modifier, a.word));
    case Binary => p := BinaryPayload(spec, UnsignedArg(spec.modifier, a.word));
    case Pointer =>
      var cbuf := new char[CONVERSION_BUFFER_SIZE];
      DigitsFit(a.word % WORD, 16, false);
      var len := UtoaRev(a.word % WORD, cbuf, 16, false);
      p := Payload(cbuf[..len], "", "0x", spec.prec, false);
    case _ => p := UnsignedPayload(spec, UnsignedArg(spec.modifier, a.word));
  }

  // ---------------------------------------------------------------- output

  /** npf_cnt_putc_ctx_t over npf_bufputc_ctx_t: a counter in front of a bounded buffer, which may be missing. */
  class Sink {
    const dst: array?<char>
    var cur: nat
    var n: nat
    ghost var all: string

    ghost predicate Valid()
      reads this, dst
    {
      && n == |all|
      && (dst != null ==>
        cur == (if |all| <= dst.Length then |all| else dst.Length) && dst[..cur] == all[..cur])
    }

    constructor (dst: array?<char>)
      ensures Valid() && this.dst == dst && all == ""
    {
      this.dst := dst;
      cur, n, all := 0, 0, "";
    }

    /** npf_bufputc, or nothing without a buffer. */
    method Store(c: char)
      modifies `cur, dst
      ensures dst != null && old(cur) < dst.Length ==>
        cur == old(cur) + 1 && dst[..] == old(dst[..])[old(cur) := c]
      ensures dst == null || old(cur) >= dst.Length ==> cur == old(cur)
      ensures dst != null && old(cur) >= dst.Length ==> dst[..] == old(dst[..])
    {
      if dst != null && cur < dst.Length {
        dst[cur] := c;
        cur := cur + 1;
      }
    }

    /** npf_putc_cnt. */
    method Put(c: char)
      requires Valid()
      modifies this, dst
      ensures Valid() && all == old(all) + [c]
      ensures dst != null ==> forall i :: cur <= i < dst.Length ==> dst[i] == old(dst[i])
    {
      n := n + 1;
      ghost var was := if dst == null then "" else dst[..];
      Store(c);
      all := all + [c];
      if dst != null {
        assert forall i :: cur <= i < dst.Length ==> dst[..][i] == was[i];
        assert dst[..cur] == dst[..][..cur] && forall i :: 0 <= i < cur ==> dst[..][i] == all[i];
      }
    }

    method Count() returns (count: nat)
      requires Valid()
      ensures count == |all|
    {
      count := n;
    }

    method PutTimes(c: char, count: nat)
      requires Valid()
      modifies this, dst
      ensures Valid() && all == old(all) + Times(c, count)
    {
      var k := count;
      ghost var start := all;
      while k > 0
        invariant 0 <= k <= count && Valid() && all == start + Times(c, count - k)
      {
        Put(c);
        k := k - 1;
      }
    }

    method PutText(s: string)
      requires Valid()
      modifies this, dst
      ensures Valid() && all == old(all) + s
    {
      ghost var start := all;
      var k := 0;
      while k < |s|
        invariant k <= |s| && Valid() && all == start + s[..k]
      {
        Put(s[k]);
        k := k + 1;
      }
    }

    method PutReversed(s: string)
      requires Valid()
      modifies this, dst
      ensures Valid() && all == old(all) + Reverse(s)
    {
      ghost var start := all;
      var k := |s|;
      while k > 0
        invariant 0 <= k <= |s| && Valid() && all == start + Reverse(s)[..|s| - k]
      {
        k := k - 1;
        Put(s[k]);
      }
    }
  }

  /** Left padding and prefix, and the sign if zeros follow; `sign` is what is left of it. */
  method EmitLead(sink: Sink, spec: Spec, p: Payload) returns (sign: string)
    requires sink.Valid()
    modifies sink, sink.dst
    ensures sink.Valid() && sink.all == old(sink.all) + Lead(spec, p)
    ensures sign == if !spec.flags.left && PadChar(spec, p) == '0' then "" else p.sign
  {
    hide Times, Sink.Valid, PrecPad, FieldPad, PadChar;
    ghost var start := sink.all;
    var padC := PadChar(spec, p);
    sign := p.sign;
    if !spec.flags.left && padC != NUL {
      if padC == '0' {
        sink.PutText(sign);
        sign := "";
        sink.PutText(p.prefix);
        sink.PutTimes(padC, FieldPad(spec, p));
        assert sink.all == start + (p.sign + p.prefix + Times('0', FieldPad(spec, p)));
      } else {
        sink.PutTimes(padC, FieldPad(spec, p));
        sink.PutText(p.prefix);
        assert sink.all == start + (Times(padC, FieldPad(spec, p)) + p.prefix);
      }
    } else {
      sink.PutText(p.prefix);
    }
  }

  /** The payload: a string as it is, a number with its sign and the zeros of the precision. */
  method EmitBody(sink: Sink, spec: Spec, p: Payload, sign: string)
    requires sink.Valid() && sign == if !spec.flags.left && PadChar(spec, p) == '0' then "" else p.sign
    modifies sink, sink.dst
    ensures sink.Valid() && sink.all == old(sink.all) + Body(spec, p)
  {
    hide Times, Reverse, Sink.Valid, PrecPad, FieldPad, PadChar;
    if spec.conv == String {
      sink.PutText(p.rev);
    } else {
      ghost var start := sink.all;
      sink.PutText(sign);
      sink.PutTimes('0', PrecPad(spec, p));
      sink.PutReversed(p.rev);
      assert sink.all == start + (sign + Times('0', PrecPad(spec, p)) + Reverse(p.rev));
    }
  }

  /** The padding half of npf_vpprintf. */
  method EmitField(sink: Sink, spec: Spec, p: Payload)
    requires sink.Valid()
    modifies sink, sink.dst
    ensures sink.Valid() && sink.all == old(sink.all) + (Lead(spec, p) + Body(spec, p) + Tail(spec, p))
  {
    hide Times, Sink.Valid, Lead, Body, FieldPad, PadChar;
    ghost var start := sink.all;
    var sign := EmitLead(sink, spec, p);
    EmitBody(sink, spec, p, sign);
    var padC := PadChar(spec, p);
    if spec.flags.left && padC != NUL {
      sink.PutTimes(padC, FieldPad(spec, p));
    }
    assert sink.all == start + (Lead(spec, p) + Body(spec, p) + Tail(spec, p));
  }

  method FormatOne(sink: Sink, spec: Spec, a: Argument)
    requires sink.Valid()
    modifies sink, sink.dst
    ensures sink.Valid() && sink.all == old(sink.all) + Field(spec, a)
  {
    hide Sink.Valid, Lead, Body, Tail, Convert;
    var p := ConvertArgument(spec, a);
    EmitField(sink, spec, p);
  }

  /** One round of the loop of npf_vpprintf. */
  method FormatNext(sink: Sink, format: string, cur: nat, args: Arguments, taken: nat)
    returns (next: nat, taken': nat)
    requires sink.Valid() && cur < |format|
    modifies sink, sink.dst
    ensures sink.Valid() && sink.all == old(sink.all) + NextRound(format, cur, args, taken).text
    ensures next == NextRound(format, cur, args, taken).next && taken' == NextRound(format, cur, args, taken).taken
  {
    hide Sink.Valid, ParseSpec, Field, TakeStars;
    var r := None;
    if format[cur] == '%' {
      r := ParseFormatSpec(format, cur);
    }
    match r {
      case None =>
        sink.Put(format[cur]);
        next, taken' := cur + 1, taken;
      case Some((spec, end)) =>
        var (spec1, n1) := TakeStars(spec, args, taken);
        FormatOne(sink, spec1, args(n1));
        next, taken' := end, if TakesArgument(spec1.conv) then n1 + 1 else n1;
    }
  }

  /** npf_vpprintf: the text of the whole format, and its length. */
  method Vpprintf(sink: Sink, format: string, args: Arguments) returns (n: nat)
    requires sink.Valid() && sink.all == "" && NUL !in format
    modifies sink, sink.dst
    ensures sink.Valid() && sink.all == Output(format, 0, args, 0) && n == |sink.all|
  {
    hide Sink.Valid, NextRound;
    var cur, taken := 0, 0;
    while cur < |format|
      invariant sink.Valid() && cur <= |format|
      invariant sink.all + Output(format, cur, args, taken) == Output(format, 0, args, 0)
      decreases |format| - cur
    {
      cur, taken := FormatNext(sink, format, cur, args, taken);
    }
    n := sink.Count();
  }

  /** npf_vsnprintf: the buffer gets as much of the text as leaves room for the final NUL, and the full length is
      returned in any case. */
  method Vsnprintf(buffer: array?<char>, format: string, args: Arguments) returns (n: nat)
    requires NUL !in format
    modifies buffer
    ensures n == |Output(format, 0, args, 0)|
    ensures buffer != null && buffer.Length > 0 ==>
      var m := if n < buffer.Length then n else buffer.Length - 1;
      buffer[m] == NUL && buffer[..m] == Output(format, 0, args, 0)[..m]
  {
    hide Output;
    var sink := new Sink(buffer);
    n := Vpprintf(sink, format, args);
    sink.Store(NUL);
    if buffer != null && buffer.Length > 0 {
      buffer[buffer.Length - 1] := NUL;
    }
  }
}
