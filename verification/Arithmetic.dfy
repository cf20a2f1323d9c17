/** Machine words, and facts about products and quotients. */
module Arithmetic {

  /** PAGE_SIZE of the kernel. */
  const PAGE: nat := 4096
  const UINT: nat := 0x1_0000_0000
  const WORD: nat := 0x1_0000_0000_0000_0000

  lemma MulMono(a: nat, b: nat, c: nat)
    requires a <= b
    ensures a * c <= b * c
  {
    assert (b - a) * c >= 0;
    assert b * c == a * c + (b - a) * c;
  }

  lemma Successor(a: nat, c: nat)
    ensures (a + 1) * c == a * c + c
  {
  }

  /** Numbers in different rows of length `d`. */
  lemma Lower(q: nat, r: nat, q': nat, r': nat, d: nat)
    requires r < d && q < q'
    ensures q * d + r < q' * d + r'
  {
    MulMono(q + 1, q', d);
    Successor(q, d);
  }

  lemma DivMod(v: nat, d: nat)
    requires d > 0
    ensures 0 <= v / d && v % d < d && v / d * d + v % d == v
  {
  }

  /** Quotient and remainder are unique. */
  lemma Euclid(v: nat, d: nat, q: nat, r: nat)
    requires r < d && v == q * d + r
    ensures v / d == q && v % d == r
  {
    DivMod(v, d);
    var q', r' := v / d, v % d;
    if q < q' {
      Lower(q, r, q', r', d);
    } else if q' < q {
      Lower(q', r', q, r, d);
    }
  }

  lemma DivDiv(v: nat, a: nat, b: nat)
    requires a > 0 && b > 0
    ensures a * b > 0 && v / a / b == v / (a * b)
  {
    Split(v, a, b);
  }

  /** A remainder in two digits. */
  lemma ModSplit(v: nat, a: nat, b: nat)
    requires a > 0 && b > 0
    ensures a * b > 0 && v % (a * b) == v / a % b * a + v % a
  {
    Split(v, a, b);
  }

  lemma Split(v: nat, a: nat, b: nat)
    requires a > 0 && b > 0
    ensures a * b > 0 && v / (a * b) == v / a / b && v % (a * b) == v / a % b * a + v % a
  {
    DivMod(v, a);
    var h := v / a;
    DivMod(h, b);
    var q, r := h / b, h % b;
    assert h * a == q * (b * a) + r * a by { Distribute(q, b, r, a); }
    Lower(r, v % a, b, 0, a);
    assert a * b == b * a;
    Euclid(v, a * b, q, r * a + v % a);
  }

  lemma Distribute(q: nat, b: nat, r: nat, a: nat)
    ensures (q * b + r) * a == q * (b * a) + r * a
  {
  }
}
