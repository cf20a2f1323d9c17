/** The bit operations of C on unsigned numbers. */
module Bits {
  import opened Arithmetic

  /** `a | b`. */
  function Or(a: nat, b: nat): nat
    decreases a + b
  {
    if a == 0 && b == 0 then 0
    else 2 * Or(a / 2, b / 2) + (if a % 2 == 1 || b % 2 == 1 then 1 else 0)
  }

  /** `a & b`. */
  function And(a: nat, b: nat): nat
    decreases a + b
  {
    if a == 0 && b == 0 then 0
    else 2 * And(a / 2, b / 2) + (if a % 2 == 1 && b % 2 == 1 then 1 else 0)
  }

  /** `a << k`, without a limit. */
  function Shl(a: nat, k: nat): nat {
    if k == 0 then a else 2 * Shl(a, k - 1)
  }

  /** `a >> k`. */
  function Shr(a: nat, k: nat): nat {
    if k == 0 then a else Shr(a / 2, k - 1)
  }

  lemma {:induction false} ShrNext(a: nat, k: nat)
    ensures Shr(a, k + 1) == Shr(a, k) / 2
  {
    if k == 0 {
      assert Shr(a / 2, 0) == a / 2;
    } else {
      ShrNext(a / 2, k - 1);
    }
  }

  lemma AndOne(a: nat)
    ensures And(a, 1) == a % 2
  {
    AndZero(a / 2);
    assert And(a, 1) == 2 * And(a / 2, 0) + a % 2;
  }

  lemma {:induction false} ShlPositive(k: nat)
    ensures Shl(1, k) > 0
  {
    if k == 0 {
    } else {
      ShlPositive(k - 1);
    }
  }

  lemma {:induction false} OrZero(a: nat)
    ensures Or(a, 0) == a
  {
    if a == 0 {
      assert Or(a, 0) == 0;
    } else {
      OrZero(a / 2);
    }
  }

  lemma OrOne(v: nat)
    ensures Or(v, 1) == if v % 2 == 1 then v else v + 1
  {
    OrZero(v / 2);
    assert Or(v, 1) == 2 * Or(v / 2, 0) + 1;
  }

  lemma {:induction false} AndZero(a: nat)
    ensures And(a, 0) == 0
  {
    if a == 0 {
      assert And(a, 0) == 0;
    } else {
      AndZero(a / 2);
    }
  }

  /** A number that fits below another one is put to it by `|` as by `+`. */
  lemma {:induction false} OrLow(k: nat, a: nat, b: nat)
    requires b < Shl(1, k)
    ensures Or(Shl(a, k), b) == Shl(a, k) + b
    decreases k
  {
    if k == 0 {
      OrZero(a);
    } else {
      OrLow(k - 1, a, b / 2);
    }
  }

  /** Masking with ones takes the low bits. */
  lemma {:induction false} AndOnes(m: nat, v: nat)
    ensures Shl(1, m) > 0 && And(v, Shl(1, m) - 1) == v - Shl(Shr(v, m), m)
    decreases m
  {
    if m == 0 {
      AndZero(v);
    } else {
      AndOnes(m - 1, v / 2);
    }
  }

  /** Masking with a shifted mask takes a field. */
  lemma {:induction false} AndField(k: nat, mask: nat, v: nat)
    ensures And(v, Shl(mask, k)) == Shl(And(Shr(v, k), mask), k)
    decreases k
  {
    if k == 0 {
      assert Shl(mask, k) == mask;
    } else {
      AndField(k - 1, mask, v / 2);
    }
  }

  /** Shifts are multiplication and division by a power of two. */
  lemma {:induction false} ShlMul(a: nat, k: nat)
    ensures Shl(a, k) == a * Shl(1, k)
  {
    if k == 0 {
      assert Shl(a, k) == a;
    } else {
      ShlMul(a, k - 1);
      assert 2 * (a * Shl(1, k - 1)) == a * (2 * Shl(1, k - 1));
    }
  }

  lemma {:induction false} ShrDiv(a: nat, k: nat)
    ensures Shl(1, k) > 0 && Shr(a, k) == a / Shl(1, k)
  {
    ShlPositive(k);
    if k == 0 {
      assert Shr(a, k) == a;
    } else {
      ShlPositive(k - 1);
      ShrDiv(a / 2, k - 1);
      HalfDiv(a, Shl(1, k - 1));
    }
  }

  lemma HalfDiv(v: nat, p: nat)
    requires p > 0
    ensures v / 2 / p == v / (2 * p)
  {
    var h := v / 2;
    DivMod(h, p);
    var q, r := h / p, h % p;
    assert v == q * (2 * p) + (2 * r + v % 2);
    Euclid(v, 2 * p, q, 2 * r + v % 2);
  }

  /** Bits of both numbers count twice in the sum and once in `|`. */
  lemma {:induction false} OrAnd(a: nat, b: nat)
    ensures Or(a, b) + And(a, b) == a + b
    decreases a + b
  {
    if a == 0 && b == 0 {
      assert Or(a, b) == And(a, b) == 0;
    } else {
      OrAnd(a / 2, b / 2);
    }
  }

  lemma {:induction false} AndComm(a: nat, b: nat)
    ensures And(a, b) == And(b, a)
    decreases a + b
  {
    if a == 0 && b == 0 {
      assert a == b;
    } else {
      AndComm(a / 2, b / 2);
    }
  }

  /** A number below `2^k` has no bit in common with a multiple of it. */
  lemma AndLow(k: nat, a: nat, b: nat)
    requires b < Shl(1, k)
    ensures And(Shl(a, k), b) == 0
  {
    OrLow(k, a, b);
    OrAnd(Shl(a, k), b);
  }

  /** A mask and its complement take a word apart. */
  lemma {:induction false} AndComplement(n: nat, v: nat, mask: nat)
    requires v < Shl(1, n) && mask < Shl(1, n)
    ensures And(v, mask) + And(v, Shl(1, n) - 1 - mask) == v
    decreases n
  {
    if n == 0 {
      assert v == mask == 0;
    } else {
      AndComplement(n - 1, v / 2, mask / 2);
      assert (Shl(1, n) - 1 - mask) / 2 == Shl(1, n - 1) - 1 - mask / 2;
    }
  }
}
