/** Bitwise operations of the C++ and Python sources on natural numbers, and the
    arithmetic meaning of masking with a contiguous field of ones. */
module Bits {
  type u32 = x: nat | x < 0x1_0000_0000
  type u64 = x: nat | x < 0x1_0000_0000_0000_0000

  function Pow2(n: nat): (p: nat)
    ensures p > 0
  {
    if n == 0 then 1 else 2 * Pow2(n - 1)
  }

  /** Bitwise `a & b`. */
  function And(a: nat, b: nat): (r: nat)
    decreases a + b
  {
    if a == 0 || b == 0 then 0 else (a % 2) * (b % 2) + 2 * And(a / 2, b / 2)
  }

  /** Bitwise `a | b`. */
  function Or(a: nat, b: nat): (r: nat)
    decreases a + b
  {
    if a == 0 then b
    else if b == 0 then a
    else (if a % 2 + b % 2 > 0 then 1 else 0) + 2 * Or(a / 2, b / 2)
  }

  /** `m << low`. */
  function Shl(m: nat, low: nat): nat {
    if low == 0 then m else 2 * Shl(m, low - 1)
  }

  /** `w >> low`. */
  function Shr(w: nat, low: nat): nat
    decreases low
  {
    if low == 0 then w else Shr(w / 2, low - 1)
  }

  lemma {:induction false} ShlMul(m: nat, low: nat)
    ensures Shl(m, low) == m * Pow2(low)
  {
    if low > 0 {
      ShlMul(m, low - 1);
      MulDouble(m, Pow2(low - 1));
    }
  }

  lemma {:induction false} ShrDiv(w: nat, low: nat)
    ensures Shr(w, low) == w / Pow2(low)
    decreases low
  {
    if low > 0 {
      ShrDiv(w / 2, low - 1);
      DivTwice(w, Pow2(low - 1));
    }
  }

  lemma MulNat(a: nat, b: nat)
    ensures a * b >= 0
  {}

  lemma MulDouble(a: int, b: int)
    ensures a * (2 * b) == 2 * (a * b)
  {}

  lemma DivTwice(a: nat, p: nat)
    requires p > 0
    ensures a / 2 / p == a / (2 * p)
    ensures a % (2 * p) == 2 * (a / 2 % p) + a % 2
  {
    var q, r := a / 2 / p, a / 2 % p;
    assert a / 2 == q * p + r;
    assert a == q * (2 * p) + (2 * r + a % 2);
    DivUnique(a, 2 * p, q, 2 * r + a % 2);
  }

  lemma DivUnique(a: int, d: nat, q: int, r: nat)
    requires a == q * d + r && r < d
    ensures a / d == q && a % d == r
  {
    MulBound(q - a / d, d);
  }

  lemma MulBound(x: int, d: nat)
    requires d > 0
    ensures x >= 1 ==> x * d >= d
    ensures x <= -1 ==> x * d <= 0 - d
  {}

  lemma AndDouble(w: nat, m: nat, bit: nat)
    requires bit < 2
    ensures And(w, 2 * m + bit) == w % 2 * bit + 2 * And(w / 2, m)
  {}

  /** Masking with low ones is the remainder. */
  lemma {:induction false} AndOnes(w: nat, width: nat)
    ensures And(w, Pow2(width) - 1) == w % Pow2(width)
  {
    if width > 0 {
      AndDouble(w, Pow2(width - 1) - 1, 1);
      AndOnes(w / 2, width - 1);
      DivTwice(w, Pow2(width - 1));
    }
  }

  /** A shifted mask selects from the shifted word. */
  lemma {:induction false} AndShift(w: nat, m: nat, low: nat)
    ensures And(w, Shl(m, low)) == Shl(And(Shr(w, low), m), low)
    decreases low
  {
    if low > 0 {
      AndDouble(w, Shl(m, low - 1), 0);
      AndShift(w / 2, m, low - 1);
    }
  }

  /** Masking with `width` ones from bit `low` up keeps exactly that field, in place. */
  lemma AndField(w: nat, mask: nat, low: nat, width: nat)
    requires mask == (Pow2(width) - 1) * Pow2(low)
    ensures And(w, mask) == w / Pow2(low) % Pow2(width) * Pow2(low)
  {
    var ones := Pow2(width) - 1;
    ShlMul(ones, low);
    AndShift(w, ones, low);
    ShrDiv(w, low);
    AndOnes(w / Pow2(low), width);
    ShlMul(w / Pow2(low) % Pow2(width), low);
  }

  /** `high | low` is their sum when `low` fits below the bits of `high`. */
  lemma {:induction false} OrDisjoint(h: nat, low: nat, n: nat)
    requires low < Pow2(n)
    ensures Or(Shl(h, n), low) == Shl(h, n) + low
    decreases n
  {
    if n > 0 {
      OrDisjoint(h, low / 2, n - 1);
    }
  }

  lemma {:induction false} Pow2Sum(a: nat, b: nat)
    ensures Pow2(a + b) == Pow2(a) * Pow2(b)
  {
    if a > 0 {
      Pow2Sum(a - 1, b);
    }
  }

  /** The powers of two that delimit the fields of a word. */
  lemma Powers()
    ensures Pow2(0) == 1
    ensures Pow2(1) == 0x2
    ensures Pow2(2) == 0x4
    ensures Pow2(3) == 0x8
    ensures Pow2(6) == 0x40
    ensures Pow2(7) == 0x80
    ensures Pow2(8) == 0x100
    ensures Pow2(10) == 0x400
    ensures Pow2(11) == 0x800
    ensures Pow2(12) == 0x1000
    ensures Pow2(13) == 0x2000
    ensures Pow2(14) == 0x4000
    ensures Pow2(18) == 0x40000
    ensures Pow2(21) == 0x200000
    ensures Pow2(23) == 0x800000
    ensures Pow2(24) == 0x1000000
    ensures Pow2(26) == 0x4000000
    ensures Pow2(29) == 0x20000000
    ensures Pow2(32) == 0x100000000
    ensures Pow2(37) == 0x2000000000
    ensures Pow2(49) == 0x2000000000000
    ensures Pow2(50) == 0x4000000000000
    ensures Pow2(52) == 0x10000000000000
    ensures Pow2(58) == 0x400000000000000
    ensures Pow2(63) == 0x8000000000000000
  {
    assert Pow2(8) == 0x100 && Pow2(12) == 0x1000;
    assert Pow2(14) == 0x4000 && Pow2(18) == 0x40000;
    assert Pow2(21) == 0x200000 && Pow2(24) == 0x1000000;
    assert Pow2(26) == 0x4000000;
    Pow2Sum(21, 8);
    Pow2Sum(14, 18);
    Pow2Sum(11, 26);
    Pow2Sum(23, 26);
    Pow2Sum(24, 26);
    Pow2Sum(26, 26);
    Pow2Sum(32, 26);
    Pow2Sum(37, 26);
  }
}
