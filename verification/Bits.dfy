/** Shifts, powers of two and bitwise operators on non-negative machine integers. */
module Bits {

  function Pow2(n: nat): (p: nat)
    ensures p >= 1
  {
    if n == 0 then 1 else 2 * Pow2(n - 1)
  }

  /** `n >> l` on an unsigned integer. */
  function Shr(n: nat, l: nat): nat {
    if l == 0 then n else Shr(n, l - 1) / 2
  }

  /** `n >> l` rounded up instead of down. */
  function CeilShr(n: nat, l: nat): (r: nat)
    ensures n > 0 ==> r > 0
  {
    if l == 0 then n else (CeilShr(n, l - 1) + 1) / 2
  }

  /** `n & (1 << l)` as a truth value. */
  predicate TestBit(n: nat, l: nat) {
    Shr(n, l) % 2 == 1
  }

  lemma {:induction false} ShrFirst(n: nat, l: nat)
    ensures Shr(n, l + 1) == Shr(n / 2, l)
  {
    if l > 0 {
      ShrFirst(n, l - 1);
    }
  }

  lemma {:induction false} ShrMonotone(m: nat, n: nat, l: nat)
    requires m <= n
    ensures Shr(m, l) <= Shr(n, l) <= CeilShr(n, l)
  {
    if l > 0 {
      ShrMonotone(m, n, l - 1);
    }
  }

  lemma {:induction false} ShrOfMultiple(c: nat, l: nat)
    ensures Shr(c * Pow2(l), l) == c
    decreases l
  {
    if l > 0 {
      var d := 2 * c;
      assert c * Pow2(l) == d * Pow2(l - 1);
      ShrOfMultiple(d, l - 1);
    }
  }

  /** Shifting is division by a power of two. */
  lemma {:induction false} ShrBounds(n: nat, l: nat)
    ensures Shr(n, l) * Pow2(l) <= n < (Shr(n, l) + 1) * Pow2(l)
    decreases l
  {
    if l > 0 {
      ShrBounds(n, l - 1);
      HalfBounds(Shr(n, l - 1), Pow2(l - 1));
    }
  }

  lemma HalfBounds(s: nat, p: nat)
    ensures (s / 2) * (2 * p) <= s * p && (s + 1) * p <= (s / 2 + 1) * (2 * p)
  {
    var h := s / 2;
    assert h * (2 * p) == (2 * h) * p && (h + 1) * (2 * p) == (2 * h + 2) * p;
    MulMonotone(2 * h, s, p);
    MulMonotone(s + 1, 2 * h + 2, p);
  }

  lemma {:induction false} CeilShrBound(n: nat, k: nat, l: nat)
    requires n <= Pow2(k) && l <= k
    ensures CeilShr(n, l) <= Pow2(k - l)
  {
    if l > 0 {
      CeilShrBound(n, k, l - 1);
    }
  }

  lemma {:induction false} Pow2Add(a: nat, b: nat)
    ensures Pow2(a + b) == Pow2(a) * Pow2(b)
  {
    if a > 0 {
      Pow2Add(a - 1, b);
      DoubleFactor(Pow2(b), Pow2(a - 1));
    }
  }

  lemma Pow2Values()
    ensures Pow2(7) == 0x80 && Pow2(8) == 0x100 && Pow2(31) == 0x8000_0000 && Pow2(32) == 0x1_0000_0000
  {
    assert Pow2(3) == 8 && Pow2(7) == 0x80 && Pow2(8) == 0x100 by {
      Pow2Add(4, 3);
      Pow2Add(4, 4);
    }
    Pow2Add(8, 8);
    Pow2Add(16, 16);
    assert Pow2(32) == 2 * Pow2(31);
  }

  lemma {:induction false} Pow2Monotone(a: nat, b: nat)
    requires a < b
    ensures Pow2(a) < Pow2(b)
  {
    if a + 1 < b {
      Pow2Monotone(a, b - 1);
    }
  }

  lemma MulMonotone(a: nat, b: nat, c: nat)
    requires a <= b
    ensures a * c <= b * c
  {
    assert (b - a) * c >= 0;
  }

  /** A shift that leaves something behind was shorter than the number. */
  lemma {:induction false} ShrPositive(n: nat, l: nat, k: nat)
    requires Shr(n, l) >= 1 && n <= Pow2(k)
    ensures l <= k
  {
    ShrBounds(n, l);
    MulMonotone(1, Shr(n, l), Pow2(l));
    if l > k {
      Pow2Monotone(k, l);
    }
  }

  /** `x | y` on unsigned integers. */
  function BitOr(x: nat, y: nat): nat {
    if x == 0 then y else if y == 0 then x
    else 2 * BitOr(x / 2, y / 2) + (if x % 2 == 1 || y % 2 == 1 then 1 else 0)
  }

  /** `x & y` on unsigned integers. */
  function BitAnd(x: nat, y: nat): nat {
    if x == 0 || y == 0 then 0
    else 2 * BitAnd(x / 2, y / 2) + (if x % 2 == 1 && y % 2 == 1 then 1 else 0)
  }

  /** Joining fields that do not overlap is addition. */
  lemma {:induction false} OrOfDisjoint(high: nat, low: nat, s: nat)
    requires low < Pow2(s)
    ensures BitOr(high * Pow2(s), low) == high * Pow2(s) + low
    ensures BitOr(low, high * Pow2(s)) == high * Pow2(s) + low
    decreases s
  {
    if s > 0 && high > 0 && low > 0 {
      var h := high * Pow2(s - 1);
      assert high * Pow2(s) == 2 * h;
      assert h > 0;
      OrOfDisjoint(high, low / 2, s - 1);
    }
  }

  /** Bits joined in from position `k` on leave the lower ones alone. */
  lemma {:induction false} OrAbove(a: nat, b: nat, low: nat, k: nat)
    requires low < Pow2(k)
    ensures BitOr(a * Pow2(k) + low, b * Pow2(k)) == BitOr(a, b) * Pow2(k) + low
    decreases k
  {
    if k > 0 {
      DoubleFactor(a, Pow2(k - 1));
      DoubleFactor(b, Pow2(k - 1));
      DoubleFactor(BitOr(a, b), Pow2(k - 1));
      OrAbove(a, b, low / 2, k - 1);
      OrDoubled(a * Pow2(k - 1) + low / 2, b * Pow2(k - 1), low % 2);
    }
  }

  lemma DoubleFactor(x: nat, p: nat)
    ensures x * (2 * p) == 2 * (x * p) && x * p >= 0
  {
  }

  lemma OrDoubled(x: nat, y: nat, bit: nat)
    requires bit < 2
    ensures BitOr(2 * x + bit, 2 * y) == 2 * BitOr(x, y) + bit
  {
    assert (2 * x + bit) / 2 == x && (2 * x + bit) % 2 == bit && (2 * y) / 2 == y;
  }
}
