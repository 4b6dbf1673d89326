/** Numbers as little-endian sequences of 32-bit limbs. */
module Limbs {
  import opened Bits

  type uint32 = x: int | 0 <= x < 0x1_0000_0000

  const LIMB: nat := 0x1_0000_0000

  /** LIMB to the power `i`. */
  function Weight(i: nat): (w: nat)
    ensures w >= 1
  {
    if i == 0 then 1 else LIMB * Weight(i - 1)
  }

  /** The number held in the first `i` limbs. */
  function Prefix(s: seq<uint32>, i: nat): nat
    requires i <= |s|
  {
    if i == 0 then 0 else Prefix(s, i - 1) + s[i - 1] * Weight(i - 1)
  }

  /** The number held in `m` limbs from limb `k` on. */
  function Window(s: seq<uint32>, k: nat, m: nat): nat
    requires k + m <= |s|
  {
    if m == 0 then 0 else Window(s, k, m - 1) + s[k + m - 1] * Weight(m - 1)
  }

  function Value(s: seq<uint32>): nat {
    Prefix(s, |s|)
  }

  lemma {:induction false} WeightIsPow2(i: nat)
    ensures Weight(i) == Pow2(32 * i)
  {
    if i > 0 {
      WeightIsPow2(i - 1);
      Pow2Values();
      Pow2Add(32, 32 * (i - 1));
    }
  }

  lemma {:induction false} WeightAdd(a: nat, b: nat)
    ensures Weight(a + b) == Weight(a) * Weight(b)
  {
    if a > 0 {
      WeightAdd(a - 1, b);
      assert LIMB * (Weight(a - 1) * Weight(b)) == (LIMB * Weight(a - 1)) * Weight(b);
    }
  }

  lemma {:induction false} PrefixBound(s: seq<uint32>, i: nat)
    requires i <= |s|
    ensures Prefix(s, i) < Weight(i)
  {
    if i > 0 {
      PrefixBound(s, i - 1);
      MulMonotone(s[i - 1], LIMB - 1, Weight(i - 1));
      assert (LIMB - 1) * Weight(i - 1) == LIMB * Weight(i - 1) - Weight(i - 1);
    }
  }

  lemma {:induction false} PrefixSame(s: seq<uint32>, t: seq<uint32>, i: nat)
    requires i <= |s| && i <= |t| && s[..i] == t[..i]
    ensures Prefix(s, i) == Prefix(t, i)
  {
    if i > 0 {
      assert s[..i - 1] == s[..i][..i - 1] && t[..i - 1] == t[..i][..i - 1];
      assert s[i - 1] == s[..i][i - 1] && t[i - 1] == t[..i][i - 1];
      PrefixSame(s, t, i - 1);
    }
  }

  lemma {:induction false} PrefixOfZeros(s: seq<uint32>, from: nat, i: nat)
    requires from <= i <= |s| && forall j :: from <= j < i ==> s[j] == 0
    ensures Prefix(s, i) == Prefix(s, from)
  {
    if from < i {
      PrefixOfZeros(s, from, i - 1);
    }
  }

  lemma FactorOut(w: int, v: int, d: int, x: int)
    ensures w * (v + d * x) == w * v + d * (w * x)
  {
    assert w * (d * x) == d * (w * x);
  }

  lemma {:induction false} PrefixWindow(s: seq<uint32>, k: nat, m: nat)
    requires k + m <= |s|
    ensures Prefix(s, k + m) == Prefix(s, k) + Weight(k) * Window(s, k, m)
  {
    if m > 0 {
      PrefixWindow(s, k, m - 1);
      WeightAdd(k, m - 1);
      FactorOut(Weight(k), Window(s, k, m - 1), s[k + m - 1], Weight(m - 1));
    }
  }

  /** Adding to one limb adds that much of the limb's weight to the number. */
  lemma {:induction false} PrefixAdd(s: seq<uint32>, j: nat, e: nat, i: nat)
    requires j < i <= |s| && s[j] + e < LIMB
    ensures Prefix(s[j := s[j] + e], i) == Prefix(s, i) + e * Weight(j)
  {
    if j == i - 1 {
      PrefixSame(s, s[j := s[j] + e], j);
      Scale(s[j] as int + e, s[j], e, Weight(j));
    } else {
      PrefixAdd(s, j, e, i - 1);
    }
  }

  // ----- quotients and remainders

  lemma MulOrder(a: int, b: int, d: int)
    requires a < b && d > 0
    ensures a * d + d <= b * d
  {
    assert (b - a - 1) * d >= 0;
    assert (b - a - 1) * d == b * d - a * d - d;
  }

  lemma SameQuotient(d: int, q: int, r: int, q': int, r': int)
    requires 0 <= r < d && 0 <= r' < d && q * d + r == q' * d + r'
    ensures q == q' && r == r'
  {
    if q < q' {
      MulOrder(q, q', d);
    } else if q' < q {
      MulOrder(q', q, d);
    }
  }

  lemma DivModUnique(n: int, d: int, q: int, r: int)
    requires n == q * d + r && 0 <= r < d
    ensures n / d == q && n % d == r
  {
    assert n == d * (n / d) + n % d == (n / d) * d + n % d;
    SameQuotient(d, q, r, n / d, n % d);
  }

  lemma Scale(a: int, b: int, c: int, x: int)
    requires a == b + c
    ensures a * x == b * x + c * x
  {
  }

  lemma Regroup(a: int, b: int, c: int)
    ensures (a * b) * c == a * (b * c) == (a * c) * b
  {
  }

  /** Splitting `a << s` at the limb boundary. */
  lemma ShiftedLimb(a: uint32, s: nat)
    requires s < 32
    ensures a * Pow2(s) / LIMB == a / Pow2(32 - s)
    ensures 0 <= a / Pow2(32 - s) < Pow2(s)
    ensures a * Pow2(s) % LIMB == (a % Pow2(32 - s)) * Pow2(s)
    ensures 0 <= a * Pow2(s) % LIMB < LIMB
  {
    var p, q := Pow2(s), Pow2(32 - s);
    Pow2Values();
    Pow2Add(32 - s, s);
    SplitAt(a, p, q);
    DivModUnique(a * p, LIMB, a / q, (a % q) * p);
  }

  lemma SplitAt(a: nat, p: nat, q: nat)
    requires p > 0 && q > 0
    ensures a * p == (a / q) * (q * p) + (a % q) * p
    ensures 0 <= (a % q) * p < q * p
    ensures 0 <= a / q && (a < q * p ==> a / q < p)
  {
    var h, l := a / q, a % q;
    assert a == h * q + l;
    Scale(a, h * q, l, p);
    Regroup(h, q, p);
    MulOrder(l, q, p);
    assert l * p >= 0;
    if h >= p {
      MulMonotone(p, h, q);
      assert p * q == q * p;
    }
  }
}
