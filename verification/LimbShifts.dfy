/** What moving limbs and bits across a limb array does to the number it holds. */
module LimbShifts {
  import opened Bits
  import opened Limbs

  // ----- left

  /** The part of `a << s` that stays in its limb, and the part that moves up. */
  function Low(a: uint32, s: nat): (l: uint32)
    requires s < 32
  {
    ShiftedLimb(a, s);
    a * Pow2(s) % LIMB
  }

  function High(a: uint32, s: nat): (h: uint32)
    requires s < 32
  {
    ShiftedLimb(a, s);
    QuotientFits(a, Pow2(32 - s));
    a * Pow2(s) / LIMB
  }

  lemma QuotientFits(a: nat, d: nat)
    requires d > 0
    ensures 0 <= a / d <= a
  {
    assert a == (a / d) * d + a % d;
    if a / d < 0 {
      MulOrder(a / d, 0, d);
    } else if a / d > a {
      MulOrder(a, a / d, d);
      MulMonotone(1, d, a);
    }
  }

  /** Limb `j` once the limbs of `a` below `i` have been moved up by `k` limbs and `s` bits. */
  function LeftLimb(a: seq<uint32>, k: nat, s: nat, i: nat, j: nat): (d: int)
    requires s < 32 && i <= |a|
    ensures 0 <= d
  {
    (if k <= j < k + i then Low(a[j - k], s) else 0) + (if k < j <= k + i then High(a[j - k - 1], s) else 0)
  }

  /** The two parts of a limb do not overlap. */
  lemma LimbParts(low: uint32, high: uint32, s: nat)
    requires s < 32
    ensures BitOr(High(high, s), Low(low, s)) == High(high, s) + Low(low, s) < LIMB
  {
    ShiftedLimb(low, s);
    ShiftedLimb(high, s);
    Pow2Values();
    Pow2Add(32 - s, s);
    OrOfDisjoint(low % Pow2(32 - s), High(high, s), s);
    MulOrder(low % Pow2(32 - s), Pow2(32 - s), Pow2(s));
  }

  /** What taking limb `i` of `a` as well does to the target limbs. */
  lemma LeftLimbStep(a: seq<uint32>, k: nat, s: nat, i: nat)
    requires i < |a| && s < 32
    ensures LeftLimb(a, k, s, i, i + k + 1) == 0
    ensures a[i] / Pow2(32 - s) == High(a[i], s) == LeftLimb(a, k, s, i + 1, i + k + 1)
    ensures s == 0 ==> High(a[i], s) == 0
    ensures a[i] * Pow2(s) % LIMB == Low(a[i], s)
    ensures LeftLimb(a, k, s, i + 1, i + k) == BitOr(LeftLimb(a, k, s, i, i + k), Low(a[i], s)) < LIMB
    ensures forall j: nat :: j != i + k && j != i + k + 1 ==> LeftLimb(a, k, s, i + 1, j) == LeftLimb(a, k, s, i, j)
  {
    ShiftedLimb(a[i], s);
    Pow2Values();
    if i > 0 {
      LimbParts(a[i], a[i - 1], s);
    }
  }

  lemma {:induction false} LeftPrefix(a: seq<uint32>, r: seq<uint32>, k: nat, s: nat, m: nat)
    requires |r| == |a| && k + m <= |a| && s < 32
    requires forall j: nat :: j < |r| ==> r[j] == LeftLimb(a, k, s, |a|, j)
    ensures Prefix(r, k + m) + (if m == 0 then 0 else High(a[m - 1], s) * Weight(k + m)) == Prefix(a, m) * Pow2(s) * Weight(k)
  {
    if m == 0 {
      PrefixOfZeros(r, 0, k);
    } else {
      LeftPrefix(a, r, k, s, m - 1);
      var d, p, low, high := a[m - 1], Pow2(s), Low(a[m - 1], s), High(a[m - 1], s);
      var carry := if m == 1 then 0 else High(a[m - 2], s);
      WeightAdd(k, m - 1);
      assert r[k + m - 1] == low + carry;
      assert d * p == low + LIMB * high;
      LeftStep(Prefix(r, k + m - 1), carry, low, high, d, p, Prefix(a, m - 1), Weight(k), Weight(m - 1), Weight(k + m - 1));
    }
  }

  lemma LeftStep(r: int, carry: int, low: int, high: int, d: int, p: int, v: int, wk: int, wm: int, w: int)
    requires w == wk * wm && d * p == low + LIMB * high && r + carry * w == v * p * wk
    ensures r + (low + carry) * w + high * (LIMB * w) == (v + d * wm) * p * wk
  {
    Scale(low + carry, low, carry, w);
    Scale(d * p, low, LIMB * high, w);
    Regroup(LIMB, high, w);
    Regroup(high, LIMB, w);
    assert (v + d * wm) * p * wk == v * p * wk + (d * p) * w by {
      Scale(v + d * wm, v, d * wm, p);
      Scale((v + d * wm) * p, v * p, d * wm * p, wk);
      assert d * wm * p == (d * p) * wm;
      Regroup(d * p, wm, wk);
      assert wm * wk == w;
    }
  }

  /** Moving left multiplies by a power of two and drops what leaves the top limb. */
  lemma LeftShiftValue(a: seq<uint32>, r: seq<uint32>, k: nat, s: nat)
    requires |r| == |a| && s < 32
    requires forall j: nat :: j < |r| ==> r[j] == LeftLimb(a, k, s, |a|, j)
    ensures Value(r) == Value(a) * Pow2(32 * k + s) % Weight(|a|)
  {
    var n := |a|;
    Pow2Add(32 * k, s);
    WeightIsPow2(k);
    PrefixBound(r, n);
    var p, wk := Pow2(s), Weight(k);
    assert Pow2(32 * k + s) == wk * p;
    if k >= n {
      PrefixOfZeros(r, 0, n);
      WeightAdd(n, k - n);
      MultipleOf(Value(a), p, wk, Weight(n), Weight(k - n));
      DivModUnique(Value(a) * (wk * p), Weight(n), Value(a) * p * Weight(k - n), 0);
    } else {
      var m := n - k;
      LeftPrefix(a, r, k, s, m);
      PrefixWindow(a, m, k);
      WeightAdd(m, k);
      var high, top := High(a[m - 1], s), Window(a, m, k);
      Overflowing(Value(r), high, Prefix(a, m), top, p, wk, Weight(m), Weight(n));
      DivModUnique(Value(a) * (wk * p), Weight(n), high + top * p, Value(r));
    }
  }

  lemma MultipleOf(v: int, p: int, wk: int, wn: int, rest: int)
    requires wk == wn * rest
    ensures v * (wk * p) == (v * p * rest) * wn
  {
    Regroup(v, wk, p);
    Regroup(v * p, wn, rest);
    assert v * (wk * p) == (v * p) * wk;
  }

  lemma Overflowing(r: int, high: int, low: int, top: int, p: int, wk: int, wm: int, wn: int)
    requires wn == wm * wk && r + high * wn == low * p * wk
    ensures (low + wm * top) * (wk * p) == (high + top * p) * wn + r
  {
    Scale(low + wm * top, low, wm * top, wk * p);
    Regroup(low, p, wk);
    assert low * (wk * p) == low * p * wk;
    assert (wm * top) * (wk * p) == (top * p) * (wm * wk);
    Scale(high + top * p, high, top * p, wn);
  }

  // ----- right

  /** Limb `j` once the limbs of `a` below `i` have been moved down by `k` limbs and `s` bits. */
  function RightLimb(a: seq<uint32>, k: nat, s: nat, i: nat, j: nat): (d: int)
    requires s < 32 && i <= |a|
    ensures 0 <= d
  {
    QuotientFits(if j + k < i then a[j + k] else 0, Pow2(s));
    (if j + k < i then a[j + k] / Pow2(s) else 0)
    + (if j + k + 1 < i && s != 0 then Low(a[j + k + 1], 32 - s) else 0)
  }

  lemma LowBits(a: uint32, s: nat)
    requires 0 < s < 32
    ensures Low(a, 32 - s) == (a % Pow2(s)) * Pow2(32 - s)
    ensures Low(a, 32 - s) * Pow2(s) == (a % Pow2(s)) * LIMB
  {
    ShiftedLimb(a, 32 - s);
    Pow2Values();
    Pow2Add(32 - s, s);
    Regroup(a % Pow2(s), Pow2(32 - s), Pow2(s));
  }

  lemma RightParts(low: uint32, high: uint32, s: nat)
    requires 0 < s < 32
    ensures 0 <= low / Pow2(s)
    ensures BitOr(low / Pow2(s), Low(high, 32 - s)) == low / Pow2(s) + Low(high, 32 - s) < LIMB
  {
    LowBits(high, s);
    ShiftedLimb(low, 32 - s);
    Pow2Values();
    Pow2Add(s, 32 - s);
    OrOfDisjoint(high % Pow2(s), low / Pow2(s), 32 - s);
    MulOrder(high % Pow2(s), Pow2(s), Pow2(32 - s));
  }

  /** What taking limb `i` of `a` as well does to the target limbs. */
  lemma RightLimbStep(a: seq<uint32>, k: nat, s: nat, i: nat)
    requires i < |a| && s < 32
    ensures s != 0 ==> a[i] * Pow2(32 - s) % LIMB == Low(a[i], 32 - s)
    ensures i >= k + 1 && s != 0 ==>
              RightLimb(a, k, s, i + 1, i - k - 1) == BitOr(RightLimb(a, k, s, i, i - k - 1), Low(a[i], 32 - s)) < LIMB
    ensures i >= k + 1 && s == 0 ==> RightLimb(a, k, s, i + 1, i - k - 1) == RightLimb(a, k, s, i, i - k - 1)
    ensures i >= k ==> RightLimb(a, k, s, i, i - k) == 0
    ensures i >= k ==> 0 <= a[i] / Pow2(s) == RightLimb(a, k, s, i + 1, i - k) < LIMB
    ensures forall j: nat :: j + k + 1 != i && j + k != i ==> RightLimb(a, k, s, i + 1, j) == RightLimb(a, k, s, i, j)
  {
    QuotientFits(a[i], Pow2(s));
    if i >= k + 1 && s != 0 {
      RightParts(a[i - 1], a[i], s);
    }
  }

  lemma {:induction false} RightPrefix(a: seq<uint32>, r: seq<uint32>, k: nat, s: nat, m: nat)
    requires |r| == |a| && k + m <= |a| && k < |a| && s < 32
    requires forall j: nat :: j < |r| ==> r[j] == RightLimb(a, k, s, |a|, j)
    ensures Prefix(r, m) * Pow2(s) + a[k] % Pow2(s)
            == Window(a, k, m) + (if k + m < |a| then a[k + m] % Pow2(s) else 0) * Weight(m)
  {
    if m > 0 {
      RightPrefix(a, r, k, s, m - 1);
      var p, d := Pow2(s), a[k + m - 1];
      var up := if k + m < |a| then a[k + m] % p else 0;
      RightLimbValue(a, k, s, m - 1);
      RightStep(Prefix(r, m - 1), r[m - 1], p, d, d % p, up, Weight(m - 1), Window(a, k, m - 1), a[k] % p);
    }
  }

  /** A target limb holds the upper bits of one limb and, above them, the low bits of the next. */
  lemma RightLimbValue(a: seq<uint32>, k: nat, s: nat, j: nat)
    requires j + k < |a| && s < 32
    ensures RightLimb(a, k, s, |a|, j) * Pow2(s)
            == a[j + k] - a[j + k] % Pow2(s) + (if j + k + 1 < |a| then a[j + k + 1] % Pow2(s) else 0) * LIMB
  {
    var p, d := Pow2(s), a[j + k];
    assert d == (d / p) * p + d % p;
    if j + k + 1 < |a| && s != 0 {
      LowBits(a[j + k + 1], s);
      Scale(d / p + Low(a[j + k + 1], 32 - s), d / p, Low(a[j + k + 1], 32 - s), p);
    }
  }

  lemma RightStep(v: int, x: int, p: int, d: int, e: int, up: int, w: int, win: int, first: int)
    requires v * p + first == win + e * w && x * p == d - e + up * LIMB
    ensures (v + x * w) * p + first == win + d * w + up * (LIMB * w)
  {
    Scale(v + x * w, v, x * w, p);
    Regroup(x, w, p);
    Regroup(up, LIMB, w);
    Scale(d + up * LIMB, x * p, e, w);
    Scale(d + up * LIMB, d, up * LIMB, w);
  }

  lemma RightAssemble(value: int, low: int, wk: int, v: int, p: int, e: int)
    requires value == low + wk * (v * p + e) && 0 <= low < wk && 0 <= e < p
    ensures value / (wk * p) == v
  {
    assert wk * (v * p + e) == v * (wk * p) + e * wk by {
      Regroup(wk, v, p);
      Regroup(v, wk, p);
      assert wk * (v * p + e) == wk * (v * p) + wk * e;
    }
    MulOrder(e, p, wk);
    assert p * wk == wk * p && e * wk >= 0;
    DivModUnique(value, wk * p, v, e * wk + low);
  }

  lemma FarShift(n: nat, k: nat, p: nat)
    requires n <= k && p >= 1
    ensures Weight(n) <= Weight(k) * p
  {
    WeightAdd(n, k - n);
    assert 1 <= Weight(k - n) * p by { MulMonotone(1, Weight(k - n), p); }
    MulMonotone(1, Weight(k - n) * p, Weight(n));
    Regroup(Weight(n), Weight(k - n), p);
    assert (Weight(k - n) * p) * Weight(n) == Weight(n) * (Weight(k - n) * p);
  }

  /** Moving right divides by a power of two and drops the remainder. */
  lemma RightShiftValue(a: seq<uint32>, r: seq<uint32>, k: nat, s: nat)
    requires |r| == |a| && s < 32
    requires forall j: nat :: j < |r| ==> r[j] == RightLimb(a, k, s, |a|, j)
    ensures Value(r) == Value(a) / Pow2(32 * k + s)
  {
    var n, p, wk := |a|, Pow2(s), Weight(k);
    Pow2Add(32 * k, s);
    WeightIsPow2(k);
    if k >= n {
      PrefixOfZeros(r, 0, n);
      PrefixBound(a, n);
      FarShift(n, k, p);
      DivModUnique(Value(a), wk * p, 0, Value(a));
    } else {
      var m := n - k;
      RightPrefix(a, r, k, s, m);
      PrefixOfZeros(r, m, n);
      PrefixWindow(a, k, m);
      PrefixBound(a, k);
      RightAssemble(Value(a), Prefix(a, k), wk, Value(r), p, a[k] % p);
    }
  }
}
