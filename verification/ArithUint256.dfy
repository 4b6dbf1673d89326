/** The 256-bit integer on eight 32-bit limbs that difficulty targets and chain work are computed with. */
module ArithUint256 {
  import opened Bits
  import opened Limbs
  import opened LimbShifts
  import opened CompactFormat

  const WIDTH: nat := 8

  /** 2 to the power 256. */
  const MODULUS: nat := Weight(WIDTH)

  lemma ModulusIsPow2()
    ensures MODULUS == Pow2(256)
  {
    WeightIsPow2(8);
  }

  lemma Pow2BelowModulus(n: nat)
    requires n <= 256
    ensures Pow2(n) <= MODULUS
  {
    Pow2BelowWeight(n, 8);
  }

  lemma Pow2BelowWeight(n: nat, i: nat)
    requires n <= 32 * i
    ensures Pow2(n) <= Weight(i)
  {
    WeightIsPow2(i);
    if n < 32 * i {
      Pow2Monotone(n, 32 * i);
    }
  }

  lemma ValueBound(s: seq<uint32>)
    requires |s| == WIDTH
    ensures Value(s) < MODULUS
  {
    PrefixBound(s, 8);
  }

  // ----- what the carry loops compute

  lemma AddStep(before: int, carry: int, x: int, y: int, digit: int, carry': int, w: int, vx: int, vy: int)
    requires before + carry * w == vx + vy && carry + x + y == digit + LIMB * carry'
    ensures before + digit * w + carry' * (LIMB * w) == (vx + x * w) + (vy + y * w)
  {
    Regroup(carry', LIMB, w);
    Scale(carry + x + y, digit, LIMB * carry', w);
    Scale(carry + x + y, carry + x, y, w);
    Scale(carry + x, carry, x, w);
  }

  lemma IncrementStep(x: seq<uint32>, y: seq<uint32>, i: nat)
    requires i < |x| && i < |y| && y[i] == (x[i] as int + 1) % LIMB
    requires Prefix(y, i) + Weight(i) == Prefix(x, i) + 1
    ensures Prefix(y, i + 1) + (if y[i] == 0 then Weight(i + 1) else 0) == Prefix(x, i + 1) + 1
  {
    Scale(x[i] as int + 1, x[i], 1, Weight(i));
  }

  lemma DecrementStep(x: seq<uint32>, y: seq<uint32>, i: nat)
    requires i < |x| && i < |y| && y[i] == (x[i] as int - 1) % LIMB
    requires Prefix(y, i) == Prefix(x, i) + Weight(i) - 1
    ensures Prefix(y, i + 1) == Prefix(x, i + 1) - 1 + if y[i] == 0xFFFF_FFFF then Weight(i + 1) else 0
  {
    var w := Weight(i);
    if x[i] == 0 {
      assert y[i] == LIMB - 1;
      Scale(LIMB, LIMB - 1, 1, w);
    } else {
      assert y[i] == x[i] - 1;
      Scale(x[i], y[i], 1, w);
    }
  }

  lemma SumModulo(sum: int, value: int, carry: int, m: int)
    requires value + carry * m == sum && 0 <= value < m
    ensures value == sum % m
  {
    DivModUnique(sum, m, carry, value);
  }

  lemma {:induction false} SameAbove(s: seq<uint32>, t: seq<uint32>, i: nat, n: nat)
    requires i <= n <= |s| && n <= |t| && forall j :: i <= j < n ==> s[j] == t[j]
    ensures Prefix(s, n) - Prefix(s, i) == Prefix(t, n) - Prefix(t, i)
  {
    if i < n {
      SameAbove(s, t, i, n - 1);
    }
  }

  /** A small change whose carry has died out below limb `i`. */
  lemma CarryEnds(x: seq<uint32>, y: seq<uint32>, i: nat, change: int)
    requires i <= |x| == |y| == WIDTH && forall j :: i <= j < WIDTH ==> y[j] == x[j]
    requires Prefix(y, i) == Prefix(x, i) + change
    ensures Value(y) == (Value(x) + change) % MODULUS
  {
    SameAbove(y, x, i, WIDTH);
    ValueBound(y);
    SumModulo(Value(x) + change, Value(y), 0, MODULUS);
  }

  /** A small change whose carry has run out of the top limb. */
  lemma CarryLost(x: seq<uint32>, y: seq<uint32>, change: int)
    requires |x| == |y| == WIDTH && Prefix(y, WIDTH) == Prefix(x, WIDTH) + change - change * Weight(WIDTH)
    ensures Value(y) == (Value(x) + change) % MODULUS
  {
    ValueBound(y);
    SumModulo(Value(x) + change, Value(y), change, MODULUS);
  }

  /** The highest limb in which two numbers differ decides. */
  lemma DecidedAt(s: seq<uint32>, t: seq<uint32>, i: nat)
    requires |s| == |t| && i < |s| && s[i] < t[i]
    requires forall j :: i < j < |s| ==> s[j] == t[j]
    ensures Value(s) < Value(t)
  {
    SameAbove(s, t, i + 1, |s|);
    PrefixBound(s, i);
    MulOrder(s[i], t[i], Weight(i));
  }

  lemma Decides(s: seq<uint32>, t: seq<uint32>, i: nat)
    requires |s| == |t| && i < |s| && s[i] != t[i]
    requires forall j :: i < j < |s| ==> s[j] == t[j]
    ensures Value(s) != Value(t)
  {
    if s[i] < t[i] {
      DecidedAt(s, t, i);
    } else {
      DecidedAt(t, s, i);
    }
  }

  /** The limbs of a 64-bit number. */
  lemma Uint64Limbs(b: nat) returns (t: seq<uint32>)
    requires b < 0x1_0000_0000_0000_0000
    ensures |t| == WIDTH && t[0] == b % LIMB && t[1] == b / LIMB && forall j :: 2 <= j < WIDTH ==> t[j] == 0
    ensures Value(t) == b
  {
    t := [b % LIMB, b / LIMB, 0, 0, 0, 0, 0, 0];
    PrefixOfZeros(t, 2, 8);
    assert Prefix(t, 1) == t[0] && Weight(1) == LIMB;
  }

  lemma {:induction false} ComplementPrefix(s: seq<uint32>, t: seq<uint32>, i: nat)
    requires i <= |s| == |t| && forall j :: 0 <= j < i ==> t[j] == LIMB - 1 - s[j]
    ensures Prefix(t, i) == Weight(i) - 1 - Prefix(s, i)
  {
    if i > 0 {
      ComplementPrefix(s, t, i - 1);
      Scale(LIMB - 1, s[i - 1], LIMB - 1 - s[i - 1], Weight(i - 1));
      Scale(LIMB, LIMB - 1, 1, Weight(i - 1));
    }
  }

  /** `bits` is the position of the highest set bit of `v` plus one, or zero. */
  ghost predicate IsBitLength(v: nat, bits: nat) {
    if v == 0 then bits == 0 else bits > 0 && Pow2(bits - 1) <= v < Pow2(bits)
  }

  lemma TopLimb(s: seq<uint32>, pos: nat, bit: nat)
    requires pos < |s| && forall j :: pos < j < |s| ==> s[j] == 0
    requires Pow2(bit) <= s[pos] < Pow2(bit + 1)
    ensures IsBitLength(Value(s), 32 * pos + bit + 1)
  {
    PrefixOfZeros(s, pos + 1, |s|);
    PrefixBound(s, pos);
    WeightIsPow2(pos);
    Pow2Add(bit, 32 * pos);
    Pow2Add(bit + 1, 32 * pos);
    MulMonotone(Pow2(bit), s[pos], Weight(pos));
    MulOrder(s[pos], Pow2(bit + 1), Weight(pos));
  }

  lemma ShrOfSmall(d: uint32, nbits: nat)
    ensures Shr(d, 32) == 0
    ensures Shr(d, nbits) == 1 ==> Pow2(nbits) <= d < Pow2(nbits + 1)
  {
    Pow2Values();
    ShrBounds(d, 32);
    ShrBounds(d, nbits);
  }

  // ----- the class

  class Uint256 {
    const pn: array<uint32>

    ghost predicate Valid()
      reads this
    {
      pn.Length == WIDTH
    }

    ghost function V(): (v: nat)
      requires Valid()
      reads this, pn
      ensures v < MODULUS
    {
      ValueBound(pn[..]);
      Value(pn[..])
    }

    constructor Zero()
      ensures Valid() && fresh(pn) && V() == 0
    {
      pn := new uint32[WIDTH](_ => 0);
      new;
      PrefixOfZeros(pn[..], 0, 8);
    }

    constructor Copy(b: Uint256)
      requires b.Valid()
      ensures Valid() && fresh(pn) && V() == b.V() && pn[..] == b.pn[..]
    {
      pn := new uint32[WIDTH](i requires 0 <= i < b.pn.Length reads b.pn => b.pn[i]);
      new;
      assert pn[..] == b.pn[..];
    }

    constructor FromUint64(b: nat)
      requires b < 0x1_0000_0000_0000_0000
      ensures Valid() && fresh(pn) && V() == b
    {
      pn := new uint32[WIDTH](_ => 0);
      new;
      Assign(b);
    }

    method Assign(b: nat)
      requires Valid() && b < 0x1_0000_0000_0000_0000
      modifies pn
      ensures V() == b
    {
      pn[0] := b % 0x1_0000_0000;
      pn[1] := b / 0x1_0000_0000;
      for i := 2 to WIDTH
        invariant pn[0] == b % 0x1_0000_0000 && pn[1] == b / 0x1_0000_0000
        invariant forall j :: 2 <= j < i ==> pn[j] == 0
      {
        pn[i] := 0;
      }
      PrefixOfZeros(pn[..], 2, 8);
      assert Prefix(pn[..], 2) == pn[0] + pn[1] * LIMB by {
        assert Prefix(pn[..], 1) == pn[0] * Weight(0);
      }
    }

    /** `this += b`; `b` may be this very object. */
    method AddAssign(b: Uint256)
      requires Valid() && b.Valid()
      modifies pn
      ensures V() == (old(V()) + old(b.V())) % MODULUS
    {
      ghost var x, y := pn[..], b.pn[..];
      var carry := 0;
      for i := 0 to WIDTH
        invariant 0 <= carry <= 1
        invariant forall j :: i <= j < WIDTH ==> pn[j] == x[j] && b.pn[j] == y[j]
        invariant Prefix(pn[..], i) + carry * Weight(i) == Prefix(x, i) + Prefix(y, i)
      {
        ghost var before := pn[..];
        var n := carry + pn[i] + b.pn[i];
        pn[i] := n % 0x1_0000_0000;
        PrefixSame(before, pn[..], i);
        AddStep(Prefix(before, i), carry, x[i], y[i], n % LIMB, n / LIMB, Weight(i), Prefix(x, i), Prefix(y, i));
        carry := n / 0x1_0000_0000;
      }
      SumModulo(Value(x) + Value(y), V(), carry, MODULUS);
    }

    /** `~this` */
    method Complement() returns (r: Uint256)
      requires Valid()
      ensures r.Valid() && fresh(r) && fresh(r.pn) && r.V() == MODULUS - 1 - V()
    {
      r := new Uint256.Zero();
      for i := 0 to WIDTH
        invariant forall j :: 0 <= j < i ==> r.pn[j] == LIMB - 1 - pn[j]
      {
        r.pn[i] := 0xFFFF_FFFF - pn[i];
      }
      ComplementPrefix(pn[..], r.pn[..], 8);
    }

    /** `++this` */
    method Increment()
      requires Valid()
      modifies pn
      ensures V() == (old(V()) + 1) % MODULUS
    {
      ghost var x := pn[..];
      var i := 0;
      while i < WIDTH
        invariant i <= WIDTH
        invariant forall j :: i <= j < WIDTH ==> pn[j] == x[j]
        invariant Prefix(pn[..], i) + Weight(i) == Prefix(x, i) + 1
      {
        ghost var before := pn[..];
        var n := pn[i] as int + 1;
        pn[i] := n % 0x1_0000_0000;
        PrefixSame(before, pn[..], i);
        IncrementStep(x, pn[..], i);
        if pn[i] != 0 {
          CarryEnds(x, pn[..], i + 1, 1);
          return;
        }
        i := i + 1;
      }
      CarryLost(x, pn[..], 1);
    }

    /** `--this` */
    method Decrement()
      requires Valid()
      modifies pn
      ensures V() == (old(V()) - 1) % MODULUS
    {
      ghost var x := pn[..];
      var i := 0;
      while i < WIDTH
        invariant i <= WIDTH
        invariant forall j :: i <= j < WIDTH ==> pn[j] == x[j]
        invariant Prefix(pn[..], i) == Prefix(x, i) + Weight(i) - 1
      {
        ghost var before := pn[..];
        var n := pn[i] as int - 1;
        pn[i] := n % 0x1_0000_0000;
        PrefixSame(before, pn[..], i);
        DecrementStep(x, pn[..], i);
        if pn[i] != 0xFFFF_FFFF {
          CarryEnds(x, pn[..], i + 1, -1);
          return;
        }
        i := i + 1;
      }
      CarryLost(x, pn[..], -1);
    }

    /** `-this` */
    method Negated() returns (r: Uint256)
      requires Valid()
      ensures r.Valid() && fresh(r) && fresh(r.pn) && r.V() == (MODULUS - V()) % MODULUS
    {
      r := Complement();
      r.Increment();
    }

    /** `this -= b` */
    method SubAssign(b: Uint256)
      requires Valid() && b.Valid()
      modifies pn
      ensures V() == (old(V()) - old(b.V())) % MODULUS
      ensures old(V()) >= old(b.V()) ==> V() == old(V()) - old(b.V())
    {
      var minus := b.Negated();
      ghost var x, y := V(), b.V();
      AddAssign(minus);
      SubtractByAdding(x, y, MODULUS);
      if x >= y {
        DivModUnique(x - y, MODULUS, 0, x - y);
      }
    }

    /** -1, 0 or 1 as this number is below, equal to or above `b`. */
    method Compare(b: Uint256) returns (r: int)
      requires Valid() && b.Valid()
      ensures r == if V() < b.V() then -1 else if V() > b.V() then 1 else 0
    {
      var i := WIDTH - 1;
      while i >= 0
        invariant -1 <= i < WIDTH
        invariant forall j :: i < j < WIDTH ==> pn[j] == b.pn[j]
      {
        if pn[i] < b.pn[i] {
          DecidedAt(pn[..], b.pn[..], i);
          return -1;
        }
        if pn[i] > b.pn[i] {
          DecidedAt(b.pn[..], pn[..], i);
          return 1;
        }
        i := i - 1;
      }
      SameAbove(pn[..], b.pn[..], 0, 8);
      return 0;
    }

    method BitLength() returns (bits: nat)
      requires Valid()
      ensures IsBitLength(V(), bits) && bits <= 256
    {
      var pos := WIDTH - 1;
      while pos >= 0
        invariant -1 <= pos < WIDTH
        invariant forall j :: pos < j < WIDTH ==> pn[j] == 0
      {
        if pn[pos] != 0 {
          var nbits := 31;
          ShrOfSmall(pn[pos], 0);
          while nbits > 0
            invariant 0 <= nbits <= 31 && Shr(pn[pos], nbits + 1) == 0
          {
            if TestBit(pn[pos], nbits) {
              ShrOfSmall(pn[pos], nbits);
              TopLimb(pn[..], pos, nbits);
              return 32 * pos + nbits + 1;
            }
            nbits := nbits - 1;
          }
          assert Shr(pn[pos], 1) == pn[pos] / 2;
          TopLimb(pn[..], pos, 0);
          return 32 * pos + 1;
        }
        pos := pos - 1;
      }
      PrefixOfZeros(pn[..], 0, 8);
      return 0;
    }

    method Clear()
      requires Valid()
      modifies pn
      ensures forall j :: 0 <= j < WIDTH ==> pn[j] == 0
    {
      for i := 0 to WIDTH
        invariant forall j :: 0 <= j < i ==> pn[j] == 0
      {
        pn[i] := 0;
      }
    }

    /** `this <<= shift` */
    method ShiftLeft(shift: nat)
      requires Valid()
      modifies pn
      ensures V() == old(V()) * Pow2(shift) % MODULUS
    {
      var a := new Uint256.Copy(this);
      ghost var x := a.pn[..];
      Clear();
      var k, s := shift / 32, shift % 32;
      for i := 0 to WIDTH
        invariant a.pn[..] == x
        invariant forall j: nat :: j < WIDTH ==> pn[j] == LeftLimb(x, k, s, i, j)
      {
        assert a.pn[i] == x[i];
        MoveUp(a.pn[i], k, s, i, x);
      }
      LeftShiftValue(x, pn[..], k, s);
    }

    /** The two pieces of one limb go to their places. */
    method MoveUp(limb: uint32, k: nat, s: nat, i: nat, ghost x: seq<uint32>)
      requires Valid() && i < WIDTH && s < 32 && |x| == WIDTH && limb == x[i]
      requires forall j: nat :: j < WIDTH ==> pn[j] == LeftLimb(x, k, s, i, j)
      modifies pn
      ensures forall j: nat :: j < WIDTH ==> pn[j] == LeftLimb(x, k, s, i + 1, j)
    {
      LeftLimbStep(x, k, s, i);
      if i + k + 1 < WIDTH && s != 0 {
        pn[i + k + 1] := BitOr(pn[i + k + 1], limb / Pow2(32 - s));
      }
      if i + k < WIDTH {
        pn[i + k] := BitOr(pn[i + k], limb * Pow2(s) % 0x1_0000_0000);
      }
    }

    /** `this >>= shift` */
    method ShiftRight(shift: nat)
      requires Valid()
      modifies pn
      ensures V() == old(V()) / Pow2(shift)
    {
      var a := new Uint256.Copy(this);
      ghost var x := a.pn[..];
      Clear();
      var k, s := shift / 32, shift % 32;
      for i := 0 to WIDTH
        invariant a.pn[..] == x
        invariant forall j: nat :: j < WIDTH ==> pn[j] == RightLimb(x, k, s, i, j)
      {
        RightLimbStep(x, k, s, i);
        assert a.pn[i] == x[i];
        if i - k - 1 >= 0 && s != 0 {
          pn[i - k - 1] := BitOr(pn[i - k - 1], a.pn[i] * Pow2(32 - s) % 0x1_0000_0000);
        }
        if i - k >= 0 {
          pn[i - k] := BitOr(pn[i - k], a.pn[i] / Pow2(s));
        }
      }
      RightShiftValue(x, pn[..], k, s);
    }

    /** `this *= b32` */
    method MulAssign32(b32: uint32)
      requires Valid()
      modifies pn
      ensures V() == old(V()) * b32 % MODULUS
    {
      ghost var x := pn[..];
      var carry := 0;
      for i := 0 to WIDTH
        invariant 0 <= carry < LIMB
        invariant forall j :: i <= j < WIDTH ==> pn[j] == x[j]
        invariant Prefix(pn[..], i) + carry * Weight(i) == Prefix(x, i) * b32
      {
        ghost var before := pn[..];
        ProductFits(carry, 0, b32, pn[i]);
        var n := carry + b32 * pn[i];
        assert 0 <= n < 0x1_0000_0000_0000_0000;
        pn[i] := n % 0x1_0000_0000;
        PrefixSame(before, pn[..], i);
        WordStep(Prefix(before, i), x, i, carry, b32);
        carry := n / 0x1_0000_0000;
      }
      SumModulo(Value(x) * b32, V(), carry, MODULUS);
    }

    /** The inner loop of `*=`: add digit * b, moved up by `j` limbs. */
    method AddRow(digit: uint32, b: Uint256, j: nat) returns (ghost lost: int)
      requires Valid() && b.Valid() && b.pn != pn && j < WIDTH
      modifies pn
      ensures V() + lost * MODULUS == old(V()) + digit * Weight(j) * b.V()
    {
      ghost var start, y := pn[..], b.pn[..];
      var carry := 0;
      for i := 0 to WIDTH - j
        invariant 0 <= carry < LIMB && b.pn[..] == y
        invariant forall m :: i + j <= m < WIDTH ==> pn[m] == start[m]
        invariant Prefix(pn[..], i + j) + carry * Weight(i + j) == Prefix(start, i + j) + digit * (Weight(j) * Prefix(y, i))
      {
        ghost var before := pn[..];
        ProductFits(carry, pn[i + j], digit, b.pn[i]);
        var n := carry + pn[i + j] + digit * b.pn[i];
        assert 0 <= n < 0x1_0000_0000_0000_0000;
        RowStep(before, start, y, digit, j, i, carry);
        pn[i + j] := n % 0x1_0000_0000;
        PrefixSame(before, pn[..], i + j);
        carry := n / 0x1_0000_0000;
      }
      lost := RowDone(start, y, digit, j, V(), carry);
    }

    /** The same loop reading the number it is writing: of a cleared number it leaves nothing. */
    method AddRowToItself(digit: uint32, b: Uint256, j: nat)
      requires Valid() && b == this && j < WIDTH
      requires forall m :: 0 <= m < WIDTH ==> pn[m] == 0
      modifies pn
      ensures forall m :: 0 <= m < WIDTH ==> pn[m] == 0
    {
      var carry := 0;
      for i := 0 to WIDTH - j
        invariant carry == 0 && forall m :: 0 <= m < WIDTH ==> pn[m] == 0
      {
        var n := carry + pn[i + j] + digit * b.pn[i];
        pn[i + j] := n % 0x1_0000_0000;
        carry := n / 0x1_0000_0000;
      }
    }

    /**
     * `this *= b`. The product is lost when `b` is this very object, because the result is
     * cleared before `b` is read.
     */
    method MulAssign(b: Uint256)
      requires Valid() && b.Valid() && (b != this ==> b.pn != pn)
      modifies pn
      ensures V() == if b == this then 0 else old(V()) * old(b.V()) % MODULUS
    {
      var a := new Uint256.Copy(this);
      ghost var x, y := a.pn[..], b.V();
      Assign(0);
      AllZero(pn[..]);
      ghost var overflow := 0;
      for j := 0 to WIDTH
        invariant a.pn[..] == x
        invariant b == this ==> forall m :: 0 <= m < WIDTH ==> pn[m] == 0
        invariant b != this ==> b.V() == y && V() + overflow * MODULUS == Prefix(x, j) * y
      {
        if b == this {
          AddRowToItself(a.pn[j], b, j);
        } else {
          ghost var lost := AddRow(a.pn[j], b, j);
          Scale(Prefix(x, j) + x[j] * Weight(j), Prefix(x, j), x[j] * Weight(j), y);
          Scale(overflow + lost, overflow, lost, MODULUS);
          overflow := overflow + lost;
        }
      }
      if b == this {
        PrefixOfZeros(pn[..], 0, 8);
      } else {
        SumModulo(Value(x) * y, V(), overflow, MODULUS);
      }
    }

    /** Set a bit of a number whose bits up to that one are clear. */
    method SetBit(shift: nat, ghost above: nat)
      requires Valid() && shift < 256 && V() == above * Pow2(shift + 1)
      modifies pn
      ensures V() == old(V()) + Pow2(shift)
    {
      ghost var s := pn[..];
      SettingBit(s, above, shift);
      pn[shift / 32] := BitOr(pn[shift / 32], Pow2(shift % 32));
      assert pn[..] == s[shift / 32 := s[shift / 32] + Pow2(shift % 32)];
    }

    /**
     * `this /= b` by shifting and subtracting; `ok == false` stands for the exception that a
     * zero divisor raises. `b` may be this very object.
     */
    method DivAssign(b: Uint256) returns (ok: bool)
      requires Valid() && b.Valid()
      modifies pn
      ensures ok <==> old(b.V()) != 0
      ensures V() == if ok then old(V()) / old(b.V()) else 0
    {
      var div := new Uint256.Copy(b);
      var num := new Uint256.Copy(this);
      ghost var n, d := num.V(), div.V();
      Assign(0);
      var numBits := num.BitLength();
      var divBits := div.BitLength();
      if divBits == 0 {
        return false;
      }
      if divBits > numBits {
        ShorterIsLess(n, numBits, d, divBits);
        DivModUnique(n, d, 0, n);
        return true;
      }
      var shift := numBits - divBits;
      Aligned(n, numBits, d, divBits);
      DivModUnique(d * Pow2(shift), MODULUS, 0, d * Pow2(shift));
      div.ShiftLeft(shift);
      LongDivide(num, div, shift, n, d);
      return true;
    }

    /** The loop, from the aligned divisor down; what is left of the dividend is the remainder. */
    method LongDivide(num: Uint256, div: Uint256, shift0: nat, ghost n: nat, ghost d: nat)
      requires Valid() && num.Valid() && div.Valid() && num.pn != pn && div.pn != pn && num.pn != div.pn && shift0 < 256
      requires V() == 0 && num.V() == n && div.V() == d * Pow2(shift0) && n < d * Pow2(shift0 + 1)
      modifies pn, num.pn, div.pn
      ensures d > 0 && V() == n / d && num.V() == n % d
    {
      var shift: int := shift0;
      ghost var q: nat := 0;
      while shift >= 0
        invariant -1 <= shift < 256 && Dividing(n, d, V(), num.V(), q, shift + 1)
        invariant shift >= 0 ==> div.V() == d * Pow2(shift)
      {
        q := DivideBit(num, div, shift, n, d, q);
        ghost var v, r := V(), num.V();
        div.ShiftRight(1);
        assert V() == v && num.V() == r;
        if shift > 0 {
          HalfOfShifted(d, shift);
        }
        shift := shift - 1;
      }
      Divided(n, d, V(), num.V(), q);
    }

    /** One round: subtract the shifted divisor if it fits, and set the bit of the quotient. */
    method DivideBit(num: Uint256, div: Uint256, shift: nat, ghost n: nat, ghost d: nat, ghost q: nat) returns (ghost q': nat)
      requires Valid() && num.Valid() && div.Valid() && num.pn != pn && div.pn != pn && num.pn != div.pn && shift < 256
      requires Dividing(n, d, V(), num.V(), q, shift + 1) && div.V() == d * Pow2(shift)
      modifies pn, num.pn
      ensures Dividing(n, d, V(), num.V(), q', shift)
    {
      DivisionRound(n, d, V(), num.V(), q, shift);
      var c := num.Compare(div);
      if c >= 0 {
        ghost var v := V();
        num.SubAssign(div);
        assert V() == v;
        SetBit(shift, q);
        return 2 * q + 1;
      }
      return 2 * q;
    }

    /** `this += b64` */
    method AddUint64(b64: nat)
      requires Valid() && b64 < 0x1_0000_0000_0000_0000
      modifies pn
      ensures V() == (old(V()) + b64) % MODULUS
    {
      var b := new Uint256.FromUint64(b64);
      AddAssign(b);
    }

    /** `this == b` for a 64-bit number */
    method EqualsUint64(b: nat) returns (r: bool)
      requires Valid() && b < 0x1_0000_0000_0000_0000
      ensures r <==> V() == b
    {
      ghost var t := Uint64Limbs(b);
      for i := WIDTH downto 2
        invariant forall j :: i <= j < WIDTH ==> pn[j] == 0
      {
        if pn[i] != 0 {
          DecidedAt(t, pn[..], i);
          return false;
        }
      }
      if pn[1] != b / 0x1_0000_0000 {
        Decides(pn[..], t, 1);
        return false;
      }
      if pn[0] != b % 0x1_0000_0000 {
        Decides(pn[..], t, 0);
        return false;
      }
      assert pn[..] == t;
      return true;
    }

    /** The lower 64 bits. */
    method LowQword() returns (q: nat)
      requires Valid()
      ensures q == V() % 0x1_0000_0000_0000_0000
    {
      Pow2Values();
      OrOfDisjoint(pn[1], pn[0], 32);
      q := BitOr(pn[0], pn[1] as int * 0x1_0000_0000);
      LowLimbs(pn[..]);
    }

    /** The number as a whole, limb by limb. */
    method ToNat() returns (n: nat)
      requires Valid()
      ensures n == V()
    {
      n := 0;
      var weight: nat := 1;
      for i := 0 to WIDTH
        invariant n == Prefix(pn[..], i) && weight == Weight(i)
      {
        n := n + pn[i] * weight;
        weight := LIMB * weight;
      }
    }

    method SetCompact(compact: uint32) returns (negative: bool, overflow: bool)
      requires Valid()
      modifies pn
      ensures V() == Magnitude(compact) % MODULUS
      ensures overflow <==> Magnitude(compact) >= MODULUS
      ensures negative <==> Magnitude(compact) != 0 && SignOf(compact)
    {
      var size := compact / 0x100_0000;
      var word := compact % 0x80_0000;
      if size <= 3 {
        SmallCompact(compact);
        word := word / Pow2(8 * (3 - size));
        Assign(word);
      } else {
        LargeCompact(compact);
        Assign(word);
        ShiftLeft(8 * (size - 3));
      }
      negative := word != 0 && compact / 0x80_0000 % 2 == 1;
      overflow := word != 0 && (size > 34 || (word > 0xFF && size > 33) || (word > 0xFFFF && size > 32));
    }

    method GetCompact(negative: bool) returns (compact: uint32)
      requires Valid()
      ensures compact == CompactOf(V()) + (if negative && MantissaOf(CompactOf(V())) != 0 then 0x80_0000 else 0)
    {
      ghost var n := V();
      var bits := BitLength();
      var size := (bits + 7) / 8;
      BytesFromBits(n, bits);
      var word: nat;
      if size <= 3 {
        SmallWord(n, size);
        Pow256IsPow2(3 - size);
        word := LowQword();
        SmallModulo(n, 0x1_0000_0000_0000_0000);
        SmallModulo(LeadingWord(n), 0x1_0000_0000_0000_0000);
        SmallModulo(LeadingWord(n), 0x1_0000_0000);
        word := word * Pow2(8 * (3 - size)) % 0x1_0000_0000_0000_0000 % 0x1_0000_0000;
      } else {
        LargeWord(n, size);
        Pow256IsPow2(size - 3);
        SmallModulo(LeadingWord(n), 0x1_0000_0000_0000_0000);
        SmallModulo(LeadingWord(n), 0x1_0000_0000);
        var bn := new Uint256.Copy(this);
        bn.ShiftRight(8 * (size - 3));
        word := bn.LowQword();
        word := word % 0x1_0000_0000;
      }
      LeadingWordFits(n);
      assert word == LeadingWord(n);
      if word / 0x80_0000 % 2 == 1 {
        word := word / 0x100;
        size := size + 1;
      }
      assert word <= 0x7F_FFFF && size < 256;
      assert Pack(size, word) == CompactOf(n);
      PackByOr(size, word);
      compact := BitOr(word, size * 0x100_0000);
      if negative && compact % 0x80_0000 != 0 {
        SignByOr(size, word);
        compact := BitOr(compact, 0x80_0000);
      }
    }
  }

  lemma LowLimbs(s: seq<uint32>)
    requires |s| == WIDTH
    ensures Value(s) % 0x1_0000_0000_0000_0000 == s[0] + s[1] * LIMB
  {
    PrefixWindow(s, 2, 6);
    assert Prefix(s, 2) == s[0] + s[1] * LIMB by {
      assert Prefix(s, 1) == s[0] * Weight(0);
    }
    assert Weight(2) == 0x1_0000_0000_0000_0000;
    DivModUnique(Value(s), Weight(2), Window(s, 2, 6), s[0] + s[1] * LIMB);
  }

  lemma SmallModulo(n: nat, m: nat)
    requires n < m
    ensures n % m == n
  {
  }

  /** Decoding a word of at most three bytes. */
  lemma SmallCompact(compact: uint32)
    requires SizeOf(compact) <= 3
    ensures 0 <= MantissaOf(compact) / Pow2(8 * (3 - SizeOf(compact))) == Magnitude(compact) < 0x80_0000
    ensures Magnitude(compact) % MODULUS == Magnitude(compact) < MODULUS
  {
    var d := Pow2(8 * (3 - SizeOf(compact)));
    Pow256IsPow2(3 - SizeOf(compact));
    QuotientUnique(MantissaOf(compact), d, QuotientNat(MantissaOf(compact), d));
    QuotientFits(MantissaOf(compact), d);
    MagnitudeOfSmallSize(compact);
    Pow2Values();
    Pow2BelowModulus(32);
    DivModUnique(Magnitude(compact), MODULUS, 0, Magnitude(compact));
  }

  /** Decoding a longer word. */
  lemma LargeCompact(compact: uint32)
    requires SizeOf(compact) > 3
    ensures Magnitude(compact) == MantissaOf(compact) * Pow2(8 * (SizeOf(compact) - 3))
    ensures Magnitude(compact) == 0 <==> MantissaOf(compact) == 0
    ensures var word, size := MantissaOf(compact), SizeOf(compact);
            Magnitude(compact) >= MODULUS <==>
            word != 0 && (size > 34 || (word > 0xFF && size > 33) || (word > 0xFFFF && size > 32))
  {
    var word, size := MantissaOf(compact), SizeOf(compact);
    Pow256IsWeight(8);
    Pow256IsPow2(size - 3);
    OverflowTest(word, size);
    if word != 0 {
      MulMonotone(1, word, Pow256(size - 3));
    }
  }

  lemma SmallWord(n: nat, size: nat)
    requires size == ByteLength(n) <= 3
    ensures n < 0x100_0000 && LeadingWord(n) == n * Pow256(3 - size) < 0x100_0000
  {
    ByteLengthBounds(n);
    Pow256Values();
    Pow256Add(size, 3 - size);
    MulOrder(n, Pow256(size), Pow256(3 - size));
    MulMonotone(1, Pow256(3 - size), n);
  }

  lemma LargeWord(n: nat, size: nat)
    requires size == ByteLength(n) > 3
    ensures n / Pow256(size - 3) == LeadingWord(n) < 0x100_0000
  {
    ByteLengthBounds(n);
    Pow256Values();
    Pow256Add(3, size - 3);
    QuotientInRange(n, Pow256(size - 3), 0, 0x100_0000);
  }

  lemma LeadingWordFits(n: nat)
    requires n < MODULUS
    ensures LeadingWord(n) < 0x100_0000 && ByteLength(n) <= 32
    ensures LeadingWord(n) / 0x80_0000 % 2 == 1 <==> LeadingWord(n) >= 0x80_0000
    ensures LeadingWord(n) / 0x100 <= 0x7F_FFFF
  {
    if ByteLength(n) <= 3 {
      SmallWord(n, ByteLength(n));
    } else {
      LargeWord(n, ByteLength(n));
    }
    ByteLengthFits(n);
    TopOf24Bits(LeadingWord(n));
  }

  lemma TopOf24Bits(word: nat)
    requires word < 0x100_0000
    ensures word / 0x80_0000 % 2 == 1 <==> word >= 0x80_0000
    ensures word / 0x100 <= 0x7F_FFFF
  {
  }

  lemma ByteLengthFits(n: nat)
    requires n < MODULUS
    ensures ByteLength(n) <= 32
  {
    Pow256IsWeight(8);
    ByteLengthAtMost(n, 32);
  }

  lemma PackByOr(size: nat, word: nat)
    requires word <= 0x7F_FFFF && size < 256
    ensures BitOr(word, size * 0x100_0000) == Pack(size, word) < LIMB
    ensures Pack(size, word) % 0x80_0000 == word == MantissaOf(Pack(size, word))
  {
    Pow2Values();
    Pow2Add(16, 8);
    Pow2Add(8, 8);
    OrOfDisjoint(size, word, 24);
    Unpack(size, word);
  }

  lemma SignByOr(size: nat, word: nat)
    requires word <= 0x7F_FFFF && size < 256
    ensures BitOr(Pack(size, word), 0x80_0000) == Pack(size, word) + 0x80_0000 < LIMB
  {
    SignBit();
    OrAbove(2 * size, 1, word, 23);
    OrOne(size);
  }

  lemma SignBit()
    ensures Pow2(23) == 0x80_0000
  {
    Pow2Values();
    Pow2Add(16, 7);
    Pow2Add(8, 8);
  }

  lemma OrOne(n: nat)
    ensures BitOr(2 * n, 1) == 2 * n + 1
  {
    OrOfDisjoint(n, 1, 1);
  }

  // ----- multiplication and division steps

  /** No 64-bit intermediate of the multiplication loops overflows. */
  lemma ProductFits(carry: int, digit: uint32, x: uint32, y: uint32)
    requires 0 <= carry < LIMB
    ensures 0 <= carry + digit + x * y < 0x1_0000_0000_0000_0000
    ensures 0 <= (carry + digit + x * y) / LIMB < LIMB
  {
    MulMonotone(x, LIMB - 1, y);
    MulMonotone(y, LIMB - 1, LIMB - 1);
    assert x * y >= 0;
  }

  lemma MulStep(before: int, carry: int, old_digit: int, x: int, y: int, digit: int, carry': int, w: int, v: int)
    requires before + carry * w == v && carry + old_digit + x * y == digit + LIMB * carry'
    ensures before + digit * w + carry' * (LIMB * w) == v + old_digit * w + (x * y) * w
  {
    Regroup(carry', LIMB, w);
    Scale(carry + old_digit + x * y, digit, LIMB * carry', w);
    Scale(carry + old_digit + x * y, carry + old_digit, x * y, w);
    Scale(carry + old_digit, carry, old_digit, w);
  }

  lemma WordStep(before: int, x: seq<uint32>, i: nat, carry: int, b32: uint32)
    requires i < |x| && before + carry * Weight(i) == Prefix(x, i) * b32
    ensures var n := carry + b32 * x[i];
            before + n % LIMB * Weight(i) + n / LIMB * Weight(i + 1) == Prefix(x, i + 1) * b32
  {
    var n := carry + b32 * x[i];
    MulStep(before, carry, 0, b32, x[i], n % LIMB, n / LIMB, Weight(i), Prefix(x, i) * b32);
    Scale(Prefix(x, i) + x[i] * Weight(i), Prefix(x, i), x[i] * Weight(i), b32);
    Regroup(x[i], Weight(i), b32);
  }

  lemma PartialProduct(x: int, y: int, w: int, v: int)
    ensures x * (v + y * w) == x * v + (x * y) * w
  {
    Regroup(x, y, w);
  }

  lemma RowStep(before: seq<uint32>, start: seq<uint32>, y: seq<uint32>, digit: uint32, j: nat, i: nat, carry: int)
    requires |before| == |start| == |y| == WIDTH && i + j < WIDTH && before[i + j] == start[i + j]
    requires Prefix(before, i + j) + carry * Weight(i + j) == Prefix(start, i + j) + digit * (Weight(j) * Prefix(y, i))
    ensures var n := carry + before[i + j] + digit * y[i];
            Prefix(before, i + j) + n % LIMB * Weight(i + j) + n / LIMB * Weight(i + j + 1)
            == Prefix(start, i + j + 1) + digit * (Weight(j) * Prefix(y, i + 1))
  {
    var n := carry + before[i + j] + digit * y[i];
    var v := Prefix(start, i + j) + digit * (Weight(j) * Prefix(y, i));
    MulStep(Prefix(before, i + j), carry, start[i + j], digit, y[i], n % LIMB, n / LIMB, Weight(i + j), v);
    WeightAdd(j, i);
    FactorOut(Weight(j), Prefix(y, i), y[i], Weight(i));
    PartialProduct(digit, y[i], Weight(i + j), Weight(j) * Prefix(y, i));
  }

  lemma RowDone(start: seq<uint32>, y: seq<uint32>, digit: uint32, j: nat, v: nat, carry: nat) returns (lost: int)
    requires |start| == |y| == WIDTH && j < WIDTH
    requires v + carry * MODULUS == Value(start) + digit * (Weight(j) * Prefix(y, WIDTH - j))
    ensures v + lost * MODULUS == Value(start) + digit * Weight(j) * Value(y)
  {
    var low, high, wl := Prefix(y, WIDTH - j), Window(y, WIDTH - j, j), Weight(WIDTH - j);
    PrefixWindow(y, WIDTH - j, j);
    assert WIDTH - j + j == |y|;
    WeightAdd(WIDTH - j, j);
    lost := carry + digit * high;
    RowSum(v, carry, Value(start), digit, Weight(j), low, high, wl);
  }

  lemma RowSum(v: int, carry: int, start: int, x: int, wj: int, low: int, high: int, wl: int)
    requires MODULUS == wl * wj && v + carry * MODULUS == start + x * (wj * low)
    ensures v + (carry + x * high) * MODULUS == start + x * wj * (low + wl * high)
  {
    Scale(carry + x * high, carry, x * high, MODULUS);
    RowTop(x, wj, low, high, wl);
  }

  lemma RowTop(x: int, wj: int, low: int, high: int, wl: int)
    ensures x * wj * (low + wl * high) == x * (wj * low) + x * high * (wl * wj)
  {
    Regroup(x, wj, low + wl * high);
    assert wj * (low + wl * high) == wj * low + high * (wl * wj) by {
      assert wj * (wl * high) == high * (wl * wj);
    }
    Regroup(x, high, wl * wj);
    assert x * (wj * low + high * (wl * wj)) == x * (wj * low) + x * (high * (wl * wj));
  }

  /** With the quotient settled down to bit `k`: `v` is its value so far and `r` the remainder. */
  predicate Dividing(n: int, d: int, v: int, r: int, q: int, k: nat) {
    v == q * Pow2(k) && r + v * d == n && 0 <= r < d * Pow2(k)
  }

  /** What either outcome of a round leaves. */
  lemma DivisionRound(n: int, d: int, v: int, r: int, q: int, k: nat)
    requires Dividing(n, d, v, r, q, k + 1)
    ensures r < d * Pow2(k) ==> Dividing(n, d, v, r, 2 * q, k)
    ensures r >= d * Pow2(k) ==> Dividing(n, d, v + Pow2(k), r - d * Pow2(k), 2 * q + 1, k)
  {
    RoundAtWeight(n, d, v, r, q, Pow2(k));
  }

  lemma RoundAtWeight(n: int, d: int, v: int, r: int, q: int, p: int)
    requires v == q * (2 * p) && r + v * d == n && r < d * (2 * p)
    ensures v == (2 * q) * p && v + p == (2 * q + 1) * p
    ensures (r - d * p) + (v + p) * d == n && r - d * p < d * p
  {
    Regroup(q, 2, p);
    Scale(2 * q + 1, 2 * q, 1, p);
    Scale(v + p, v, p, d);
    assert p * d == d * p;
    assert d * (2 * p) == d * p + d * p;
  }

  lemma Divided(n: int, d: int, v: int, r: int, q: int)
    requires Dividing(n, d, v, r, q, 0)
    ensures d > 0 && n / d == v && n % d == r
  {
    TimesOne(d);
    DivModUnique(n, d, v, r);
  }

  lemma TimesOne(d: int)
    ensures d * Pow2(0) == d
  {
  }

  lemma HalfOfShifted(d: nat, shift: nat)
    requires shift > 0
    ensures d * Pow2(shift) / Pow2(1) == d * Pow2(shift - 1)
  {
    assert Pow2(1) == 2;
    assert d * Pow2(shift) == 2 * (d * Pow2(shift - 1));
    DivModUnique(d * Pow2(shift), 2, d * Pow2(shift - 1), 0);
  }

  lemma {:induction false} AllZeroPrefix(s: seq<uint32>, i: nat)
    requires i <= |s| && Prefix(s, i) == 0
    ensures forall j :: 0 <= j < i ==> s[j] == 0
  {
    if i > 0 {
      if s[i - 1] > 0 {
        MulMonotone(1, s[i - 1], Weight(i - 1));
      }
      AllZeroPrefix(s, i - 1);
    }
  }

  lemma AllZero(s: seq<uint32>)
    requires |s| == WIDTH && Value(s) == 0
    ensures forall j :: 0 <= j < WIDTH ==> s[j] == 0
  {
    AllZeroPrefix(s, WIDTH);
  }

  lemma ShorterIsLess(n: nat, numBits: nat, d: nat, divBits: nat)
    requires IsBitLength(n, numBits) && IsBitLength(d, divBits) && numBits < divBits
    ensures n < d
  {
    if numBits < divBits - 1 {
      Pow2Monotone(numBits, divBits - 1);
    }
  }

  /** Shifting the divisor up to the length of the dividend loses no bit. */
  lemma Aligned(n: nat, numBits: nat, d: nat, divBits: nat)
    requires IsBitLength(n, numBits) && IsBitLength(d, divBits) && 0 < divBits <= numBits <= 256
    ensures 0 <= d * Pow2(numBits - divBits) < MODULUS
    ensures n < d * Pow2(numBits - divBits + 1)
  {
    var shift := numBits - divBits;
    Pow2BelowModulus(numBits);
    Pow2Add(divBits, shift);
    MulOrder(d, Pow2(divBits), Pow2(shift));
    AlignedAbove(d, divBits, shift);
    assert divBits + shift == numBits;
  }

  lemma AlignedAbove(d: nat, divBits: nat, shift: nat)
    requires divBits > 0 && Pow2(divBits - 1) <= d
    ensures Pow2(divBits + shift) <= d * Pow2(shift + 1)
  {
    Pow2Add(divBits - 1, shift + 1);
    MulMonotone(Pow2(divBits - 1), d, Pow2(shift + 1));
  }

  /** The quotient bit being set is still clear, so OR adds it. */
  lemma SettingBit(s: seq<uint32>, q: nat, shift: nat)
    requires |s| == WIDTH && shift < 256 && Value(s) == q * Pow2(shift + 1)
    ensures BitOr(s[shift / 32], Pow2(shift % 32)) == s[shift / 32] + Pow2(shift % 32) < LIMB
    ensures Value(s[shift / 32 := s[shift / 32] + Pow2(shift % 32)]) == Value(s) + Pow2(shift)
  {
    var k, t := shift / 32, shift % 32;
    WeightIsPow2(k);
    assert 32 * k + t == shift;
    assert LIMB == Pow2(31 - t) * Pow2(t + 1) by {
      Pow2Add(31 - t, t + 1);
      Pow2Values();
    }
    assert Pow2(shift + 1) == Weight(k) * Pow2(t + 1) by {
      Pow2Add(32 * k, t + 1);
    }
    assert Pow2(shift) == Pow2(t) * Weight(k) by {
      Pow2Add(32 * k, t);
    }
    var rest := Window(s, k + 1, WIDTH - k - 1);
    SplitAround(s, k);
    LowBitsClear(Prefix(s, k), Weight(k), s[k], rest, q, Pow2(t + 1), Pow2(31 - t));
    ClearBit(s[k], q - Pow2(31 - t) * rest, t);
    PrefixAdd(s, k, Pow2(t), |s|);
  }

  lemma SplitAround(s: seq<uint32>, k: nat)
    requires |s| == WIDTH && k < WIDTH
    ensures Value(s) == Prefix(s, k) + Weight(k) * s[k] + (LIMB * Weight(k)) * Window(s, k + 1, WIDTH - k - 1)
    ensures Prefix(s, k) < Weight(k)
  {
    var m := WIDTH - k - 1;
    PrefixWindow(s, k + 1, m);
    PrefixBound(s, k);
    assert k + 1 + m == |s|;
    assert Prefix(s, k + 1) == Prefix(s, k) + Weight(k) * s[k] by {
      assert Prefix(s, k + 1) == Prefix(s, k) + s[k] * Weight(k);
    }
  }

  lemma ClearBit(d: uint32, h: int, t: nat)
    requires t < 32 && d == h * Pow2(t + 1)
    ensures BitOr(d, Pow2(t)) == d + Pow2(t) < LIMB
  {
    if h < 0 {
      MulOrder(h, 0, Pow2(t + 1));
    }
    OrOfDisjoint(h, Pow2(t), t + 1);
    Pow2Add(31 - t, t + 1);
    Pow2Values();
    if h >= Pow2(31 - t) {
      MulMonotone(Pow2(31 - t), h, Pow2(t + 1));
    }
    MulOrder(h, Pow2(31 - t), Pow2(t + 1));
  }

  lemma LowBitsClear(low: int, w: int, digit: int, rest: int, q: int, p: int, u: int)
    requires 0 <= low < w && LIMB == u * p && low + w * digit + (LIMB * w) * rest == q * (w * p)
    ensures low == 0 && digit == (q - u * rest) * p
  {
    var m := q * p - digit - LIMB * rest;
    assert m * w == low by {
      Scale(q * p, m, digit + LIMB * rest, w);
      Scale(digit + LIMB * rest, digit, LIMB * rest, w);
      Regroup(q, p, w);
      assert p * w == w * p;
      Regroup(LIMB, rest, w);
    }
    SameQuotient(w, m, 0, 0, low);
    Scale(q, q - u * rest, u * rest, p);
    Regroup(u, rest, p);
    assert rest * LIMB == LIMB * rest;
  }

  lemma SubtractByAdding(x: nat, y: nat, m: nat)
    requires x < m && y < m
    ensures (x + (m - y) % m) % m == (x - y) % m
  {
    if y == 0 {
      DivModUnique(m, m, 1, 0);
    } else {
      DivModUnique(m - y, m, 0, m - y);
      var q, r := (x - y) / m, (x - y) % m;
      assert x - y == q * m + r;
      Scale(q + 1, q, 1, m);
      DivModUnique(x + (m - y), m, q + 1, r);
    }
  }
}
