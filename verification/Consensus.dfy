/** The work a block header proves: how many hashes its target makes one expect. */
module Consensus {
  import opened Bits
  import opened Limbs
  import opened CompactFormat
  import opened ArithUint256

  /** A target that is negative, zero or wider than 256 bits proves nothing. */
  predicate UsableTarget(bits: nat) {
    0 < Magnitude(bits) < MODULUS && !SignOf(bits)
  }

  /** The defining division, on unbounded integers. */
  function BlockProof(bits: nat): nat {
    if UsableTarget(bits) then QuotientNat(MODULUS, Magnitude(bits) + 1) else 0
  }

  /** The all-ones target has no compact word, so target + 1 never wraps to zero. */
  lemma TargetPlusOneFits(bits: nat)
    requires UsableTarget(bits)
    ensures Magnitude(bits) + 1 < MODULUS
  {
    if SizeOf(bits) <= 3 {
      MagnitudeOfSmallSize(bits);
      assert Weight(2) == 0x1_0000_0000_0000_0000;
      PowerBelow();
    } else {
      var m, p := MantissaOf(bits), Pow256(SizeOf(bits) - 4);
      assert Magnitude(bits) == 256 * (m * p);
      assert MODULUS == 256 * (0x100_0000 * Weight(7));
    }
  }

  lemma PowerBelow()
    ensures 0x100_0000 < MODULUS
  {
  }

  /** Dividing 2^256 without being able to write it down. */
  lemma ProofByComplement(m: nat, t: nat)
    requires t + 1 < m
    ensures QuotientNat(m - 1 - t, t + 1) + 1 == QuotientNat(m, t + 1)
  {
    var q := QuotientNat(m - 1 - t, t + 1);
    Scale(q + 1, q, 1, t + 1);
    Scale(q + 2, q + 1, 1, t + 1);
    QuotientUnique(m, t + 1, q + 1);
  }

  lemma ProofFits(bits: nat)
    requires UsableTarget(bits)
    ensures 1 <= BlockProof(bits) < MODULUS
  {
    TargetPlusOneFits(bits);
    QuotientInRange(MODULUS, Magnitude(bits) + 1, 1, MODULUS);
  }

  /** A smaller target proves at least as much work. */
  lemma ProofAntitone(bits: nat, bits': nat)
    requires UsableTarget(bits) && UsableTarget(bits') && Magnitude(bits) <= Magnitude(bits')
    ensures BlockProof(bits) >= BlockProof(bits')
  {
    QuotientAntitone(MODULUS, Magnitude(bits) + 1, Magnitude(bits') + 1);
  }

  /** The easiest target of the main chain makes one expect 2^32 hashes and a little more. */
  lemma EasiestProof(bits: nat)
    requires bits == 0x1D00_FFFF
    ensures BlockProof(bits) == 0x1_0001_0001
  {
    var p := EasiestTarget(bits);
    EasiestUsable(bits, p);
    DivideByEasiest(MODULUS, p);
  }

  lemma EasiestUsable(bits: nat, p: nat)
    requires p > 0 && MODULUS == 0x1_0000_0000_0000 * p && Magnitude(bits) == 0xFFFF * p && bits == 0x1D00_FFFF
    ensures BlockProof(bits) == QuotientNat(MODULUS, 0xFFFF * p + 1)
  {
    assert !SignOf(bits);
  }

  lemma EasiestTarget(bits: nat) returns (p: nat)
    requires bits == 0x1D00_FFFF
    ensures MODULUS == 0x1_0000_0000_0000 * p && 0x1_0000_0000_0000 < p && Magnitude(bits) == 0xFFFF * p
  {
    p := Pow256(26);
    KnownWords();
    ModulusIsPow2();
    Pow256IsPow2(32);
    Pow256Add(6, 26);
    SixBytes();
    Pow256Monotone(6, 26);
  }

  lemma SixBytes()
    ensures Pow256(6) == 0x1_0000_0000_0000
  {
    Pow256Values();
    Pow256Add(3, 3);
  }

  lemma DivideByEasiest(m: nat, p: nat)
    requires m == 0x1_0000_0000_0000 * p && 0x1_0001_0001 <= p
    ensures QuotientNat(m, 0xFFFF * p + 1) == 0x1_0001_0001
  {
    assert 0x1_0001_0001 * (0xFFFF * p + 1) == 0xFFFF_FFFF_FFFF * p + 0x1_0001_0001;
    assert 0x1_0001_0002 * (0xFFFF * p + 1) == 0x1_0000_0000_FFFE * p + 0x1_0001_0002;
    QuotientUnique(m, 0xFFFF * p + 1, 0x1_0001_0001);
  }

  /** Words that are no target: nothing, a mantissa cut away, one with a sign, one that is too wide. */
  lemma NoTargets()
    ensures BlockProof(0) == 0 && BlockProof(0x0100_3456) == 0 && BlockProof(0x0492_3456) == 0 && BlockProof(0xFF12_3456) == 0
  {
    KnownWords();
    EmptyWords();
    WidestWord();
    ModulusIsPow2();
    Pow256IsPow2(32);
  }

  /** No step of the calculation wraps. */
  lemma ProofSteps(bits: nat)
    requires UsableTarget(bits)
    ensures var t := Magnitude(bits);
            t + 1 < MODULUS && (QuotientNat(MODULUS - 1 - t, t + 1) + 1) % MODULUS == BlockProof(bits)
  {
    var t := Magnitude(bits);
    TargetPlusOneFits(bits);
    ProofByComplement(MODULUS, t);
    ProofFits(bits);
    SmallModulo(BlockProof(bits), MODULUS);
  }

  method GetBlockProof(bits: uint32) returns (proof: Uint256)
    ensures fresh(proof) && proof.Valid() && proof.V() == BlockProof(bits)
  {
    var target := new Uint256.Zero();
    var negative, overflow := target.SetCompact(bits);
    var isZero := target.EqualsUint64(0);
    if Magnitude(bits) < MODULUS {
      SmallModulo(Magnitude(bits), MODULUS);
    }
    if negative || overflow || isZero {
      proof := new Uint256.FromUint64(0);
      return;
    }
    ProofSteps(bits);
    proof := ComplementOverNext(target, Magnitude(bits));
  }

  /** ~target / (target + 1) + 1 in 256-bit arithmetic, for target `t`. */
  method ComplementOverNext(target: Uint256, ghost t: nat) returns (proof: Uint256)
    requires target.Valid() && target.V() == t && t + 1 < MODULUS
    ensures fresh(proof) && proof.Valid()
    ensures proof.V() == (QuotientNat(MODULUS - 1 - t, t + 1) + 1) % MODULUS
  {
    proof := target.Complement();
    var divisor := new Uint256.Copy(target);
    divisor.AddUint64(1);
    SmallModulo(t + 1, MODULUS);
    var ok := proof.DivAssign(divisor);
    assert proof.V() == QuotientNat(MODULUS - 1 - t, t + 1);
    proof.AddUint64(1);
  }

  /** The same as a plain number. */
  method CalcBlockProof(bits: uint32) returns (work: nat)
    ensures work == BlockProof(bits) < MODULUS
  {
    var proof := GetBlockProof(bits);
    work := proof.ToNat();
  }
}
