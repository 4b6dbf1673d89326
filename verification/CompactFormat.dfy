/** The 32-bit "compact" notation of difficulty targets: size byte, sign bit, 23-bit mantissa. */
module CompactFormat {
  import opened Bits
  import opened Limbs

  function Pow256(k: nat): (p: nat)
    ensures p >= 1
  {
    if k == 0 then 1 else 256 * Pow256(k - 1)
  }

  function SizeOf(c: nat): nat {
    c / 0x100_0000
  }

  predicate SignOf(c: nat) {
    c / 0x80_0000 % 2 == 1
  }

  function MantissaOf(c: nat): nat {
    c % 0x80_0000
  }

  /** The magnitude a compact word stands for: mantissa * 256^(size - 3), cut to an integer. */
  function Magnitude(c: nat): nat {
    if SizeOf(c) <= 3 then QuotientNat(MantissaOf(c), Pow256(3 - SizeOf(c)))
    else MantissaOf(c) * Pow256(SizeOf(c) - 3)
  }

  function QuotientNat(a: nat, d: nat): (q: nat)
    requires d > 0
    ensures q * d <= a < (q + 1) * d
  {
    NonNegativeQuotient(a, d);
    a / d
  }

  lemma NonNegativeQuotient(a: int, d: int)
    requires a >= 0 && d > 0
    ensures a / d >= 0 && (a / d) * d <= a < (a / d + 1) * d
  {
    assert a == (a / d) * d + a % d;
    Scale(a / d + 1, a / d, 1, d);
    if a / d < 0 {
      MulOrder(a / d, 0, d);
    }
  }

  function ByteLength(n: nat): nat {
    if n == 0 then 0 else 1 + ByteLength(n / 256)
  }

  function Pack(size: nat, mantissa: nat): nat {
    size * 0x100_0000 + mantissa
  }

  /** The mantissa before the sign bit is kept free. */
  function LeadingWord(n: nat): nat {
    if ByteLength(n) <= 3 then n * Pow256(3 - ByteLength(n)) else QuotientNat(n, Pow256(ByteLength(n) - 3))
  }

  /** The unsigned compact word for `n`: as many leading bytes as fit below the sign bit. */
  function CompactOf(n: nat): nat {
    var size, word := ByteLength(n), LeadingWord(n);
    if word >= 0x80_0000 then Pack(size + 1, word / 256) else Pack(size, word)
  }

  /** The words that CompactOf yields. */
  predicate Canonical(c: nat) {
    c == 0 || (
      && !SignOf(c)
      && SizeOf(c) >= 1
      && MantissaOf(c) >= 0x8000
      && (SizeOf(c) == 1 ==> MantissaOf(c) % 0x1_0000 == 0)
      && (SizeOf(c) == 2 ==> MantissaOf(c) % 0x100 == 0)
    )
  }

  /** Words of each kind: a mantissa cut short, one as it is, one moved up, one with a sign, and the easiest target of the main chain. */
  lemma KnownWords()
    ensures Magnitude(0x0112_3456) == 0x12 && Magnitude(0x0212_3456) == 0x1234 && Magnitude(0x0312_3456) == 0x12_3456
    ensures Magnitude(0x0492_3456) == 0x1234_5600 && SignOf(0x0492_3456) && !SignOf(0x0412_3456)
    ensures Magnitude(0x1D00_FFFF) == 0xFFFF * Pow256(26)
    ensures CompactOf(0x80) == 0x0200_8000 && CompactOf(0x9234_0000) == 0x0500_9234
  {
    Pow256Values();
    assert MantissaOf(0x0112_3456) == 0x12_3456 && MantissaOf(0x0492_3456) == 0x12_3456;
    QuotientUnique(0x12_3456, Pow256(2), 0x12);
    QuotientUnique(0x12_3456, Pow256(1), 0x1234);
    QuotientUnique(0x12_3456, Pow256(0), 0x12_3456);
    QuotientUnique(0x9234_0000, Pow256(1), 0x92_3400);
  }

  /** Nothing, and a mantissa that is cut away. */
  lemma EmptyWords()
    ensures Magnitude(0) == 0 && Magnitude(0x0100_3456) == 0
  {
    Pow256Values();
    assert MantissaOf(0x0100_3456) == 0x3456;
    QuotientUnique(0x3456, Pow256(2), 0);
    QuotientUnique(0, Pow256(3), 0);
  }

  lemma WidestWord()
    ensures Magnitude(0xFF12_3456) >= Pow256(32)
  {
    assert MantissaOf(0xFF12_3456) == 0x12_3456 && SizeOf(0xFF12_3456) == 0xFF;
    OverflowTest(0x12_3456, 0xFF);
  }

  lemma {:induction false} Pow256IsPow2(k: nat)
    ensures Pow256(k) == Pow2(8 * k)
  {
    if k > 0 {
      Pow256IsPow2(k - 1);
      Pow2Values();
      Pow2Add(8, 8 * (k - 1));
    }
  }

  lemma {:induction false} Pow256Add(a: nat, b: nat)
    ensures Pow256(a + b) == Pow256(a) * Pow256(b)
  {
    if a > 0 {
      Pow256Add(a - 1, b);
      Regroup(256, Pow256(a - 1), Pow256(b));
    }
  }

  lemma Pow256Values()
    ensures Pow256(1) == 0x100 && Pow256(2) == 0x1_0000 && Pow256(3) == 0x100_0000
  {
  }

  lemma Unpack(size: nat, mantissa: nat)
    requires mantissa < 0x80_0000
    ensures SizeOf(Pack(size, mantissa)) == size && MantissaOf(Pack(size, mantissa)) == mantissa
    ensures !SignOf(Pack(size, mantissa))
  {
    var c := Pack(size, mantissa);
    DivModUnique(c, 0x100_0000, size, mantissa);
    DivModUnique(c, 0x80_0000, 2 * size, mantissa);
  }

  lemma Repack(c: nat)
    requires !SignOf(c)
    ensures c == Pack(SizeOf(c), MantissaOf(c))
  {
    var above := c / 0x80_0000;
    assert above == 2 * (above / 2);
    DivModUnique(c, 0x100_0000, above / 2, MantissaOf(c));
  }

  lemma {:induction false} ByteLengthBounds(n: nat)
    ensures n == 0 <==> ByteLength(n) == 0
    ensures n < Pow256(ByteLength(n))
    ensures n > 0 ==> Pow256(ByteLength(n) - 1) <= n
  {
    if n > 0 {
      ByteLengthBounds(n / 256);
    }
  }

  lemma {:induction false} Pow256Monotone(a: nat, b: nat)
    requires a < b
    ensures Pow256(a) < Pow256(b)
  {
    if a + 1 < b {
      Pow256Monotone(a, b - 1);
    }
  }

  lemma Pow256Order(a: nat, b: nat)
    ensures Pow256(a) < Pow256(b) <==> a < b
  {
    if a < b {
      Pow256Monotone(a, b);
    } else if b < a {
      Pow256Monotone(b, a);
    }
  }

  lemma ByteLengthAtLeast(n: nat, k: nat)
    requires k > 0 && Pow256(k - 1) <= n
    ensures ByteLength(n) >= k
  {
    ByteLengthBounds(n);
    Pow256Order(k - 1, ByteLength(n));
  }

  lemma ByteLengthAtMost(n: nat, k: nat)
    requires n < Pow256(k)
    ensures ByteLength(n) <= k
  {
    ByteLengthBounds(n);
    if ByteLength(n) > 0 {
      Pow256Order(ByteLength(n) - 1, k);
    }
  }

  lemma ByteLengthUnique(n: nat, k: nat)
    requires k > 0 && Pow256(k - 1) <= n < Pow256(k)
    ensures ByteLength(n) == k
  {
    ByteLengthAtLeast(n, k);
    ByteLengthAtMost(n, k);
  }

  lemma BytesFromBits(n: nat, bits: nat)
    requires if n == 0 then bits == 0 else bits > 0 && Pow2(bits - 1) <= n < Pow2(bits)
    ensures ByteLength(n) == (bits + 7) / 8
  {
    if n > 0 {
      var k := (bits + 7) / 8;
      Pow256IsPow2(k);
      Pow256IsPow2(k - 1);
      if bits < 8 * k {
        Pow2Monotone(bits, 8 * k);
      }
      if 8 * (k - 1) < bits - 1 {
        Pow2Monotone(8 * (k - 1), bits - 1);
      }
      ByteLengthUnique(n, k);
    }
  }

  // ----- what CompactOf does

  lemma QuotientUnique(a: nat, d: nat, q: nat)
    requires d > 0 && q * d <= a < (q + 1) * d
    ensures QuotientNat(a, d) == q
  {
    var p := QuotientNat(a, d);
    if p < q {
      MulMonotone(p + 1, q, d);
    } else if q < p {
      MulMonotone(q + 1, p, d);
    }
  }

  lemma QuotientInRange(n: nat, d: nat, low: nat, high: nat)
    requires d > 0 && low * d <= n < high * d
    ensures low <= QuotientNat(n, d) < high
  {
    var q := QuotientNat(n, d);
    if q < low {
      MulMonotone(q + 1, low, d);
    } else if high <= q {
      MulMonotone(high, q, d);
    }
  }

  lemma QuotientAntitone(n: nat, d: nat, d': nat)
    requires 0 < d <= d'
    ensures QuotientNat(n, d) >= QuotientNat(n, d')
  {
    var q := QuotientNat(n, d');
    assert q * d <= q * d' by {
      MulMonotone(d, d', q);
    }
    if QuotientNat(n, d) < q {
      MulMonotone(QuotientNat(n, d) + 1, q, d);
    }
  }

  /** Dividing by 256^k and then by 256 is dividing by 256^(k + 1). */
  lemma QuotientTwice(n: nat, k: nat)
    ensures QuotientNat(n, Pow256(k)) / 256 == QuotientNat(n, Pow256(k + 1))
  {
    var p, q := Pow256(k), QuotientNat(n, Pow256(k));
    var h := q / 256;
    assert h * (256 * p) <= q * p && (q + 1) * p <= (h + 1) * (256 * p) by {
      Regroup(h, 256, p);
      Regroup(h + 1, 256, p);
      MulMonotone(h * 256, q, p);
      MulMonotone(q + 1, (h + 1) * 256, p);
    }
    QuotientUnique(n, 256 * p, h);
  }

  lemma ExactWord(size: nat, word: nat, n: nat, d: nat)
    requires size <= 3 && word < 0x80_0000 && d == Pow256(3 - size) && word == n * d
    ensures Magnitude(Pack(size, word)) == n
    ensures !SignOf(Pack(size, word)) && SizeOf(Pack(size, word)) == size && MantissaOf(Pack(size, word)) == word
  {
    Unpack(size, word);
    QuotientUnique(word, d, n);
  }

  /** Numbers below 2^23 keep all their digits. */
  lemma SmallIsExact(n: nat)
    requires n <= 0x7F_FFFF
    ensures Canonical(CompactOf(n)) && Magnitude(CompactOf(n)) == n
    ensures SizeOf(CompactOf(n)) <= 3
  {
    if n < 0x100 {
      TinyIsExact(n);
    } else {
      Pow256Values();
      if n < 0x1_0000 {
        ByteLengthUnique(n, 2);
      } else {
        ByteLengthUnique(n, 3);
      }
      if n < 0x8000 {
        ExactWord(2, n * 0x100, n, 0x100);
      } else {
        ExactWord(3, n, n, 1);
      }
    }
  }

  lemma TinyIsExact(n: nat)
    requires n < 0x100
    ensures Canonical(CompactOf(n)) && Magnitude(CompactOf(n)) == n
    ensures SizeOf(CompactOf(n)) <= 3
  {
    Pow256Values();
    if n == 0 {
      ExactWord(0, 0, 0, 0x100_0000);
    } else {
      ByteLengthUnique(n, 1);
      if n < 0x80 {
        ExactWord(1, n * 0x1_0000, n, 0x1_0000);
      } else {
        ExactWord(2, n * 0x100, n, 0x100);
      }
    }
  }

  /** Larger numbers keep their leading 16 to 23 bits. */
  lemma LargeIsTruncated(n: nat)
    requires n > 0x7F_FFFF
    ensures var c := CompactOf(n);
            && SizeOf(c) > 3
            && MantissaOf(c) == QuotientNat(n, Pow256(SizeOf(c) - 3))
            && 0x8000 <= MantissaOf(c)
            && Canonical(c)
            && ByteLength(n) <= SizeOf(c) <= ByteLength(n) + 1
  {
    Pow256Values();
    ByteLengthBounds(n);
    var size := ByteLength(n);
    ByteLengthAtLeast(n, 3);
    var word := QuotientNat(n, Pow256(size - 3));
    Pow256Add(size - 3, 2);
    Pow256Add(size - 3, 3);
    QuotientInRange(n, Pow256(size - 3), 0x1_0000, 0x100_0000);
    if word >= 0x80_0000 {
      QuotientTwice(n, size - 3);
      Unpack(size + 1, word / 256);
    } else {
      if size == 3 {
        QuotientUnique(n, Pow256(0), n);
      }
      Unpack(size, word);
    }
  }

  /** The round trip loses less than one unit of the last kept byte, and at most one part in 2^15. */
  lemma TruncationBound(n: nat)
    ensures Magnitude(CompactOf(n)) <= n
    ensures n <= 0x7F_FFFF ==> Magnitude(CompactOf(n)) == n
    ensures n > 0x7F_FFFF ==> SizeOf(CompactOf(n)) > 3 && n < Magnitude(CompactOf(n)) + Pow256(SizeOf(CompactOf(n)) - 3)
    ensures 0x8000 * (n - Magnitude(CompactOf(n))) <= n
  {
    if n <= 0x7F_FFFF {
      SmallIsExact(n);
    } else {
      LargeIsTruncated(n);
      LeadingPart(n, MantissaOf(CompactOf(n)), Pow256(SizeOf(CompactOf(n)) - 3));
    }
  }

  lemma LeadingPart(n: nat, m: nat, p: nat)
    requires p > 0 && m == QuotientNat(n, p) && 0x8000 <= m
    ensures m * p <= n < m * p + p && 0x8000 * (n - m * p) <= n
  {
    Scale(m + 1, m, 1, p);
    MulMonotone(0x8000, m, p);
  }

  /** No compact word stands for a number strictly between the round trip of `n` and `n`. */
  lemma LargestRepresentable(n: nat, c: nat)
    requires Magnitude(c) <= n
    ensures Magnitude(c) <= Magnitude(CompactOf(n))
  {
    if n <= 0x7F_FFFF {
      SmallIsExact(n);
    } else {
      LargeIsTruncated(n);
      NotAboveTruncated(n, c, SizeOf(CompactOf(n)), MantissaOf(CompactOf(n)));
    }
  }

  lemma NotAboveTruncated(n: nat, c: nat, size: nat, m: nat)
    requires Magnitude(c) <= n && size > 3
    requires 0x8000 <= m && m == QuotientNat(n, Pow256(size - 3))
    ensures Magnitude(c) <= m * Pow256(size - 3)
  {
    var p := Pow256(size - 3);
    if SizeOf(c) <= 3 {
      MagnitudeOfSmallSize(c);
      Pow256AtLeast(size - 3);
      AtLeastProduct(m, p);
    } else if SizeOf(c) < size {
      ShorterWord(SizeOf(c), MantissaOf(c), size, m);
    } else {
      var k := SizeOf(c) - size;
      Pow256Add(k, size - 3);
      Regroup(MantissaOf(c), Pow256(k), p);
      LargestMultiple(n, p, MantissaOf(c) * Pow256(k));
    }
  }

  lemma AtLeastProduct(m: nat, p: nat)
    requires 0x8000 <= m && 256 <= p
    ensures 0x80_0000 <= m * p
  {
    MulMonotone(0x8000, m, 256);
    MulMonotone(256, p, m);
  }

  /** The quotient gives the largest multiple of `p` up to `n`. */
  lemma LargestMultiple(n: nat, p: nat, t: nat)
    requires p > 0 && t * p <= n
    ensures t * p <= QuotientNat(n, p) * p
  {
    var q := QuotientNat(n, p);
    if t > q {
      MulMonotone(q + 1, t, p);
    } else {
      MulMonotone(t, q, p);
    }
  }

  lemma MagnitudeOfSmallSize(c: nat)
    requires SizeOf(c) <= 3
    ensures Magnitude(c) < 0x80_0000
  {
    var d := Pow256(3 - SizeOf(c));
    var q := QuotientNat(MantissaOf(c), d);
    MulMonotone(1, d, q);
  }

  lemma Pow256AtLeast(k: nat)
    requires k > 0
    ensures Pow256(k) >= 256
  {
  }

  lemma ShorterWord(size: nat, mantissa: nat, size': nat, mantissa': nat)
    requires 3 < size < size' && mantissa < 0x80_0000 && 0x8000 <= mantissa'
    ensures mantissa * Pow256(size - 3) <= mantissa' * Pow256(size' - 3)
  {
    var p, q := Pow256(size - 3), Pow256(size' - 3);
    if size < size' - 1 {
      Pow256Monotone(size - 3, size' - 4);
    }
    assert q == 256 * Pow256(size' - 4);
    assert 256 * p <= q;
    MulMonotone(mantissa, 0x80_0000, p);
    MulMonotone(0x8000, mantissa', q);
  }

  /** CompactOf inverts Magnitude on exactly the canonical words. */
  lemma CanonicalIffFixed(c: nat)
    ensures CompactOf(Magnitude(c)) == c <==> Canonical(c)
  {
    var n := Magnitude(c);
    if n <= 0x7F_FFFF {
      SmallIsExact(n);
    } else {
      LargeIsTruncated(n);
    }
    if Canonical(c) {
      CanonicalFixed(c);
    }
  }

  lemma CanonicalFixed(c: nat)
    requires Canonical(c)
    ensures CompactOf(Magnitude(c)) == c
  {
    var size, m := SizeOf(c), MantissaOf(c);
    if c == 0 {
      QuotientUnique(0, Pow256(3), 0);
    } else {
      Repack(c);
      if size > 3 {
        CanonicalLargeFixed(size, m);
      } else {
        Pow256Values();
        var n := if size == 3 then m else if size == 2 then m / 0x100 else m / 0x1_0000;
        QuotientUnique(m, Pow256(3 - size), n);
        SmallFixed(size, n, m);
      }
    }
  }

  /** The word of a number of at most three bytes, by the number of its bytes. */
  lemma SmallFixed(size: nat, n: nat, m: nat)
    requires 1 <= size <= 3 && 0x8000 <= m < 0x80_0000
    requires m == if size == 3 then n else if size == 2 then n * 0x100 else n * 0x1_0000
    ensures CompactOf(n) == Pack(size, m)
  {
    Pow256Values();
    var len := if n < 0x100 then 1 else if n < 0x1_0000 then 2 else 3;
    ByteLengthUnique(n, len);
    assert len == size || (len == size - 1 && LeadingWord(n) == 0x100 * m);
  }

  lemma CanonicalLargeFixed(size: nat, m: nat)
    requires size > 3 && 0x8000 <= m < 0x80_0000
    ensures CompactOf(m * Pow256(size - 3)) == Pack(size, m)
  {
    Pow256Values();
    var k := size - 3;
    var p := Pow256(k);
    var n := m * p;
    Pow256Add(2, k);
    Pow256Add(3, k);
    if m >= 0x1_0000 {
      MulMonotone(0x1_0000, m, p);
      MulOrder(m, 0x100_0000, p);
      ByteLengthUnique(n, size);
      QuotientUnique(n, p, m);
    } else {
      Pow256Add(1, k);
      MulMonotone(0x100, m, p);
      MulOrder(m, 0x1_0000, p);
      ByteLengthUnique(n, size - 1);
      var q := Pow256(k - 1);
      assert p == 256 * q;
      Regroup(m, 256, q);
      QuotientUnique(n, q, 256 * m);
    }
  }

  // ----- the overflow test

  lemma {:induction false} Pow256IsWeight(i: nat)
    ensures Pow256(4 * i) == Weight(i)
  {
    if i > 0 {
      Pow256IsWeight(i - 1);
      Pow256Add(4, 4 * (i - 1));
      Pow256Values();
      assert Pow256(4) == LIMB;
    }
  }

  lemma FitsBelow(word: nat, k: nat, j: nat, top: nat)
    requires word < Pow256(j) && k + j <= top
    ensures word * Pow256(k) < Pow256(top)
  {
    Pow256Add(j, k);
    MulOrder(word, Pow256(j), Pow256(k));
    if k + j < top {
      Pow256Monotone(k + j, top);
    }
  }

  lemma ReachesAbove(word: nat, k: nat, j: nat, top: nat)
    requires word >= Pow256(j) && k + j >= top
    ensures word * Pow256(k) >= Pow256(top)
  {
    Pow256Add(j, k);
    MulMonotone(Pow256(j), word, Pow256(k));
    if k + j > top {
      Pow256Monotone(top, k + j);
    }
  }

  /** The three size limits of the overflow flag say exactly that 256 bits do not suffice. */
  lemma OverflowTest(word: nat, size: nat)
    requires word < 0x80_0000 && size > 3
    ensures word * Pow256(size - 3) >= Pow256(32) <==>
            word != 0 && (size > 34 || (word > 0xFF && size > 33) || (word > 0xFFFF && size > 32))
  {
    Pow256Values();
    var k := size - 3;
    if word > 0xFFFF {
      if size > 32 {
        ReachesAbove(word, k, 2, 32);
      } else {
        FitsBelow(word, k, 3, 32);
      }
    } else if word > 0xFF {
      if size > 33 {
        ReachesAbove(word, k, 1, 32);
      } else {
        FitsBelow(word, k, 2, 32);
      }
    } else if word > 0 {
      if size > 34 {
        ReachesAbove(word, k, 0, 32);
      } else {
        FitsBelow(word, k, 1, 32);
      }
    }
  }
}
