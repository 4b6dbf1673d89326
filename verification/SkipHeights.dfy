/** Where skip pointers lead, and how many steps it takes to walk down along them. */
module SkipHeights {
  import opened Bits

  /** `n & (n - 1)` for a non-negative `n`. */
  function InvertLowestOne(n: nat): nat {
    if n == 0 then 0 else BitAnd(n, n - 1)
  }

  function SkipHeight(height: int): nat {
    if height < 2 then 0
    else if height % 2 == 1 then InvertLowestOne(InvertLowestOne(height - 1)) + 1
    else InvertLowestOne(height)
  }

  lemma {:induction false} AndBelow(x: nat, y: nat)
    ensures BitAnd(x, y) <= y
  {
    if x > 0 && y > 0 {
      AndBelow(x / 2, y / 2);
    }
  }

  /** A skip always leads strictly down, so following skips ends. */
  lemma SkipHeightBelow(height: int)
    requires height >= 1
    ensures SkipHeight(height) < height
  {
    if height >= 2 {
      if height % 2 == 1 {
        AndBelow(height - 1, height - 2);
        var n := InvertLowestOne(height - 1);
        if n > 0 {
          AndBelow(n, n - 1);
        }
      } else {
        AndBelow(height, height - 1);
      }
    }
  }

  // ----- the lowest one

  lemma {:induction false} AndItself(n: nat)
    ensures BitAnd(n, n) == n
  {
    if n > 0 {
      AndItself(n / 2);
    }
  }

  lemma InvertBelow(n: nat)
    requires n > 0
    ensures InvertLowestOne(n) < n
  {
    AndBelow(n, n - 1);
  }

  /** An odd number loses its one; an even one loses the lowest one of its half. */
  lemma InvertHalf(n: nat)
    requires n > 0
    ensures n % 2 == 1 ==> InvertLowestOne(n) == n - 1
    ensures n % 2 == 0 ==> InvertLowestOne(n) == 2 * InvertLowestOne(n / 2)
  {
    if n % 2 == 1 {
      AndItself(n / 2);
      assert (n - 1) / 2 == n / 2;
    } else {
      assert (n - 1) / 2 == n / 2 - 1;
    }
  }

  /** What is taken away is the largest power of two that divides the number. */
  lemma {:induction false} InvertTakesLowest(n: nat) returns (k: nat)
    requires n > 0
    ensures InvertLowestOne(n) == n - Pow2(k) && Shr(n, k) * Pow2(k) == n && Shr(n, k) % 2 == 1
  {
    InvertHalf(n);
    if n % 2 == 1 {
      k := 0;
    } else {
      var j := InvertTakesLowest(n / 2);
      k := j + 1;
      ShrFirst(n, j);
      DoubleFactor(Shr(n / 2, j), Pow2(j));
    }
  }

  /** The number of ones among the lowest `k` bits. */
  function OnesBelow(n: nat, k: nat): (ones: nat)
    ensures ones <= k
  {
    if k == 0 then 0 else n % 2 + OnesBelow(n / 2, k - 1)
  }

  lemma {:induction false} NoOnes(k: nat)
    ensures OnesBelow(0, k) == 0
  {
    if k > 0 {
      NoOnes(k - 1);
    }
  }

  /** A one among the lowest `k` bits is taken from there, and what lies above stays. */
  lemma {:induction false} InvertWithin(n: nat, k: nat)
    requires OnesBelow(n, k) > 0
    ensures n > 0 && Shr(InvertLowestOne(n), k) == Shr(n, k)
    ensures OnesBelow(InvertLowestOne(n), k) == OnesBelow(n, k) - 1
    decreases k
  {
    if n == 0 {
      NoOnes(k);
    }
    InvertHalf(n);
    var m := InvertLowestOne(n);
    ShrFirst(n, k - 1);
    ShrFirst(m, k - 1);
    if n % 2 == 1 {
      assert m / 2 == n / 2;
    } else {
      InvertWithin(n / 2, k - 1);
      assert m / 2 == InvertLowestOne(n / 2);
    }
  }

  /** With no ones among the lowest `k` bits, every smaller number is smaller above them. */
  lemma {:induction false} LowestOfBlock(n: nat, k: nat, x: nat)
    requires OnesBelow(n, k) == 0 && x < n
    ensures Shr(x, k) < Shr(n, k)
    decreases k
  {
    if k > 0 {
      ShrFirst(n, k - 1);
      ShrFirst(x, k - 1);
      LowestOfBlock(n / 2, k - 1, x / 2);
    }
  }

  /** The one at the end of an even number changes nothing else. */
  lemma WithOne(n: nat, k: nat)
    requires n % 2 == 0 && k > 0
    ensures Shr(n + 1, k) == Shr(n, k) && OnesBelow(n + 1, k) == OnesBelow(n, k) + 1
  {
    ShrFirst(n, k - 1);
    ShrFirst(n + 1, k - 1);
    assert (n + 1) / 2 == n / 2;
  }

  lemma InvertIsEven(n: nat)
    ensures InvertLowestOne(n) % 2 == 0
  {
    if n > 0 {
      InvertHalf(n);
      EvenAfter(n, InvertLowestOne(n), InvertLowestOne(n / 2));
    }
  }

  lemma EvenAfter(n: nat, m: nat, half: nat)
    requires if n % 2 == 1 then m == n - 1 else m == 2 * half
    ensures m % 2 == 0
  {
  }

  // ----- walking down

  /** Whether the walk at height `w` towards `h` follows the skip pointer there: not if the one before leads further. */
  predicate TakesSkip(w: nat, h: nat)
    requires w >= 1
  {
    SkipHeight(w) == h ||
    (SkipHeight(w) > h && !(SkipHeight(w - 1) < SkipHeight(w) - 2 && SkipHeight(w - 1) >= h))
  }

  function Next(w: nat, h: nat): (x: nat)
    requires h < w
    ensures h <= x < w
  {
    SkipHeightBelow(w);
    if TakesSkip(w, h) then SkipHeight(w) else w - 1
  }

  /** The number of steps from height `w` down to `h` when every skip pointer is there. */
  function Steps(w: nat, h: nat): nat
    requires h <= w
  {
    if w == h then 0 else 1 + Steps(Next(w, h), h)
  }

  /** At an odd height a skip that does not lead too far is always taken. */
  lemma OddTakesSkip(w: nat, h: nat)
    requires w % 2 == 1 && w > 1 && h < w && SkipHeight(w) >= h
    ensures TakesSkip(w, h)
  {
    var n := InvertLowestOne(w - 1);
    if n > 0 {
      InvertBelow(n);
    }
  }

  /** Without ones among the lowest `k` bits the lowest one lies above them. */
  lemma LeavesBlock(n: nat, k: nat)
    requires OnesBelow(n, k) == 0 && n > 0
    ensures Shr(InvertLowestOne(n), k) < Shr(n, k)
  {
    InvertBelow(n);
    LowestOfBlock(n, k, InvertLowestOne(n));
  }

  /** Taking the lowest one twice stays in the block only if two are there. */
  lemma TwiceOrOut(n: nat, k: nat)
    requires n > 0
    ensures var y := InvertLowestOne(InvertLowestOne(n));
            if OnesBelow(n, k) >= 2 then Shr(y, k) == Shr(n, k) && OnesBelow(y, k) == OnesBelow(n, k) - 2
            else Shr(n, k) > 0 ==> Shr(y, k) < Shr(n, k)
  {
    var m := InvertLowestOne(n);
    if OnesBelow(n, k) > 0 {
      InvertWithin(n, k);
    } else {
      LeavesBlock(n, k);
    }
    if m > 0 {
      InvertBelow(m);
      ShrMonotone(InvertLowestOne(m), m, k);
      if OnesBelow(n, k) > 0 {
        if OnesBelow(m, k) > 0 {
          InvertWithin(m, k);
        } else {
          LeavesBlock(m, k);
        }
      }
    } else {
      NoOnes(k);
      ShrOfZero(k);
    }
  }

  /** An odd height whose skip stays in its block had at least three ones there, and loses two. */
  lemma OddStep(w: nat, k: nat)
    requires w % 2 == 1 && k > 0 && Shr(w, k) > 0
    ensures if OnesBelow(w, k) >= 3
            then Shr(SkipHeight(w), k) == Shr(w, k) && SkipHeight(w) % 2 == 1 && OnesBelow(SkipHeight(w), k) == OnesBelow(w, k) - 2
            else Shr(SkipHeight(w), k) < Shr(w, k)
  {
    var x := w - 1;
    WithOne(x, k);
    if x > 0 {
      TwiceOrOut(x, k);
      InvertIsEven(InvertLowestOne(x));
      WithOne(InvertLowestOne(InvertLowestOne(x)), k);
    } else {
      NoOnes(k);
      ShrOfZero(k);
    }
  }

  lemma {:induction false} ShrOfZero(k: nat)
    ensures Shr(0, k) == 0
  {
    if k > 0 {
      ShrOfZero(k - 1);
    }
  }

  lemma InvertDouble(n: nat, m: nat)
    requires n > 0 && m == 2 * n
    ensures InvertLowestOne(m) == 2 * InvertLowestOne(n)
  {
    InvertHalf(m);
  }

  /** The skip of the odd number after twice `half`. */
  lemma SkipOfOdd(half: nat, below: nat, once: nat, twice: nat)
    requires half > 0 && below == 2 * half && once == InvertLowestOne(below) && twice == InvertLowestOne(once)
    ensures SkipHeight(below + 1) == twice + 1
  {
  }

  /** The lowest ones of four times a number, and of the even number before it. */
  lemma FourTimes(z: nat, w: nat)
    requires z > 0 && w == 4 * z
    ensures InvertLowestOne(w) == 4 * InvertLowestOne(z)
    ensures z % 2 == 1 ==> InvertLowestOne(w) == w - 4
  {
    InvertDouble(z, 2 * z);
    InvertDouble(2 * z, w);
    if z % 2 == 1 {
      InvertHalf(z);
    }
  }

  lemma BeforeFourTimes(u: nat, w: nat)
    requires u > 0 && u % 2 == 0 && w == 2 * u
    ensures InvertLowestOne(w - 2) == w - 4
  {
    OddDouble(u - 1, w - 2);
  }

  lemma EvenInvert(z: nat)
    requires z > 0 && z % 2 == 0
    ensures InvertLowestOne(z) <= z - 2
  {
    InvertBelow(z);
    InvertIsEven(z);
  }

  lemma OddDouble(u: nat, w: nat)
    requires u % 2 == 1 && w == 2 * u
    ensures InvertLowestOne(w) == w - 2
  {
    InvertDouble(u, w);
    InvertHalf(u);
  }

  lemma Factors(w: nat) returns (u: nat, z: nat)
    requires w % 2 == 0 && w > 2
    ensures w == 2 * u && u > 1 && (u % 2 == 0 ==> w == 4 * z && z > 0)
  {
    u, z := w / 2, w / 4;
  }

  /** The skip `b` before twice an odd number. */
  lemma SkipBeforeTwo(u: nat, w: nat, b: nat)
    requires u > 1 && w == 2 * u && b == SkipHeight(w - 1)
    ensures b == InvertLowestOne(InvertLowestOne(w - 2)) + 1
  {
    SkipOfOdd(u - 1, w - 2, InvertLowestOne(w - 2), InvertLowestOne(InvertLowestOne(w - 2)));
  }

  /** The skip `b` before four times a number. */
  lemma SkipBeforeFour(u: nat, w: nat, b: nat)
    requires u > 0 && u % 2 == 0 && w == 2 * u && b == SkipHeight(w - 1)
    ensures b == InvertLowestOne(w - 4) + 1
  {
    BeforeFourTimes(u, w);
    SkipOfOdd(u - 1, w - 2, w - 4, InvertLowestOne(w - 4));
  }

  /** Before four times an even number it leads no further down than the skip there. */
  lemma NotBeforeEight(z: nat, w: nat, b: nat)
    requires z > 0 && z % 2 == 0 && w == 4 * z && b == InvertLowestOne(w - 4) + 1
    ensures b >= InvertLowestOne(w) - 2
  {
    FourTimes(z - 1, w - 4);
    AfterEight(z, w);
  }

  lemma AfterEight(z: nat, w: nat)
    requires z > 0 && z % 2 == 0 && w == 4 * z
    ensures InvertLowestOne(w) <= w - 8
  {
    FourTimes(z, w);
    EvenInvert(z);
  }

  /** Where an even height rather steps back, and the skip `b` before it stays in the block, that has fewer ones there. */
  lemma Detour(w: nat, k: nat, a: nat, b: nat)
    requires w % 2 == 0 && w > 2 && k > 0 && OnesBelow(w, k) > 0 && Shr(w, k) > 0
    requires a == InvertLowestOne(w) && b == SkipHeight(w - 1) && b < a - 2 && Shr(b, k) == Shr(w, k)
    ensures OnesBelow(b, k) < OnesBelow(w, k) && b % 2 == 1
  {
    var u, z := Factors(w);
    if u % 2 == 1 {
      SkipBeforeTwo(u, w, b);
      DetourBeforeTwo(u, w, k, b);
    } else {
      SkipBeforeFour(u, w, b);
      DetourBeforeFour(z, w, k, b);
    }
  }

  lemma DetourBeforeTwo(u: nat, w: nat, k: nat, b: nat)
    requires u % 2 == 1 && u > 1 && w == 2 * u && k > 0 && OnesBelow(w, k) > 0 && Shr(w, k) > 0
    requires b == InvertLowestOne(InvertLowestOne(w - 2)) + 1 && Shr(b, k) == Shr(w, k)
    ensures OnesBelow(b, k) < OnesBelow(w, k) && b % 2 == 1
  {
    OddDouble(u, w);
    InvertWithin(w, k);
    DetourTwice(w - 2, b - 1, k);
  }

  lemma DetourBeforeFour(z: nat, w: nat, k: nat, b: nat)
    requires z > 0 && w == 4 * z && k > 0 && OnesBelow(w, k) > 0 && Shr(w, k) > 0
    requires b == InvertLowestOne(w - 4) + 1 && b < InvertLowestOne(w) - 2 && Shr(b, k) == Shr(w, k)
    ensures OnesBelow(b, k) < OnesBelow(w, k) && b % 2 == 1
  {
    if z % 2 == 0 {
      NotBeforeEight(z, w, b);
    } else {
      FourTimes(z, w);
      InvertWithin(w, k);
      DetourOnce(w - 4, b - 1, k);
    }
  }

  lemma DetourOnce(a: nat, m: nat, k: nat)
    requires a > 0 && m == InvertLowestOne(a) && k > 0 && Shr(m + 1, k) == Shr(a, k)
    ensures OnesBelow(m + 1, k) <= OnesBelow(a, k) && m % 2 == 0
  {
    InvertIsEven(a);
    WithOne(m, k);
    if OnesBelow(a, k) > 0 {
      InvertWithin(a, k);
    } else {
      LeavesBlock(a, k);
    }
  }

  lemma DetourTwice(a: nat, m: nat, k: nat)
    requires a > 0 && m == InvertLowestOne(InvertLowestOne(a)) && k > 0 && Shr(a, k) > 0 && Shr(m + 1, k) == Shr(a, k)
    ensures OnesBelow(m + 1, k) <= OnesBelow(a, k) && m % 2 == 0
  {
    InvertIsEven(InvertLowestOne(a));
    WithOne(m, k);
    TwiceOrOut(a, k);
  }

  // ----- how many steps

  /** In the block of the target no walk takes more than `most` steps. */
  ghost predicate AtMost(h: nat, k: nat, most: nat) {
    forall x: nat {:trigger Steps(x, h)} :: h <= x && Shr(x, k) == Shr(h, k) ==> Steps(x, h) <= most
  }

  function Toll(w: nat, k: nat): nat {
    OnesBelow(w, k) + if w % 2 == 0 && OnesBelow(w, k) >= 2 then 2 else 1
  }

  /** Leaving a block for the one below takes about a step for each one in it. */
  lemma {:induction false} LeavingBlock(w: nat, h: nat, k: nat, most: nat)
    requires h < w && Shr(w, k) == Shr(h, k) + 1 && AtMost(h, k, most)
    ensures Steps(w, h) <= most + Toll(w, k)
    decreases w
  {
    var x := Next(w, h);
    ShrMonotone(h, x, k);
    ShrMonotone(x, w, k);
    if Shr(x, k) != Shr(h, k) {
      if OnesBelow(w, k) == 0 {
        LowestOfBlock(w, k, x);
      }
      if w % 2 == 1 {
        LeavingOdd(w, h, k, most);
      } else {
        LeavingEven(w, h, k, most);
      }
    }
  }

  lemma {:induction false} LeavingOdd(w: nat, h: nat, k: nat, most: nat)
    requires h < w && Shr(w, k) == Shr(h, k) + 1 && AtMost(h, k, most)
    requires w % 2 == 1 && Shr(Next(w, h), k) == Shr(w, k) && OnesBelow(w, k) > 0
    ensures Steps(w, h) <= most + Toll(w, k)
    decreases w, 0
  {
    var x := Next(w, h);
    OddStep(w, k);
    if OnesBelow(w, k) >= 3 {
      if SkipHeight(w) <= h {
        ShrMonotone(SkipHeight(w), h, k);
      }
      OddTakesSkip(w, h);
    } else {
      WithOne(w - 1, k);
    }
    LeavingBlock(x, h, k, most);
  }

  lemma {:induction false} LeavingEven(w: nat, h: nat, k: nat, most: nat)
    requires h < w && Shr(w, k) == Shr(h, k) + 1 && AtMost(h, k, most)
    requires w % 2 == 0 && Shr(Next(w, h), k) == Shr(w, k) && OnesBelow(w, k) > 0
    ensures Steps(w, h) <= most + Toll(w, k)
    decreases w, 1
  {
    SkipStays(w, h, k);
    if TakesSkip(w, h) {
      LeavingBlock(SkipHeight(w), h, k, most);
    } else {
      StepBackAndSkip(w, h);
      LeavingByDetour(w, h, k, most);
    }
  }

  /** From an even height with ones in its block the skip stays there, above the target. */
  lemma SkipStays(w: nat, h: nat, k: nat)
    requires w % 2 == 0 && OnesBelow(w, k) > 0 && Shr(w, k) > Shr(h, k)
    ensures h < SkipHeight(w) == InvertLowestOne(w) < w && SkipHeight(w) % 2 == 0
    ensures Shr(SkipHeight(w), k) == Shr(w, k) && OnesBelow(SkipHeight(w), k) == OnesBelow(w, k) - 1
  {
    InvertWithin(w, k);
    InvertIsEven(w);
    InvertBelow(w);
    if SkipHeight(w) <= h {
      ShrMonotone(SkipHeight(w), h, k);
    }
  }

  /** Where it is not taken, the next skip is. */
  lemma StepBackAndSkip(w: nat, h: nat)
    requires w % 2 == 0 && h < SkipHeight(w) < w && !TakesSkip(w, h)
    ensures h <= SkipHeight(w - 1) < SkipHeight(w) - 2 && Steps(w, h) == 2 + Steps(SkipHeight(w - 1), h)
  {
    OddTakesSkip(w - 1, h);
    assert Next(w, h) == w - 1 && Next(w - 1, h) == SkipHeight(w - 1);
  }

  lemma {:induction false} LeavingByDetour(w: nat, h: nat, k: nat, most: nat)
    requires w % 2 == 0 && Shr(w, k) == Shr(h, k) + 1 && AtMost(h, k, most) && OnesBelow(w, k) > 0
    requires SkipHeight(w) == InvertLowestOne(w) < w
    requires h <= SkipHeight(w - 1) < SkipHeight(w) - 2 && Steps(w, h) == 2 + Steps(SkipHeight(w - 1), h)
    ensures Steps(w, h) <= most + Toll(w, k)
    decreases w, 0
  {
    var b := SkipHeight(w - 1);
    ShrMonotone(h, b, k);
    ShrMonotone(b, w, k);
    if Shr(b, k) != Shr(h, k) {
      Detour(w, k, SkipHeight(w), b);
      LeavingBlock(b, h, k, most);
    } else if OnesBelow(w, k) == 1 {
      assert Toll(w, k) == 2;
    }
  }

  function Most(k: nat): nat {
    if k == 0 then 0 else Most(k - 1) + k + 1
  }

  lemma {:induction false} MostIsQuadratic(k: nat)
    ensures 2 * Most(k) == k * (k + 3)
  {
    if k > 0 {
      MostIsQuadratic(k - 1);
      assert k * (k + 3) == (k - 1) * (k + 2) + 2 * k + 2;
    }
  }

  /** Between heights that agree above their lowest `k` bits. */
  lemma {:induction false} StepsWithin(w: nat, h: nat, k: nat)
    requires h <= w && Shr(w, k) == Shr(h, k)
    ensures Steps(w, h) <= Most(k)
    decreases k
  {
    if k > 0 {
      forall x: nat {:trigger Steps(x, h)} | h <= x && Shr(x, k - 1) == Shr(h, k - 1) ensures Steps(x, h) <= Most(k - 1) {
        StepsWithin(x, h, k - 1);
      }
      ShrMonotone(h, w, k - 1);
      if Shr(w, k - 1) != Shr(h, k - 1) {
        LeavingBlock(w, h, k - 1, Most(k - 1));
      }
    }
  }

  /** From a height below 2^k any lower height is at most k(k+3)/2 steps away: 189 from below 2^18. */
  lemma StepsBound(w: nat, h: nat, k: nat)
    requires h <= w < Pow2(k)
    ensures 2 * Steps(w, h) <= k * (k + 3)
  {
    BelowPower(w, k);
    ShrMonotone(h, w, k);
    StepsWithin(w, h, k);
    MostIsQuadratic(k);
  }

  lemma {:induction false} BelowPower(n: nat, k: nat)
    requires n < Pow2(k)
    ensures Shr(n, k) == 0
    decreases k
  {
    if k > 0 {
      BelowPower(n / 2, k - 1);
      ShrFirst(n, k - 1);
    }
  }
}
