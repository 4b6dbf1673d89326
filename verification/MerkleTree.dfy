/** The constant-space calculator of Merkle roots, branches and the `mutated` flag. */
module MerkleTree {
  import opened Bits
  import opened MerkleSpec

  /** `h` is node `i` of level `l`. */
  predicate IsNode<T(==)>(H: (T, T) -> T, xs: seq<T>, l: nat, i: int, h: T) {
    0 <= i < |Level(H, xs, l)| && Level(H, xs, l)[i] == h
  }

  /** After `count` leaves, `inner[l]` is the last complete node of level `l` for each set bit `l`. */
  ghost predicate InnerHolds<T>(H: (T, T) -> T, xs: seq<T>, inner: seq<T>, count: nat) {
    && |inner| == 32
    && forall l: nat :: l < 32 && TestBit(count, l) ==> IsNode(H, xs, l, Shr(count, l) - 1, inner[l])
  }

  /**
   * Where the branch of leaf `p` stands after `count` leaves: nowhere before the leaf is
   * read, afterwards complete up to the level of the inner node that covers the leaf.
   */
  ghost predicate BranchHolds<T>(H: (T, T) -> T, xs: seq<T>, p: nat, count: nat, matchLevel: int, branch: seq<T>) {
    if p < count then
      && p < |xs|
      && 0 <= matchLevel < 32
      && TestBit(count, matchLevel)
      && Shr(p, matchLevel) == Shr(count, matchLevel) - 1
      && branch == Siblings(H, xs, p, matchLevel)
    else
      matchLevel == -1 && branch == []
  }

  /** Leaf `count - 1` has been merged up to `level`, giving node `h`; the bits of `count` below are zero. */
  ghost predicate Carrying<T>(H: (T, T) -> T, xs: seq<T>, count: nat, level: nat, h: T)
    requires count > 0
  {
    && Shr(count - 1, level) == Shr(count, level) - 1
    && (forall k: nat :: k < level ==> !TestBit(count, k))
    && IsNode(H, xs, level, Shr(count, level) - 1, h)
  }

  /** The branch during that merge: either the new node covers `p`, or an older inner node does. */
  ghost predicate BranchCarried<T>(H: (T, T) -> T, xs: seq<T>, p: nat, count: nat, level: nat,
                                   matchH: bool, matchLevel: int, branch: seq<T>)
    requires count > 0
  {
    if matchH then
      p < count && p < |xs| && Shr(p, level) == Shr(count, level) - 1 && branch == Siblings(H, xs, p, level)
    else
      && p != count - 1
      && BranchHolds(H, xs, p, count - 1, matchLevel, branch)
      && (p < count ==> level <= matchLevel)
  }

  /** A merge below `level` joined two equal nodes. */
  predicate MergedEqual<T(==)>(H: (T, T) -> T, xs: seq<T>, count: nat, level: nat) {
    level > 0 && (MergedEqual(H, xs, count, level - 1) || MergesEqualAt(H, xs, count, level - 1))
  }

  predicate MergesEqualAt<T(==)>(H: (T, T) -> T, xs: seq<T>, count: nat, l: nat) {
    Shr(count, l) >= 2 && EqualPair(H, xs, l, Shr(count, l) - 2)
  }

  // ----- one merge

  lemma PairUp<T>(H: (T, T) -> T, xs: seq<T>, l: nat, c: nat, left: T, right: T)
    requires c % 2 == 0 && IsNode(H, xs, l, c - 2, left) && IsNode(H, xs, l, c - 1, right)
    ensures IsNode(H, xs, l + 1, c / 2 - 1, H(left, right))
  {
    NextLevelAt(H, Level(H, xs, l), c / 2 - 1);
  }

  lemma PairWithSelf<T>(H: (T, T) -> T, xs: seq<T>, l: nat, c: nat, h: T)
    requires c % 2 == 1 && c == |Level(H, xs, l)| && IsNode(H, xs, l, c - 1, h)
    ensures IsNode(H, xs, l + 1, (c + 1) / 2 - 1, H(h, h))
  {
    NextLevelAt(H, Level(H, xs, l), (c + 1) / 2 - 1);
  }

  lemma BranchGrows<T>(H: (T, T) -> T, xs: seq<T>, p: nat, l: nat, sibling: T)
    requires p < |xs| && Shr(p, l) < CeilShr(|xs|, l) && Sibling(H, xs, l, p) == sibling
    ensures Siblings(H, xs, p, l) + [sibling] == Siblings(H, xs, p, l + 1)
  {
  }

  /** The node covering `p` is the right one of a pair. */
  lemma LeftSibling<T>(H: (T, T) -> T, xs: seq<T>, p: nat, l: nat, c: nat, left: T)
    requires p < |xs| && c % 2 == 0 && Shr(p, l) == c - 1 && IsNode(H, xs, l, c - 2, left)
    ensures Shr(p, l) < CeilShr(|xs|, l) && Sibling(H, xs, l, p) == left
  {
    ShrBelow(p, |xs|, l);
  }

  /** The node covering `p` is the left one of a pair. */
  lemma RightSibling<T>(H: (T, T) -> T, xs: seq<T>, p: nat, l: nat, c: nat, right: T)
    requires p < |xs| && c % 2 == 0 && Shr(p, l) == c - 2 && IsNode(H, xs, l, c - 1, right)
    ensures Shr(p, l) < CeilShr(|xs|, l) && Sibling(H, xs, l, p) == right
  {
    ShrBelow(p, |xs|, l);
    assert (c - 2) % 2 == 0;
  }

  /** The node covering `p` is the odd last one. */
  lemma SelfSibling<T>(H: (T, T) -> T, xs: seq<T>, p: nat, l: nat, c: nat, h: T)
    requires p < |xs| && c % 2 == 1 && Shr(p, l) == c - 1 && c == |Level(H, xs, l)| && IsNode(H, xs, l, c - 1, h)
    ensures Shr(p, l) < CeilShr(|xs|, l) && Sibling(H, xs, l, p) == h
  {
  }

  /** A 32-entry `inner` suffices, and no shift in the loops exceeds the width of `count`. */
  lemma WithinLevels(count: nat, level: nat)
    requires 0 < count <= 0x8000_0000 && Shr(count, level) >= 1
    ensures level < 32
  {
    Pow2Values();
    ShrPositive(count, level, 31);
  }

  // ----- the first loop

  lemma CarryStep<T>(H: (T, T) -> T, xs: seq<T>, inner: seq<T>, count: nat, level: nat, h: T)
    requires 0 < count <= 0x8000_0000 && InnerHolds(H, xs, inner, count - 1)
    requires Carrying(H, xs, count, level, h) && !TestBit(count, level)
    ensures level < 32 && Shr(count, level) >= 2 && TestBit(count - 1, level)
    ensures IsNode(H, xs, level, Shr(count, level) - 2, inner[level])
    ensures Carrying(H, xs, count, level + 1, H(inner[level], h))
    ensures Shr(count, level + 1) < Shr(count, level)
    ensures MergedEqual(H, xs, count, level + 1) <==> MergedEqual(H, xs, count, level) || inner[level] == h
  {
    var c := Shr(count, level);
    EvenCount(c);
    WithinLevels(count, level);
    PairUp(H, xs, level, c, inner[level], h);
  }

  lemma EvenCount(c: nat)
    requires c >= 1 && c % 2 != 1
    ensures c >= 2 && c % 2 == 0 && (c - 1) % 2 == 1 && (c - 1) / 2 == c / 2 - 1 && c / 2 < c
  {
  }

  lemma BranchStep<T>(H: (T, T) -> T, xs: seq<T>, inner: seq<T>, p: nat, count: nat, level: nat, h: T,
                      matchH: bool, matchLevel: int, branch: seq<T>)
    requires 0 < count <= |xs| && level < 32 && |inner| == 32
    requires Carrying(H, xs, count, level, h) && !TestBit(count, level) && Shr(count, level) >= 2
    requires IsNode(H, xs, level, Shr(count, level) - 2, inner[level])
    requires BranchCarried(H, xs, p, count, level, matchH, matchLevel, branch)
    ensures BranchCarried(H, xs, p, count, level + 1, matchH || matchLevel == level, matchLevel,
                          if matchH then branch + [inner[level]] else if matchLevel == level then branch + [h] else branch)
  {
    if matchH {
      BranchClimbs(H, xs, p, count, level, inner[level], matchLevel, branch);
    } else if matchLevel == level {
      BranchMeets(H, xs, p, count, level, h, matchLevel, branch);
    }
  }

  lemma BranchClimbs<T>(H: (T, T) -> T, xs: seq<T>, p: nat, count: nat, level: nat, left: T, matchLevel: int, branch: seq<T>)
    requires 0 < count <= |xs|
    requires Shr(count, level) >= 2 && !TestBit(count, level) && IsNode(H, xs, level, Shr(count, level) - 2, left)
    requires BranchCarried(H, xs, p, count, level, true, matchLevel, branch)
    ensures BranchCarried(H, xs, p, count, level + 1, true, matchLevel, branch + [left])
  {
    LeftSibling(H, xs, p, level, Shr(count, level), left);
    BranchGrows(H, xs, p, level, left);
  }

  lemma BranchMeets<T>(H: (T, T) -> T, xs: seq<T>, p: nat, count: nat, level: nat, h: T, matchLevel: int, branch: seq<T>)
    requires 0 < count <= |xs| && level == matchLevel
    requires Carrying(H, xs, count, level, h) && !TestBit(count, level) && Shr(count, level) >= 2
    requires BranchCarried(H, xs, p, count, level, false, matchLevel, branch)
    ensures BranchCarried(H, xs, p, count, level + 1, true, matchLevel, branch + [h])
  {
    RightSibling(H, xs, p, level, Shr(count, level), h);
    BranchGrows(H, xs, p, level, h);
  }

  lemma {:induction false} ShrAboveCarry(count: nat, level: nat, l: nat)
    requires count > 0 && level < l
    requires Shr(count - 1, level) == Shr(count, level) - 1 && Shr(count, level) % 2 == 1
    ensures Shr(count - 1, l) == Shr(count, l)
    decreases l
  {
    if level + 1 < l {
      ShrAboveCarry(count, level, l - 1);
    }
  }

  /** Below the first set bit of `count` nothing is kept, above it nothing changed. */
  lemma InnerAfterCarry<T>(H: (T, T) -> T, xs: seq<T>, inner: seq<T>, count: nat, level: nat, h: T)
    requires count > 0 && level < 32 && InnerHolds(H, xs, inner, count - 1)
    requires Carrying(H, xs, count, level, h) && TestBit(count, level)
    ensures InnerHolds(H, xs, inner[level := h], count)
  {
    forall l: nat | l < 32 && TestBit(count, l)
      ensures IsNode(H, xs, l, Shr(count, l) - 1, inner[level := h][l])
    {
      if l > level {
        ShrAboveCarry(count, level, l);
      }
    }
  }

  lemma BranchAfterCarry<T>(H: (T, T) -> T, xs: seq<T>, p: nat, count: nat, level: nat, h: T,
                            matchH: bool, matchLevel: int, branch: seq<T>)
    requires count > 0 && level < 32
    requires Carrying(H, xs, count, level, h) && TestBit(count, level)
    requires BranchCarried(H, xs, p, count, level, matchH, matchLevel, branch)
    ensures BranchHolds(H, xs, p, count, if matchH then level else matchLevel, branch)
  {
    if !matchH && p < count {
      assert !TestBit(count - 1, level);
      ShrAboveCarry(count, level, matchLevel);
    }
  }

  lemma {:induction false} MergedEqualMeans<T>(H: (T, T) -> T, xs: seq<T>, count: nat, level: nat)
    ensures MergedEqual(H, xs, count, level) <==> exists l: nat :: l < level && MergesEqualAt(H, xs, count, l)
  {
    if level > 0 {
      MergedEqualMeans(H, xs, count, level - 1);
    }
  }

  lemma {:induction false} ShrInCarry(count: nat, level: nat, l: nat)
    requires count > 0 && l <= level && forall k: nat :: k < level ==> !TestBit(count, k)
    ensures Shr(count - 1, l) == Shr(count, l) - 1
  {
    if l > 0 {
      ShrInCarry(count, level, l - 1);
      assert !TestBit(count, l - 1);
    }
  }

  /** The pairs completed by leaf `count - 1` are exactly those its merges joined. */
  lemma NewPairs<T>(H: (T, T) -> T, xs: seq<T>, count: nat, level: nat, h: T, l: nat, i: nat)
    requires count > 0 && Carrying(H, xs, count, level, h) && TestBit(count, level) && i % 2 == 0
    ensures i + 2 <= Shr(count, l) <==> i + 2 <= Shr(count - 1, l) || (l < level && i + 2 == Shr(count, l))
  {
    if l <= level {
      ShrInCarry(count, level, l);
      assert l < level ==> !TestBit(count, l);
    } else {
      ShrAboveCarry(count, level, l);
    }
  }

  lemma MutatedAfterCarry<T>(H: (T, T) -> T, xs: seq<T>, count: nat, level: nat, h: T)
    requires count > 0 && Carrying(H, xs, count, level, h) && TestBit(count, level)
    ensures DuplicatedWithin(H, xs, count) <==> DuplicatedWithin(H, xs, count - 1) || MergedEqual(H, xs, count, level)
  {
    MergedEqualMeans(H, xs, count, level);
    if DuplicatedWithin(H, xs, count) {
      var l: nat, i: nat :| EqualPair(H, xs, l, i) && i + 2 <= Shr(count, l);
      NewPairs(H, xs, count, level, h, l, i);
      assert i + 2 == Shr(count, l) ==> MergesEqualAt(H, xs, count, l);
    }
    if DuplicatedWithin(H, xs, count - 1) {
      var l: nat, i: nat :| EqualPair(H, xs, l, i) && i + 2 <= Shr(count - 1, l);
      NewPairs(H, xs, count, level, h, l, i);
    }
    if MergedEqual(H, xs, count, level) {
      var l: nat :| l < level && MergesEqualAt(H, xs, count, l);
      assert EqualPair(H, xs, l, Shr(count, l) - 2);
    }
  }

  /**
   * One round of the first loop: take leaf `count - 1` and merge it upwards past the zero
   * low bits of `count`.
   */
  method AddLeaf<T(==)>(H: (T, T) -> T, leaves: seq<T>, inner: array<T>, count: nat, branchPos: nat,
                        wantBranch: bool, mutatedBefore: bool, matchLevelBefore: int, branchBefore: seq<T>)
    returns (mutated: bool, matchLevel: int, branch: seq<T>)
    requires 0 < count <= |leaves| && count <= 0x8000_0000
    requires InnerHolds(H, leaves, inner[..], count - 1)
    requires mutatedBefore <==> DuplicatedWithin(H, leaves, count - 1)
    requires if wantBranch then BranchHolds(H, leaves, branchPos, count - 1, matchLevelBefore, branchBefore) else branchBefore == []
    modifies inner
    ensures InnerHolds(H, leaves, inner[..], count)
    ensures mutated <==> DuplicatedWithin(H, leaves, count)
    ensures if wantBranch then BranchHolds(H, leaves, branchPos, count, matchLevel, branch) else branch == []
  {
    mutated, matchLevel, branch := mutatedBefore, matchLevelBefore, branchBefore;
    var h := leaves[count - 1];
    var matchH := count - 1 == branchPos;
    var level := 0;
    ghost var kept := inner[..];
    ghost var merged := false;
    while !TestBit(count, level)
      invariant Carrying(H, leaves, count, level, h)
      invariant merged == MergedEqual(H, leaves, count, level) && mutated == (mutatedBefore || merged)
      invariant inner[..] == kept
      invariant if wantBranch then BranchCarried(H, leaves, branchPos, count, level, matchH, matchLevel, branch) else branch == []
      decreases Shr(count, level)
    {
      CarryStep(H, leaves, kept, count, level, h);
      assert inner[level] == kept[level];
      if wantBranch {
        BranchStep(H, leaves, kept, branchPos, count, level, h, matchH, matchLevel, branch);
        if matchH {
          branch := branch + [inner[level]];
        } else if matchLevel == level {
          branch := branch + [h];
          matchH := true;
        }
      }
      mutated := mutated || inner[level] == h;
      merged := merged || inner[level] == h;
      h := H(inner[level], h);
      level := level + 1;
    }
    WithinLevels(count, level);
    MutatedAfterCarry(H, leaves, count, level, h);
    InnerAfterCarry(H, leaves, kept, count, level, h);
    if wantBranch {
      BranchAfterCarry(H, leaves, branchPos, count, level, h, matchH, matchLevel, branch);
    }
    inner[level] := h;
    assert inner[..] == kept[level := h];
    if matchH {
      matchLevel := level;
    }
  }

  // ----- the final sweep

  /**
   * Sweeping at `level`: `h` is the last node of the level and `c` the number of nodes there;
   * `count` is the leaf count rounded up to whole blocks of that level.
   */
  ghost predicate Sweeping<T>(H: (T, T) -> T, xs: seq<T>, count: nat, level: nat, c: nat, h: T)
    requires |xs| > 0
  {
    && c == CeilShr(|xs|, level) > 0
    && count == c * Pow2(level)
    && level + Depth(c) == Depth(|xs|)
    && IsNode(H, xs, level, c - 1, h)
  }

  /** The branch while sweeping. */
  ghost predicate BranchSwept<T>(H: (T, T) -> T, xs: seq<T>, p: nat, level: nat, c: nat, matchH: bool, matchLevel: int, branch: seq<T>) {
    if p >= |xs| then
      !matchH && matchLevel == -1 && branch == []
    else if matchH then
      Shr(p, level) == c - 1 && branch == Siblings(H, xs, p, level)
    else
      level <= matchLevel && BranchHolds(H, xs, p, |xs|, matchLevel, branch)
  }

  lemma CountBits(count: nat, level: nat, c: nat)
    requires count == c * Pow2(level)
    ensures TestBit(count, level) <==> c % 2 == 1
    ensures count == Pow2(level) <==> c == 1
  {
    ShrOfMultiple(c, level);
    if c == 0 {
      assert count == 0;
    } else if c > 1 {
      assert count >= 2 * Pow2(level) by { MulMonotone(2, c, Pow2(level)); }
    }
  }

  /** The rounded-up count still fits in 32 bits. */
  lemma RoundedCountFits(n: nat, level: nat)
    requires 0 < n <= 0x8000_0000
    ensures level <= Depth(n) ==> level < 32 && CeilShr(n, level) * Pow2(level) <= 0x8000_0000
  {
    Pow2Values();
    if level <= Depth(n) {
      DepthBound(n, 31);
      CeilShrBound(n, 31, level);
      MulMonotone(CeilShr(n, level), Pow2(31 - level), Pow2(level));
      Pow2Add(31 - level, level);
    }
  }

  lemma {:induction false} DepthBound(n: nat, k: nat)
    requires 0 < n <= Pow2(k)
    ensures Depth(n) <= k
  {
    if n > 1 {
      DepthBound((n + 1) / 2, k - 1);
    }
  }

  /**
   * The sweep ends with `count` at the width of the whole tree; 32 bits hold that for exactly
   * the lists of up to 2^31 leaves.
   */
  lemma LeafLimit(n: nat)
    requires n > 0
    ensures n <= Pow2(Depth(n))
    ensures Pow2(Depth(n)) < 0x1_0000_0000 <==> n <= 0x8000_0000
  {
    Pow2Values();
    FitsUnderDepth(n);
    if n <= 0x8000_0000 {
      DepthBound(n, 31);
      if Depth(n) < 31 {
        Pow2Monotone(Depth(n), 31);
      }
    } else if Depth(n) < 32 {
      if Depth(n) < 31 {
        Pow2Monotone(Depth(n), 31);
      }
    } else if Depth(n) > 32 {
      Pow2Monotone(32, Depth(n));
    }
  }

  lemma {:induction false} FitsUnderDepth(n: nat)
    requires n > 0
    ensures n <= Pow2(Depth(n))
  {
    if n > 1 {
      FitsUnderDepth((n + 1) / 2);
    }
  }

  /** Merging an odd last node with itself. */
  lemma SweepSelf<T>(H: (T, T) -> T, xs: seq<T>, count: nat, level: nat, c: nat, h: T)
    requires |xs| > 0 && Sweeping(H, xs, count, level, c, h) && c % 2 == 1 && c > 1
    ensures Sweeping(H, xs, count + Pow2(level), level + 1, (c + 1) / 2, H(h, h))
  {
    PairWithSelf(H, xs, level, c, h);
    RoundUp(c, Pow2(level));
  }

  /** Everything that such a merge does to the sweep. */
  lemma SelfStep<T>(H: (T, T) -> T, xs: seq<T>, count: nat, level: nat, c: nat, h: T)
    requires 0 < |xs| <= 0x8000_0000 && Sweeping(H, xs, count, level, c, h) && c % 2 == 1 && c > 1
    requires c - 1 <= Shr(|xs|, level) <= c
    ensures Sweeping(H, xs, count + Pow2(level), level + 1, (c + 1) / 2, H(h, h))
    ensures level + 1 < 32 && count + Pow2(level) <= 0x8000_0000
    ensures Shr(|xs|, level + 1) == (c + 1) / 2 - 1 && (c + 1) / 2 < c
  {
    SweepSelf(H, xs, count, level, c, h);
    UpperCountStep(|xs|, level, c);
    RoundedCountFits(|xs|, level + 1);
  }

  lemma RoundUp(c: nat, p: nat)
    requires c % 2 == 1
    ensures c * p + p == ((c + 1) / 2) * (2 * p)
  {
    HalfTimesDouble(c + 1, p);
  }

  /** Merging an even last node with its complete left neighbour. */
  lemma SweepPair<T>(H: (T, T) -> T, xs: seq<T>, count: nat, level: nat, c: nat, left: T, h: T)
    requires |xs| > 0 && Sweeping(H, xs, count, level, c, h) && c % 2 == 0
    requires IsNode(H, xs, level, c - 2, left)
    ensures Sweeping(H, xs, count, level + 1, c / 2, H(left, h))
  {
    assert (c + 1) / 2 == c / 2;
    PairUp(H, xs, level, c, left, h);
    HalfTimesDouble(c, Pow2(level));
  }

  lemma HalfTimesDouble(c: nat, p: nat)
    requires c % 2 == 0
    ensures (c / 2) * (2 * p) == c * p
  {
    var k := c / 2;
    assert c == 2 * k;
    assert k * (2 * p) == (2 * k) * p;
  }

  lemma LowerCountStep(n: nat, level: nat, c: nat)
    requires Shr(n, level) == c - 1
    ensures c % 2 == 0 ==> Shr(n, level + 1) == c / 2 - 1 && TestBit(n, level)
    ensures c % 2 == 1 ==> Shr(n, level + 1) == (c + 1) / 2 - 1 && !TestBit(n, level)
  {
  }

  lemma FirstBitStep(n: nat, level: nat)
    requires Shr(n, level) == CeilShr(n, level) && !TestBit(n, level)
    ensures Shr(n, level + 1) == CeilShr(n, level + 1) == Shr(n, level) / 2
  {
  }

  lemma BranchSweepSelf<T>(H: (T, T) -> T, xs: seq<T>, p: nat, level: nat, c: nat, h: T, matchH: bool, matchLevel: int, branch: seq<T>)
    requires c == |Level(H, xs, level)| && c % 2 == 1 && IsNode(H, xs, level, c - 1, h)
    requires BranchSwept(H, xs, p, level, c, matchH, matchLevel, branch)
    requires matchH || matchLevel != level
    ensures BranchSwept(H, xs, p, level + 1, (c + 1) / 2, matchH, matchLevel, if matchH then branch + [h] else branch)
  {
    if matchH {
      SelfSibling(H, xs, p, level, c, h);
      BranchGrows(H, xs, p, level, h);
    }
  }

  lemma BranchSweepLeft<T>(H: (T, T) -> T, xs: seq<T>, p: nat, level: nat, c: nat, left: T, matchLevel: int, branch: seq<T>)
    requires c % 2 == 0 && IsNode(H, xs, level, c - 2, left)
    requires BranchSwept(H, xs, p, level, c, true, matchLevel, branch)
    ensures BranchSwept(H, xs, p, level + 1, c / 2, true, matchLevel, branch + [left])
  {
    LeftSibling(H, xs, p, level, c, left);
    BranchGrows(H, xs, p, level, left);
  }

  lemma BranchSweepRight<T>(H: (T, T) -> T, xs: seq<T>, p: nat, level: nat, c: nat, h: T, matchLevel: int, branch: seq<T>)
    requires c % 2 == 0 && IsNode(H, xs, level, c - 1, h) && Shr(|xs|, level) == c - 1 && matchLevel == level
    requires BranchSwept(H, xs, p, level, c, false, matchLevel, branch)
    ensures BranchSwept(H, xs, p, level + 1, c / 2, true, matchLevel, branch + [h])
  {
    RightSibling(H, xs, p, level, c, h);
    BranchGrows(H, xs, p, level, h);
  }

  /** Skip the zero low bits of `count`: nothing is left on those levels. */
  method LowestSetBit(count: nat) returns (level: nat, ghost c: nat)
    requires 0 < count <= 0x8000_0000
    ensures level < 32 && TestBit(count, level)
    ensures c == Shr(count, level) == CeilShr(count, level) > 0
    ensures count == c * Pow2(level) && level + Depth(c) == Depth(count)
    ensures forall l: nat :: l < level ==> !TestBit(count, l)
  {
    level, c := 0, count;
    while !TestBit(count, level)
      invariant c == Shr(count, level) == CeilShr(count, level) > 0
      invariant count == c * Pow2(level) && level + Depth(c) == Depth(count)
      invariant forall l: nat :: l < level ==> !TestBit(count, l)
      decreases c
    {
      FirstBitStep(count, level);
      HalfTimesDouble(c, Pow2(level));
      level, c := level + 1, c / 2;
    }
    WithinLevels(count, level);
  }

  /** The inner loop of the sweep: merge with complete left neighbours while there are any. */
  method SweepPairs<T(==)>(H: (T, T) -> T, leaves: seq<T>, inner: array<T>, branchPos: nat, wantBranch: bool, count: nat,
                           level0: nat, ghost c0: nat, h0: T, matchH0: bool, matchLevel: int, branch0: seq<T>)
    returns (level: nat, ghost c: nat, h: T, matchH: bool, branch: seq<T>)
    requires 0 < |leaves| <= 0x8000_0000 && InnerHolds(H, leaves, inner[..], |leaves|)
    requires Sweeping(H, leaves, count, level0, c0, h0) && Shr(|leaves|, level0) == c0 - 1
    requires if wantBranch then BranchSwept(H, leaves, branchPos, level0, c0, matchH0, matchLevel, branch0) else branch0 == []
    ensures Sweeping(H, leaves, count, level, c, h) && Shr(|leaves|, level) == c - 1 && c <= c0 && c % 2 == 1
    ensures !TestBit(|leaves|, level)
    ensures if wantBranch then BranchSwept(H, leaves, branchPos, level, c, matchH, matchLevel, branch) else branch == []
  {
    level, c, h, matchH, branch := level0, c0, h0, matchH0, branch0;
    CountBits(count, level, c);
    while !TestBit(count, level)
      invariant Sweeping(H, leaves, count, level, c, h) && Shr(|leaves|, level) == c - 1 && c <= c0
      invariant TestBit(count, level) <==> c % 2 == 1
      invariant if wantBranch then BranchSwept(H, leaves, branchPos, level, c, matchH, matchLevel, branch) else branch == []
      decreases c
    {
      RoundedCountFits(|leaves|, level);
      LowerCountStep(|leaves|, level, c);
      if wantBranch {
        if matchH {
          BranchSweepLeft(H, leaves, branchPos, level, c, inner[level], matchLevel, branch);
          branch := branch + [inner[level]];
        } else if matchLevel == level {
          BranchSweepRight(H, leaves, branchPos, level, c, h, matchLevel, branch);
          branch := branch + [h];
          matchH := true;
        }
      }
      SweepPair(H, leaves, count, level, c, inner[level], h);
      h := H(inner[level], h);
      level, c := level + 1, c / 2;
      CountBits(count, level, c);
    }
    LowerCountStep(|leaves|, level, c);
  }

  /** The sweep pairs the last node of a level with itself. */
  method DoubleNode<T(==)>(H: (T, T) -> T, ghost leaves: seq<T>, ghost branchPos: nat, wantBranch: bool, count0: nat,
                           level0: nat, ghost c0: nat, h0: T, matchH: bool, matchLevel: int, branch0: seq<T>)
    returns (count: nat, level: nat, ghost c: nat, h: T, branch: seq<T>)
    requires 0 < |leaves| <= 0x8000_0000 && Sweeping(H, leaves, count0, level0, c0, h0)
    requires c0 % 2 == 1 && c0 - 1 <= Shr(|leaves|, level0) <= c0 && count0 != Pow2(level0)
    requires if wantBranch then BranchSwept(H, leaves, branchPos, level0, c0, matchH, matchLevel, branch0)
                                && (matchH || matchLevel != level0) else branch0 == []
    ensures Sweeping(H, leaves, count, level, c, h) && Shr(|leaves|, level) == c - 1 && c < c0
    ensures if wantBranch then BranchSwept(H, leaves, branchPos, level, c, matchH, matchLevel, branch) else branch == []
  {
    CountBits(count0, level0, c0);
    SelfStep(H, leaves, count0, level0, c0, h0);
    branch := branch0;
    if wantBranch {
      BranchSweepSelf(H, leaves, branchPos, level0, c0, h0, matchH, matchLevel, branch);
      if matchH {
        branch := branch + [h0];
      }
    }
    h := H(h0, h0);
    count := count0 + Pow2(level0);
    level, c := level0 + 1, (c0 + 1) / 2;
  }

  /** The final sweep over the rightmost branch of the tree. */
  method Sweep<T(==)>(H: (T, T) -> T, leaves: seq<T>, inner: array<T>, branchPos: nat,
                      wantBranch: bool, matchLevel: int, branchBefore: seq<T>)
    returns (root: T, branch: seq<T>)
    requires 0 < |leaves| <= 0x8000_0000
    requires InnerHolds(H, leaves, inner[..], |leaves|)
    requires if wantBranch then BranchHolds(H, leaves, branchPos, |leaves|, matchLevel, branchBefore) else branchBefore == []
    ensures root == Root(H, leaves)
    ensures branch == if wantBranch && branchPos < |leaves| then Branch(H, leaves, branchPos) else []
  {
    branch := branchBefore;
    var count: nat := |leaves|;
    var level: nat, c: nat := LowestSetBit(count);
    var h := inner[level];
    var matchH := matchLevel == level;
    CountBits(count, level, c);
    while count != Pow2(level)
      invariant Sweeping(H, leaves, count, level, c, h) && c % 2 == 1 && c - 1 <= Shr(|leaves|, level) <= c
      invariant if wantBranch then BranchSwept(H, leaves, branchPos, level, c, matchH, matchLevel, branch)
                                   && (matchH || matchLevel != level) else branch == []
      decreases c
    {
      count, level, c, h, branch := DoubleNode(H, leaves, branchPos, wantBranch, count, level, c, h, matchH, matchLevel, branch);
      level, c, h, matchH, branch :=
        SweepPairs(H, leaves, inner, branchPos, wantBranch, count, level, c, h, matchH, matchLevel, branch);
    }
    SweptToRoot(H, leaves, count, level, c, h);
    if wantBranch && branchPos < |leaves| {
      BranchComplete(H, leaves, branchPos, level, c, matchH, matchLevel, branch);
    }
    root := h;
  }

  /** One node is left on its level: it is the root. */
  lemma SweptToRoot<T>(H: (T, T) -> T, xs: seq<T>, count: nat, level: nat, c: nat, h: T)
    requires |xs| > 0 && Sweeping(H, xs, count, level, c, h) && count == Pow2(level)
    ensures c == 1 && h == Root(H, xs) && level == Depth(|xs|)
  {
    CountBits(count, level, c);
    RootIsTopLevel(H, xs);
  }

  lemma {:induction false} ShrVanishes(n: nat, level: nat, l: nat)
    requires level < l && Shr(n, level) <= 1
    ensures Shr(n, l) == 0
    decreases l
  {
    if level < l - 1 {
      ShrVanishes(n, level, l - 1);
    }
  }

  /** At the top the branch has been picked up: no set bit of the leaf count lies higher. */
  lemma BranchComplete<T>(H: (T, T) -> T, xs: seq<T>, p: nat, level: nat, c: nat, matchH: bool, matchLevel: int, branch: seq<T>)
    requires p < |xs| && Shr(|xs|, level) <= 1 && (matchH || matchLevel != level)
    requires BranchSwept(H, xs, p, level, c, matchH, matchLevel, branch)
    ensures branch == Siblings(H, xs, p, level)
  {
    if !matchH {
      ShrVanishes(|xs|, level, matchLevel);
    }
  }

  lemma UpperCountStep(n: nat, level: nat, c: nat)
    requires c % 2 == 1 && c - 1 <= Shr(n, level) <= c
    ensures Shr(n, level + 1) == (c + 1) / 2 - 1
    ensures c > 1 ==> (c + 1) / 2 < c
  {
  }

  /**
   * The whole calculation. `zero` stands for the null hash that an empty list yields; a
   * caller that wants no branch passes `wantBranch == false`.
   */
  method Compute<T(==)>(H: (T, T) -> T, zero: T, leaves: seq<T>, branchPos: nat, wantBranch: bool)
    returns (root: T, mutated: bool, branch: seq<T>)
    requires |leaves| <= 0x8000_0000
    ensures root == if |leaves| == 0 then zero else Root(H, leaves)
    ensures mutated <==> HasDuplicatedBlocks(H, leaves)
    ensures branch == if wantBranch && branchPos < |leaves| then Branch(H, leaves, branchPos) else []
  {
    DuplicatedBlocksIffEqualPairs(H, leaves);
    mutated, branch := false, [];
    if |leaves| == 0 {
      NothingWithinNothing(H, leaves);
      return zero, mutated, branch;
    }
    var inner := new T[32](_ => zero);
    var count, matchLevel := 0, -1;
    NothingWithinNothing(H, leaves);
    while count < |leaves|
      invariant count <= |leaves|
      invariant InnerHolds(H, leaves, inner[..], count)
      invariant mutated <==> DuplicatedWithin(H, leaves, count)
      invariant if wantBranch then BranchHolds(H, leaves, branchPos, count, matchLevel, branch) else branch == []
    {
      count := count + 1;
      mutated, matchLevel, branch :=
        AddLeaf(H, leaves, inner, count, branchPos, wantBranch, mutated, matchLevel, branch);
    }
    root, branch := Sweep(H, leaves, inner, branchPos, wantBranch, matchLevel, branch);
  }

  lemma NothingWithinNothing<T>(H: (T, T) -> T, xs: seq<T>)
    ensures !DuplicatedWithin(H, xs, 0)
    ensures forall l: nat :: !TestBit(0, l)
  {
    forall l: nat ensures Shr(0, l) == 0 {
      if l > 0 {
        ShrVanishes(0, 0, l);
      }
    }
  }

  method ComputeRoot<T(==)>(H: (T, T) -> T, zero: T, leaves: seq<T>) returns (root: T, mutated: bool)
    requires |leaves| <= 0x8000_0000
    ensures root == if |leaves| == 0 then zero else Root(H, leaves)
    ensures mutated <==> HasDuplicatedBlocks(H, leaves)
  {
    var branch;
    root, mutated, branch := Compute(H, zero, leaves, 0xFFFF_FFFF, false);
  }
}
