/** The active chain as a vector of nodes by height, and block locators. */
module BlockChain {
  import opened Bits
  import opened BlockTree

  // ----- the shape of a locator

  /** How far below the start entry `k` of a locator lies, if the chain is long enough. */
  function Offset(k: nat): nat {
    if k <= 10 then k else 9 + Pow2(k - 10)
  }

  /** The stride after entry `k`: ten single steps, then doubling. */
  function Stride(k: nat): nat {
    if k <= 10 then 1 else Pow2(k - 10)
  }

  function LocatorHeight(top: nat, k: nat): nat {
    if Offset(k) <= top then top - Offset(k) else 0
  }

  lemma OffsetStep(k: nat)
    ensures Offset(k + 1) == Offset(k) + Stride(k)
    ensures k >= 10 ==> Stride(k + 1) == 2 * Stride(k)
    ensures Stride(k) >= 1
  {
  }

  /** A locator from height `top` has entries up to the first that reaches height zero. */
  ghost predicate IsLocatorLength(top: nat, n: nat) {
    n >= 1 && Offset(n - 1) >= top && (n >= 2 ==> Offset(n - 2) < top)
  }

  lemma {:induction false} OffsetMonotone(j: nat, k: nat)
    requires j < k
    ensures Offset(j) < Offset(k)
  {
    OffsetStep(k - 1);
    if j < k - 1 {
      OffsetMonotone(j, k - 1);
    }
  }

  /** At most 12 entries more than the logarithm of the height: n - 12 < log2(top). */
  lemma LocatorIsShort(top: nat, n: nat)
    requires IsLocatorLength(top, n)
    ensures n <= 12 || Pow2(n - 12) < top
    ensures forall m :: IsLocatorLength(top, m) ==> m == n
  {
    forall m: nat | IsLocatorLength(top, m) ensures m == n {
      if n >= 2 {
        OffsetOrder(n - 2, m - 1);
      }
      if m >= 2 {
        OffsetOrder(m - 2, n - 1);
      }
    }
  }

  lemma OffsetOrder(j: nat, k: nat)
    ensures Offset(j) < Offset(k) <==> j < k
  {
    if j < k {
      OffsetMonotone(j, k);
    } else if k < j {
      OffsetMonotone(k, j);
    }
  }

  /** Heights strictly decrease, by strides that double from the eleventh entry on. */
  lemma LocatorDescends(top: nat, n: nat, k: nat)
    requires IsLocatorLength(top, n) && k + 1 < n
    ensures LocatorHeight(top, k + 1) < LocatorHeight(top, k) <= top
    ensures k + 2 < n ==> LocatorHeight(top, k) - LocatorHeight(top, k + 1) == Stride(k)
    ensures LocatorHeight(top, 0) == top && LocatorHeight(top, n - 1) == 0
  {
    OffsetStep(k);
    if k < n - 2 {
      OffsetMonotone(k, n - 2);
      if k + 1 < n - 2 {
        OffsetMonotone(k + 1, n - 2);
      }
    }
  }

  /** The first eleven entries follow each other; from there on each gap is twice the one before. */
  lemma {:induction false} LocatorGaps(top: nat, n: nat, k: nat)
    requires IsLocatorLength(top, n) && k + 2 < n
    ensures k <= 10 ==> LocatorHeight(top, k + 1) == LocatorHeight(top, k) - 1
    ensures k >= 10 && k + 3 < n ==>
              LocatorHeight(top, k + 1) - LocatorHeight(top, k + 2) == 2 * (LocatorHeight(top, k) - LocatorHeight(top, k + 1))
  {
    LocatorDescends(top, n, k);
    LocatorDescends(top, n, k + 1);
    OffsetStep(k);
  }

  /** A 32-bit `step` is wide enough for exactly the heights up to 2^30 + 9. */
  lemma StepFitsIff(top: nat)
    ensures (forall k: nat :: Offset(k) < top ==> Stride(k + 1) < 0x8000_0000) <==> top <= 0x4000_0009
  {
    Pow2Values();
    assert Pow2(30) == 0x4000_0000;
    assert Offset(40) == 0x4000_0009 && Stride(41) == 0x8000_0000;
    forall k: nat | Offset(k) < 0x4000_0009 ensures Stride(k + 1) < 0x8000_0000 {
      if k >= 40 {
        if k > 40 {
          OffsetMonotone(40, k);
        }
      } else if k >= 10 {
        assert k + 1 - 10 < 31;
        Pow2Monotone(k + 1 - 10, 31);
      }
    }
  }

  // ----- the chain

  class BlockChain {
    var blocks: seq<BlockIndex?>

    constructor ()
      ensures blocks == []
    {
      blocks := [];
    }

    /** Slot `i` is the tip's ancestor at height `i`. */
    ghost predicate Valid(t: Tree)
      requires t.WellFormed()
      reads this
    {
      blocks == [] ||
      var tip := blocks[|blocks| - 1];
      && tip != null && tip in t.height && t.height[tip] == |blocks| - 1
      && forall i: nat :: i < |blocks| ==> blocks[i] == t.AncestorAt(tip, i)
    }

    method GetHeight() returns (h: int)
      requires blocks != []
      ensures h == |blocks| - 1
    {
      return |blocks| - 1;
    }

    method GetTip() returns (tip: BlockIndex?)
      requires blocks != []
      ensures tip == blocks[|blocks| - 1]
    {
      return blocks[|blocks| - 1];
    }

    /** The tip's ancestor at that height; null above the tip and below zero. */
    method GetBlock(ghost t: Tree, height: int) returns (b: BlockIndex?)
      requires t.WellFormed() && Valid(t)
      ensures b == null <==> blocks == [] || height < 0 || height > t.height[blocks[|blocks| - 1]]
      ensures b != null ==> b in t.height && t.height[b] == height && t.IsAncestor(b, blocks[|blocks| - 1])
    {
      return if height < 0 || height >= |blocks| then null else blocks[height];
    }

    /** Whether `b` lies on the chain, that is, is an ancestor of the tip. */
    method Contains(ghost t: Tree, b: BlockIndex) returns (r: bool)
      requires t.WellFormed() && t.Holds() && Valid(t) && b in t.height
      ensures r <==> blocks != [] && t.IsAncestor(b, blocks[|blocks| - 1])
    {
      var slot := GetBlock(t, b.height);
      return slot == b;
    }

    /**
     * Make `block` the tip. Slots are rewritten from the tip down until one already holds the
     * right node; whatever the earlier chain was, the whole vector is then right.
     */
    method SetTip(ghost t: Tree, block: BlockIndex?)
      requires t.WellFormed() && t.Holds() && Valid(t) && (block != null ==> block in t.height)
      modifies this
      ensures Valid(t)
      ensures if block == null then blocks == [] else |blocks| == block.height + 1 && blocks[block.height] == block
    {
      if block == null {
        blocks := [];
        return;
      }
      ghost var before := blocks;
      var b: BlockIndex? := block;
      var size := b.height + 1;
      blocks := if size <= |blocks| then blocks[..size] else blocks + seq(size - |blocks|, _ => null);
      ghost var h: int := block.height;
      while b != null && blocks[b.height] != b
        invariant -1 <= h < |blocks| == size
        invariant b == WalkedTo(t, block, h)
        invariant forall i: nat :: h < i < size ==> blocks[i] == t.AncestorAt(block, i)
        invariant forall i: nat :: i <= h ==> blocks[i] == if i < |before| then before[i] else null
        decreases h
      {
        WalkStep(t, block, h);
        blocks := blocks[b.height := b];
        b := b.previous;
        h := h - 1;
      }
      if b != null {
        LowerSlotsAgree(t, before, block, h);
      }
    }

    /** The ancestor at a lower height, from the vector when the node is on the chain. */
    method StepBack(ghost t: Tree, block: BlockIndex, height: nat) returns (r: BlockIndex)
      requires t.WellFormed() && t.Holds() && t.SkipsCorrect() && Valid(t)
      requires block in t.height && height <= t.height[block]
      ensures r == t.AncestorAt(block, height)
    {
      var onChain := Contains(t, block);
      var found: BlockIndex?;
      if onChain {
        t.AncestorOfAncestor(blocks[|blocks| - 1], block.height, height);
        found := GetBlock(t, height);
      } else {
        ghost var steps;
        found, steps := block.GetAncestor(t, height);
      }
      r := found;
    }

    /**
     * The hashes of the locator that starts at `from`, or at the tip when there is none. An
     * empty chain has no tip to start from.
     */
    method GetLocator(ghost t: Tree, from: BlockIndex?) returns (have: seq<nat>)
      requires t.WellFormed() && t.Holds() && t.SkipsCorrect() && Valid(t)
      requires if from == null then blocks != [] else from in t.height
      requires (if from == null then |blocks| - 1 else from.height) <= 0x4000_0009
      ensures var start := if from == null then blocks[|blocks| - 1] else from;
              IsLocatorLength(t.height[start], |have|) && have == Locator(t, start, |have|)
    {
      var block := from;
      if block == null {
        block := GetTip();
      }
      have := LocatorFrom(t, block);
    }

    /** The loop: stepping back from `start`, by strides that double after ten entries. */
    method LocatorFrom(ghost t: Tree, start: BlockIndex) returns (have: seq<nat>)
      requires t.WellFormed() && t.Holds() && t.SkipsCorrect() && Valid(t)
      requires start in t.height && t.height[start] <= 0x4000_0009
      ensures IsLocatorLength(t.height[start], |have|) && have == Locator(t, start, |have|)
    {
      var step := 1;
      have := [];
      var block := start;
      while true
        invariant |have| <= t.height[start] && (|have| == 0 || Offset(|have| - 1) < t.height[start])
        invariant block == t.AncestorAt(start, LocatorHeight(t.height[start], |have|))
        invariant step == Stride(|have|) && have == Locator(t, start, |have|)
        decreases t.height[start] - |have|
      {
        NextEntry(t, start, block, |have|);
        have := have + [block.hash];
        if block.height == 0 {
          break;
        }
        var height := if block.height - step > 0 then block.height - step else 0;
        block := StepBack(t, block, height);
        if |have| > 10 {
          assert step * 2 < 0x8000_0000;
          step := step * 2;
        }
      }
    }
  }

  /** The first `n` entries of the locator that starts at `b`. */
  ghost function Locator(t: Tree, b: BlockIndex, n: nat): (have: seq<nat>)
    requires t.WellFormed() && b in t.height
    ensures |have| == n
  {
    if n == 0 then []
    else Locator(t, b, n - 1) + [t.AncestorAt(b, LocatorHeight(t.height[b], n - 1)).hash]
  }

  /** Entry `k` and what follows it. */
  lemma NextEntry(t: Tree, start: BlockIndex, block: BlockIndex, k: nat)
    requires t.WellFormed() && start in t.height && t.height[start] <= 0x4000_0009
    requires k == 0 || Offset(k - 1) < t.height[start]
    requires block == t.AncestorAt(start, LocatorHeight(t.height[start], k))
    ensures Locator(t, start, k + 1) == Locator(t, start, k) + [block.hash]
    ensures t.height[block] == 0 ==> IsLocatorLength(t.height[start], k + 1)
    ensures t.height[block] > 0 ==>
              var height := if t.height[block] - Stride(k) > 0 then t.height[block] - Stride(k) else 0;
              && height <= t.height[block] && k < t.height[start] && Offset(k) < t.height[start]
              && t.AncestorAt(block, height) == t.AncestorAt(start, LocatorHeight(t.height[start], k + 1))
              && Stride(k + 1) == (if k + 1 > 10 then 2 * Stride(k) else Stride(k))
              && Stride(k + 1) < 0x8000_0000
  {
    LocatorStep(t.height[start], k);
    if t.height[block] > 0 {
      t.AncestorOfAncestor(start, LocatorHeight(t.height[start], k), LocatorHeight(t.height[start], k + 1));
    }
  }

  lemma LocatorStep(top: nat, k: nat)
    requires top <= 0x4000_0009 && (k == 0 || Offset(k - 1) < top)
    ensures LocatorHeight(top, k) == 0 ==> IsLocatorLength(top, k + 1)
    ensures LocatorHeight(top, k) > 0 ==>
              && k <= Offset(k) < top
              && LocatorHeight(top, k + 1) == (if LocatorHeight(top, k) > Stride(k) then LocatorHeight(top, k) - Stride(k) else 0)
              && Stride(k + 1) == (if k + 1 > 10 then 2 * Stride(k) else Stride(k))
              && Stride(k + 1) < 0x8000_0000
  {
    OffsetStep(k);
    OffsetAtLeast(k);
    StepFitsIff(top);
  }

  lemma {:induction false} OffsetAtLeast(k: nat)
    ensures Offset(k) >= k
  {
    if k > 10 {
      OffsetAtLeast(k - 1);
      OffsetStep(k - 1);
    }
  }

  /** Once one slot of a valid chain agrees with a branch, all slots below do. */
  lemma LowerSlotsAgree(t: Tree, chain: seq<BlockIndex?>, b: BlockIndex, h: nat)
    requires t.WellFormed() && b in t.height && h <= t.height[b] && h < |chain|
    requires chain[|chain| - 1] != null && chain[|chain| - 1] in t.height && t.height[chain[|chain| - 1]] == |chain| - 1
    requires forall i: nat :: i < |chain| ==> chain[i] == t.AncestorAt(chain[|chain| - 1], i)
    requires chain[h] == t.AncestorAt(b, h)
    ensures forall i: nat :: i <= h ==> chain[i] == t.AncestorAt(b, i)
  {
    forall i: nat | i <= h ensures chain[i] == t.AncestorAt(b, i) {
      t.AncestorOfAncestor(b, h, i);
      t.AncestorOfAncestor(chain[|chain| - 1], h, i);
    }
  }
}
