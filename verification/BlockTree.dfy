/** Block index nodes linked by `previous` and `skip`, and their ancestors. */
module BlockTree {
  import opened Bits
  import opened Limbs
  import opened SkipHeights

  /**
   * The shape of the block tree as a value: each node's height, and the parent of each node
   * above height zero. The nodes on the heap are related to it by `Holds`.
   */
  datatype Tree = Tree(height: map<BlockIndex, nat>, parent: map<BlockIndex, BlockIndex>) {
    /** Every node but those of height zero has its parent, one lower, in the tree. */
    ghost predicate WellFormed() {
      && parent.Keys <= height.Keys
      && (forall b {:trigger b in parent} :: b in height && height[b] > 0 ==> b in parent)
      && (forall b {:trigger parent[b]} :: b in parent ==> height[b] > 0 && parent[b] in height && height[parent[b]] == height[b] - 1)
    }

    ghost predicate Holds()
      requires WellFormed()
      reads height.Keys`height, height.Keys`previous
    {
      forall b {:trigger b.height} {:trigger b.previous} :: b in height ==> b.height == height[b] && b.previous == if b in parent then parent[b] else null
    }

    /** Walking from `b` down to height `h`. */
    ghost function AncestorAt(b: BlockIndex, h: nat): (a: BlockIndex)
      requires WellFormed() && b in height && h <= height[b]
      ensures a in height && height[a] == h
      decreases height[b]
    {
      if height[b] == h then b else AncestorAt(parent[b], h)
    }

    ghost predicate IsAncestor(a: BlockIndex, b: BlockIndex)
      requires WellFormed() && b in height
    {
      a in height && height[a] <= height[b] && AncestorAt(b, height[a]) == a
    }

    lemma {:induction false} AncestorOfAncestor(b: BlockIndex, g: nat, h: nat)
      requires WellFormed() && b in height && h <= g <= height[b]
      ensures AncestorAt(AncestorAt(b, g), h) == AncestorAt(b, h)
      decreases height[b]
    {
      if g < height[b] {
        AncestorOfAncestor(parent[b], g, h);
      }
    }

    /** A skip pointer may be missing, but never wrong. */
    ghost predicate SkipsCorrect()
      requires WellFormed()
      reads height.Keys`skip
    {
      forall b {:trigger b.skip} :: b in height && b.skip != null ==>
        height[b] >= 1 && SkipHeight(height[b]) <= height[b] && b.skip == AncestorAt(b, SkipHeight(height[b]))
    }

    /** Every node with a parent has its skip pointer. */
    ghost predicate SkipsSet()
      requires WellFormed()
      reads height.Keys`skip
    {
      forall b {:trigger b.skip} :: b in parent ==> b.skip != null
    }

    /** Above height `h` the branches of `x` and `y` have no node in common. */
    ghost predicate DifferAbove(x: BlockIndex, y: BlockIndex, h: int)
      requires WellFormed() && x in height && y in height && h >= -1
    {
      forall g: nat :: h < g <= height[x] && g <= height[y] ==> AncestorAt(x, g) != AncestorAt(y, g)
    }

    /** `a` is a common ancestor of `x` and `y`, and above it their branches differ. */
    ghost predicate IsLastCommon(a: BlockIndex, x: BlockIndex, y: BlockIndex)
      requires WellFormed() && x in height && y in height
    {
      IsAncestor(a, x) && IsAncestor(a, y) && DifferAbove(x, y, height[a])
    }

    /** The tree with a new leaf `b` under `p`, or with a new root. */
    ghost function With(b: BlockIndex, p: BlockIndex?): (t: Tree)
      requires WellFormed() && b !in height && (p != null ==> p in height)
      ensures t.WellFormed() && b in t.height && t.height.Keys == height.Keys + {b}
    {
      if p == null then Tree(height[b := 0], parent) else Tree(height[b := height[p] + 1], parent[b := p])
    }

    lemma {:induction false} AncestorKept(b: BlockIndex, p: BlockIndex?, x: BlockIndex, h: nat)
      requires WellFormed() && b !in height && (p != null ==> p in height)
      requires x in height && h <= height[x]
      ensures h <= With(b, p).height[x] && With(b, p).AncestorAt(x, h) == AncestorAt(x, h)
      decreases height[x]
    {
      if h < height[x] {
        AncestorKept(b, p, parent[x], h);
      }
    }
  }

  class BlockIndex {
    const hash: nat
    const previousHash: nat
    const bits: uint32
    const timestamp: nat
    var height: int
    var chainWork: nat
    var maxTime: nat
    var previous: BlockIndex?
    var skip: BlockIndex?

    constructor (hash: nat, previousHash: nat, bits: uint32, timestamp: nat)
      ensures this.hash == hash && this.previousHash == previousHash && this.bits == bits && this.timestamp == timestamp
      ensures height == 0 && previous == null && skip == null
    {
      this.hash, this.previousHash, this.bits, this.timestamp := hash, previousHash, bits, timestamp;
      height, chainWork, maxTime, previous, skip := 0, 0, 0, null, null;
    }

    /**
     * Set the skip pointer of a node that is joining the tree, from its parent's pointers.
     */
    method BuildSkip(ghost t: Tree)
      requires t.WellFormed() && t.Holds() && t.SkipsCorrect() && this !in t.height
      requires previous != null ==> previous in t.height && height == previous.height + 1
      requires previous == null ==> skip == null
      modifies this`skip
      ensures t.With(this, previous).SkipsCorrect()
      ensures previous != null ==> skip != null
    {
      if previous != null {
        SkipHeightBelow(height);
        ghost var steps;
        skip, steps := previous.GetAncestor(t, SkipHeight(height));
        t.AncestorKept(this, previous, previous, SkipHeight(height));
      }
      forall b, h: nat | b in t.height && h <= t.height[b]
        ensures t.With(this, previous).AncestorAt(b, h) == t.AncestorAt(b, h)
      {
        t.AncestorKept(this, previous, b, h);
      }
    }

    /** The ancestor at `destHeight`, found along skip pointers; null when there is no such height. */
    method GetAncestor(ghost t: Tree, destHeight: int) returns (a: BlockIndex?, ghost steps: nat)
      requires t.WellFormed() && t.Holds() && t.SkipsCorrect() && this in t.height
      ensures a == if 0 <= destHeight <= height then t.AncestorAt(this, destHeight) else null
      ensures t.SkipsSet() && 0 <= destHeight <= height ==> steps == Steps(height, destHeight)
    {
      steps := 0;
      if destHeight > height || destHeight < 0 {
        return null, 0;
      }
      var walk: BlockIndex := this;
      var heightWalk := height;
      while heightWalk > destHeight
        invariant walk in t.height && t.height[walk] == heightWalk && destHeight <= heightWalk <= height
        invariant t.AncestorAt(walk, destHeight) == t.AncestorAt(this, destHeight)
        invariant t.SkipsSet() ==> steps + Steps(heightWalk, destHeight) == Steps(height, destHeight)
      {
        steps := steps + 1;
        var heightSkip := SkipHeight(heightWalk);
        var heightSkipPrev := SkipHeight(heightWalk - 1);
        SkipHeightBelow(heightWalk);
        if walk.skip != null &&
           (heightSkip == destHeight ||
            (heightSkip > destHeight && !(heightSkipPrev < heightSkip - 2 && heightSkipPrev >= destHeight))) {
          t.AncestorOfAncestor(walk, heightSkip, destHeight);
          walk := walk.skip;
          heightWalk := heightSkip;
        } else {
          walk := walk.previous;
          heightWalk := heightWalk - 1;
        }
      }
      a := walk;
    }
  }

  // ----- last common ancestor

  /** Walking down from `b`, one step past the root at height -1. */
  ghost function WalkedTo(t: Tree, b: BlockIndex, h: int): BlockIndex?
    requires t.WellFormed() && b in t.height && -1 <= h <= t.height[b]
  {
    if h == -1 then null else t.AncestorAt(b, h)
  }

  lemma WalkStep(t: Tree, b: BlockIndex, h: nat)
    requires t.WellFormed() && b in t.height && h <= t.height[b]
    ensures var a := t.AncestorAt(b, h);
            && WalkedTo(t, b, h - 1) == (if a in t.parent then t.parent[a] else null)
            && t.AncestorAt(a, 0) == t.AncestorAt(b, 0)
  {
    t.AncestorOfAncestor(b, h, 0);
    if h > 0 {
      t.AncestorOfAncestor(b, h, h - 1);
    }
  }

  lemma StillDiffer(t: Tree, x: BlockIndex, y: BlockIndex, h: nat)
    requires t.WellFormed() && x in t.height && y in t.height && h <= t.height[x] && h <= t.height[y]
    requires t.DifferAbove(x, y, h) && t.AncestorAt(x, h) != t.AncestorAt(y, h)
    ensures t.DifferAbove(x, y, h - 1)
  {
    forall g: nat | h - 1 < g <= t.height[x] && g <= t.height[y] ensures t.AncestorAt(x, g) != t.AncestorAt(y, g) {
      assert g == h || h < g;
    }
  }

  /** Null exactly when the two nodes stand on different roots. */
  method FindLastCommonAncestor(ghost t: Tree, x0: BlockIndex, y0: BlockIndex) returns (r: BlockIndex?)
    requires t.WellFormed() && t.Holds() && t.SkipsCorrect() && x0 in t.height && y0 in t.height
    ensures r == null <==> t.AncestorAt(x0, 0) != t.AncestorAt(y0, 0)
    ensures r != null ==> t.IsLastCommon(r, x0, y0)
  {
    var x: BlockIndex?, y: BlockIndex? := x0, y0;
    ghost var h: int := if x0.height > y0.height then y0.height else x0.height;
    ghost var steps;
    if x.height > y.height {
      x, steps := x.GetAncestor(t, y.height);
    } else if y.height > x.height {
      y, steps := y.GetAncestor(t, x.height);
    }
    while x != y && x != null && y != null
      invariant -1 <= h <= t.height[x0] && h <= t.height[y0]
      invariant x == WalkedTo(t, x0, h) && y == WalkedTo(t, y0, h)
      invariant t.DifferAbove(x0, y0, h)
      decreases h
    {
      WalkStep(t, x0, h);
      WalkStep(t, y0, h);
      StillDiffer(t, x0, y0, h);
      x, y, h := x.previous, y.previous, h - 1;
    }
    if h >= 0 {
      WalkStep(t, x0, h);
      WalkStep(t, y0, h);
    }
    r := x;
  }

  lemma LastCommonOfAncestor(t: Tree, a: BlockIndex, r: BlockIndex, b: BlockIndex)
    requires t.WellFormed() && a in t.height && b in t.height && t.IsAncestor(a, b) && t.IsLastCommon(r, a, b)
    ensures r == a
  {
    assert t.AncestorAt(a, t.height[a]) == a == t.AncestorAt(b, t.height[a]);
  }
}
