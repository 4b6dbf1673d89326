/** The Merkle tree as Bitcoin defines it: levels of pairs, an odd last node paired with itself. */
module MerkleSpec {
  import opened Bits

  function NextLevel<T>(H: (T, T) -> T, xs: seq<T>): (ys: seq<T>)
    ensures |ys| == (|xs| + 1) / 2
    decreases |xs|
  {
    if |xs| == 0 then []
    else if |xs| == 1 then [H(xs[0], xs[0])]
    else [H(xs[0], xs[1])] + NextLevel(H, xs[2..])
  }

  function Parent<T>(H: (T, T) -> T, xs: seq<T>, i: nat): T
    requires 2 * i < |xs|
  {
    H(xs[2 * i], if 2 * i + 1 < |xs| then xs[2 * i + 1] else xs[2 * i])
  }

  lemma {:induction false} NextLevelAt<T>(H: (T, T) -> T, xs: seq<T>, i: nat)
    requires 2 * i < |xs|
    ensures i < |NextLevel(H, xs)| && NextLevel(H, xs)[i] == Parent(H, xs, i)
    decreases i
  {
    if i > 0 {
      NextLevelAt(H, xs[2..], i - 1);
    }
  }

  function Root<T>(H: (T, T) -> T, xs: seq<T>): T
    requires |xs| > 0
    decreases |xs|
  {
    if |xs| == 1 then xs[0] else Root(H, NextLevel(H, xs))
  }

  /** How many levels lie above `n` leaves. */
  function Depth(n: nat): nat
    requires n > 0
  {
    if n == 1 then 0 else 1 + Depth((n + 1) / 2)
  }

  /** The nodes `l` levels above the leaves. */
  function Level<T>(H: (T, T) -> T, xs: seq<T>, l: nat): (ys: seq<T>)
    ensures |ys| == CeilShr(|xs|, l)
    decreases l
  {
    if l == 0 then xs else NextLevel(H, Level(H, xs, l - 1))
  }

  function PairedWith<T>(row: seq<T>, q: nat): T
    requires q < |row|
  {
    if q % 2 == 1 then row[q - 1] else if q + 1 < |row| then row[q + 1] else row[q]
  }

  /** What node number `p >> l` of level `l` is hashed with. */
  function Sibling<T>(H: (T, T) -> T, xs: seq<T>, l: nat, p: nat): T
    requires Shr(p, l) < CeilShr(|xs|, l)
  {
    PairedWith(Level(H, xs, l), Shr(p, l))
  }

  /** The siblings on the way from leaf `p` up to, but not including, level `l`. */
  function Siblings<T>(H: (T, T) -> T, xs: seq<T>, p: nat, l: nat): (b: seq<T>)
    requires p < |xs|
    ensures |b| == l
  {
    if l == 0 then [] else
      ShrBelow(p, |xs|, l - 1);
      Siblings(H, xs, p, l - 1) + [Sibling(H, xs, l - 1, p)]
  }

  function Branch<T>(H: (T, T) -> T, xs: seq<T>, p: nat): (b: seq<T>)
    requires p < |xs|
    ensures |b| == Depth(|xs|)
  {
    Siblings(H, xs, p, Depth(|xs|))
  }

  /** How a verifier uses a branch: bit `l` of `p` says on which side the step-`l` node stands. */
  function FoldBranch<T>(H: (T, T) -> T, leaf: T, branch: seq<T>, p: nat): T
    decreases |branch|
  {
    if branch == [] then leaf
    else FoldBranch(H, if p % 2 == 1 then H(branch[0], leaf) else H(leaf, branch[0]), branch[1..], p / 2)
  }

  predicate Collides<T(==)>(H: (T, T) -> T, a: T, b: T, c: T, d: T) {
    H(a, b) == H(c, d) && (a != c || b != d)
  }

  ghost predicate CollisionFree<T(!new)>(H: (T, T) -> T) {
    forall a, b, c, d :: !Collides(H, a, b, c, d)
  }

  /** Nodes `i` and `i + 1` of level `l` are siblings with equal hashes. */
  predicate EqualPair<T(==)>(H: (T, T) -> T, xs: seq<T>, l: nat, i: nat) {
    && i % 2 == 0
    && i + 1 < |Level(H, xs, l)|
    && Level(H, xs, l)[i] == Level(H, xs, l)[i + 1]
  }

  /** An equal pair of siblings whose blocks lie wholly among the first `count` leaves. */
  ghost predicate DuplicatedWithin<T>(H: (T, T) -> T, xs: seq<T>, count: nat) {
    exists l: nat, i: nat :: EqualPair(H, xs, l, i) && i + 2 <= Shr(count, l)
  }

  /**
   * The list itself holds two neighbouring blocks of 2^k leaves, the first at an even
   * block number, with the same Merkle root.
   */
  ghost predicate HasDuplicatedBlocks<T>(H: (T, T) -> T, xs: seq<T>) {
    exists k: nat, i: nat :: BlocksEqual(H, xs, k, i)
  }

  ghost predicate BlocksEqual<T>(H: (T, T) -> T, xs: seq<T>, k: nat, i: nat) {
    && i % 2 == 0
    && InList(|xs|, k, i) && InList(|xs|, k, i + 1)
    && Root(H, Block(xs, k, i)) == Root(H, Block(xs, k, i + 1))
  }

  predicate InList(n: nat, k: nat, i: nat) {
    (i + 1) * Pow2(k) <= n
  }

  function Block<T>(xs: seq<T>, k: nat, i: nat): (b: seq<T>)
    requires InList(|xs|, k, i)
    ensures |b| == Pow2(k)
  {
    assert (i + 1) * Pow2(k) == i * Pow2(k) + Pow2(k);
    xs[i * Pow2(k)..(i + 1) * Pow2(k)]
  }

  lemma {:induction false} ShrBelow(p: nat, n: nat, l: nat)
    requires p < n
    ensures Shr(p, l) < CeilShr(n, l)
  {
    if l > 0 {
      ShrBelow(p, n, l - 1);
    }
  }

  lemma {:induction false} LevelFirst<T>(H: (T, T) -> T, xs: seq<T>, l: nat)
    ensures Level(H, xs, l + 1) == Level(H, NextLevel(H, xs), l)
    decreases l
  {
    if l > 0 {
      LevelFirst(H, xs, l - 1);
    }
  }

  lemma {:induction false} RootIsTopLevel<T>(H: (T, T) -> T, xs: seq<T>)
    requires |xs| > 0
    ensures |Level(H, xs, Depth(|xs|))| == 1 && Level(H, xs, Depth(|xs|))[0] == Root(H, xs)
    decreases |xs|
  {
    if |xs| > 1 {
      LevelFirst(H, xs, Depth(|xs|) - 1);
      RootIsTopLevel(H, NextLevel(H, xs));
    }
  }

  // ----- the same tree from the top down

  /**
   * The root of a tree of depth `d`: the left half of its places filled first; what does not fill more
   * than half has a node that is paired with itself.
   */
  function TopDown<T>(H: (T, T) -> T, xs: seq<T>, d: nat): T
    requires 0 < |xs| <= Pow2(d)
  {
    if d == 0 then xs[0]
    else
      var half := Pow2(d - 1);
      if |xs| <= half then H(TopDown(H, xs, d - 1), TopDown(H, xs, d - 1))
      else H(TopDown(H, xs[..half], d - 1), TopDown(H, xs[half..], d - 1))
  }

  lemma {:induction false} NextLevelOfRest<T>(H: (T, T) -> T, xs: seq<T>, k: nat)
    requires 2 * k <= |xs|
    ensures NextLevel(H, xs)[k..] == NextLevel(H, xs[2 * k..])
    decreases k
  {
    if k > 0 {
      NextLevelOfRest(H, xs[2..], k - 1);
      assert xs[2..][2 * (k - 1)..] == xs[2 * k..];
      assert NextLevel(H, xs)[1..] == NextLevel(H, xs[2..]);
      assert NextLevel(H, xs)[1..][k - 1..] == NextLevel(H, xs)[k..];
    }
  }

  lemma HalvesOfPairs<T>(H: (T, T) -> T, xs: seq<T>, k: nat)
    requires 2 * k <= |xs|
    ensures k <= |NextLevel(H, xs)|
    ensures NextLevel(H, xs)[..k] == NextLevel(H, xs[..2 * k]) && NextLevel(H, xs)[k..] == NextLevel(H, xs[2 * k..])
  {
    NextLevelOfSlice(H, xs, 0, k);
    NextLevelOfRest(H, xs, k);
    assert xs[0..2 * k] == xs[..2 * k] && NextLevel(H, xs)[0..k] == NextLevel(H, xs)[..k];
  }

  lemma {:induction false} TopDownOfPairs<T>(H: (T, T) -> T, xs: seq<T>, d: nat)
    requires d > 0 && 0 < |xs| <= Pow2(d)
    ensures TopDown(H, NextLevel(H, xs), d - 1) == TopDown(H, xs, d)
    decreases d
  {
    if d == 1 {
      TwoLeaves(H, xs);
    } else if |xs| <= Pow2(d - 1) {
      TopDownOfPairs(H, xs, d - 1);
      PairsAlone(H, xs, d);
    } else {
      TopDownOfPairs(H, xs[..Pow2(d - 1)], d - 1);
      TopDownOfPairs(H, xs[Pow2(d - 1)..], d - 1);
      PairsOfHalves(H, xs, xs[..Pow2(d - 1)], xs[Pow2(d - 1)..], d);
    }
  }

  lemma {:induction false} PairsAlone<T>(H: (T, T) -> T, xs: seq<T>, d: nat)
    requires d > 1 && 0 < |xs| <= Pow2(d - 1)
    requires TopDown(H, NextLevel(H, xs), d - 2) == TopDown(H, xs, d - 1)
    ensures TopDown(H, NextLevel(H, xs), d - 1) == TopDown(H, xs, d)
  {
    HalfAlone(H, NextLevel(H, xs), d - 1);
    HalfAlone(H, xs, d);
  }

  lemma {:induction false} PairsOfHalves<T>(H: (T, T) -> T, xs: seq<T>, left: seq<T>, right: seq<T>, d: nat)
    requires d > 1 && Pow2(d - 1) < |xs| <= Pow2(d) && left == xs[..Pow2(d - 1)] && right == xs[Pow2(d - 1)..]
    requires TopDown(H, NextLevel(H, left), d - 2) == TopDown(H, left, d - 1)
    requires TopDown(H, NextLevel(H, right), d - 2) == TopDown(H, right, d - 1)
    ensures TopDown(H, NextLevel(H, xs), d - 1) == TopDown(H, xs, d)
  {
    HalvesOfPairs(H, xs, Pow2(d - 2));
    BothHalves(H, NextLevel(H, xs), NextLevel(H, left), NextLevel(H, right), d - 1);
    BothHalves(H, xs, left, right, d);
  }

  lemma HalfAlone<T>(H: (T, T) -> T, xs: seq<T>, d: nat)
    requires d > 0 && 0 < |xs| <= Pow2(d - 1)
    ensures TopDown(H, xs, d) == H(TopDown(H, xs, d - 1), TopDown(H, xs, d - 1))
  {
  }

  lemma BothHalves<T>(H: (T, T) -> T, xs: seq<T>, left: seq<T>, right: seq<T>, d: nat)
    requires d > 0 && Pow2(d - 1) < |xs| <= Pow2(d)
    requires left == xs[..Pow2(d - 1)] && right == xs[Pow2(d - 1)..]
    ensures TopDown(H, xs, d) == H(TopDown(H, left, d - 1), TopDown(H, right, d - 1))
  {
  }

  lemma TwoLeaves<T>(H: (T, T) -> T, xs: seq<T>)
    requires 0 < |xs| <= 2
    ensures Pow2(0) == 1 && Pow2(1) == 2 && TopDown(H, NextLevel(H, xs), 0) == TopDown(H, xs, 1)
  {
    if |xs| == 2 {
      assert xs[2..] == [] && NextLevel(H, xs)[0] == H(xs[0], xs[1]);
    }
  }

  /** Building level by level from the leaves gives the tree from the top down. */
  lemma {:induction false} RootIsTopDown<T>(H: (T, T) -> T, xs: seq<T>)
    requires |xs| > 0
    ensures |xs| <= Pow2(Depth(|xs|)) && (|xs| > 1 ==> Pow2(Depth(|xs|) - 1) < |xs|)
    ensures Root(H, xs) == TopDown(H, xs, Depth(|xs|))
    decreases |xs|
  {
    if |xs| > 1 {
      RootIsTopDown(H, NextLevel(H, xs));
      TopDownOfPairs(H, xs, Depth(|xs|));
    }
  }

  // ----- branches

  lemma SiblingFirst<T>(H: (T, T) -> T, xs: seq<T>, l: nat, p: nat)
    requires p < |xs|
    ensures Shr(p / 2, l) < CeilShr(|NextLevel(H, xs)|, l) && Shr(p, l + 1) < CeilShr(|xs|, l + 1)
    ensures Sibling(H, xs, l + 1, p) == Sibling(H, NextLevel(H, xs), l, p / 2)
  {
    ShrBelow(p, |xs|, l + 1);
    ShrFirst(p, l);
    LevelFirst(H, xs, l);
  }

  lemma {:induction false} SiblingsShift<T>(H: (T, T) -> T, xs: seq<T>, p: nat, l: nat)
    requires p < |xs|
    ensures Siblings(H, xs, p, l + 1) == [Sibling(H, xs, 0, p)] + Siblings(H, NextLevel(H, xs), p / 2, l)
  {
    if l > 0 {
      SiblingsShift(H, xs, p, l - 1);
      SiblingFirst(H, xs, l - 1, p);
    }
  }

  lemma ParentOfLeaf<T>(H: (T, T) -> T, xs: seq<T>, p: nat)
    requires p < |xs|
    ensures Shr(p, 0) < CeilShr(|xs|, 0) && p / 2 < |NextLevel(H, xs)|
    ensures NextLevel(H, xs)[p / 2] == if p % 2 == 1 then H(Sibling(H, xs, 0, p), xs[p]) else H(xs[p], Sibling(H, xs, 0, p))
  {
    var i := p / 2;
    assert p == 2 * i || p == 2 * i + 1;
    NextLevelAt(H, xs, i);
  }

  lemma BranchHead<T>(H: (T, T) -> T, xs: seq<T>, p: nat)
    requires 1 < |xs| && p < |xs|
    ensures Branch(H, xs, p) == [Sibling(H, xs, 0, p)] + Branch(H, NextLevel(H, xs), p / 2)
  {
    var row := NextLevel(H, xs);
    DepthAbove(|xs|, |row|);
    SiblingsShift(H, xs, p, Depth(|row|));
  }

  lemma DepthAbove(n: nat, above: nat)
    requires n > 1 && above == (n + 1) / 2
    ensures Depth(n) == Depth(above) + 1
  {
  }

  /** Completeness of a branch: folding it onto its leaf gives the root. */
  lemma {:induction false} BranchLeadsToRoot<T>(H: (T, T) -> T, xs: seq<T>, p: nat)
    requires p < |xs|
    ensures FoldBranch(H, xs[p], Branch(H, xs, p), p) == Root(H, xs)
    decreases |xs|
  {
    if |xs| > 1 {
      BranchHead(H, xs, p);
      ParentOfLeaf(H, xs, p);
      BranchLeadsToRoot(H, NextLevel(H, xs), p / 2);
      assert Branch(H, xs, p)[1..] == Branch(H, NextLevel(H, xs), p / 2);
    }
  }

  /** Soundness of a branch: under a collision-free pair hash nothing else folds to the root. */
  lemma {:induction false} BranchIsTheOnlyProof<T(!new)>(H: (T, T) -> T, xs: seq<T>, p: nat, leaf: T, branch: seq<T>)
    requires CollisionFree(H) && p < |xs| && |branch| == Depth(|xs|)
    requires FoldBranch(H, leaf, branch, p) == Root(H, xs)
    ensures leaf == xs[p] && branch == Branch(H, xs, p)
    decreases |xs|
  {
    if |xs| > 1 {
      var up := if p % 2 == 1 then H(branch[0], leaf) else H(leaf, branch[0]);
      BranchHead(H, xs, p);
      ParentOfLeaf(H, xs, p);
      BranchIsTheOnlyProof(H, NextLevel(H, xs), p / 2, up, branch[1..]);
      var sibling := Sibling(H, xs, 0, p);
      assert !Collides(H, branch[0], leaf, sibling, xs[p]) && !Collides(H, leaf, branch[0], xs[p], sibling);
      assert branch == [branch[0]] + branch[1..];
    }
  }

  // ----- complete blocks

  lemma SliceOfTail<T>(xs: seq<T>, k: nat, i: nat, j: nat)
    requires k <= i <= j <= |xs|
    ensures xs[k..][i - k..j - k] == xs[i..j]
  {
  }

  lemma {:induction false} NextLevelOfSlice<T>(H: (T, T) -> T, xs: seq<T>, from: nat, len: nat)
    requires 2 * (from + len) <= |xs|
    ensures from + len <= |NextLevel(H, xs)|
    ensures NextLevel(H, xs[2 * from..2 * (from + len)]) == NextLevel(H, xs)[from..from + len]
    decreases from, len
  {
    if from > 0 {
      NextLevelOfSlice(H, xs[2..], from - 1, len);
      SliceOfTail(xs, 2, 2 * from, 2 * (from + len));
      SliceOfTail(NextLevel(H, xs), 1, from, from + len);
    } else if len > 0 {
      NextLevelOfSlice(H, xs[2..], 0, len - 1);
      NextLevelOfFront(H, xs, len);
    }
  }

  lemma NextLevelOfFront<T>(H: (T, T) -> T, xs: seq<T>, len: nat)
    requires 0 < len && 2 * len <= |xs| && len <= |NextLevel(H, xs)|
    requires NextLevel(H, xs[2..][..2 * (len - 1)]) == NextLevel(H, xs[2..])[..len - 1]
    ensures NextLevel(H, xs[..2 * len]) == NextLevel(H, xs)[..len]
  {
    var slice, row := xs[..2 * len], NextLevel(H, xs);
    assert slice[2..] == xs[2..][..2 * (len - 1)];
    assert row[..len] == [row[0]] + row[1..][..len - 1];
  }

  lemma DoubleProduct(i: nat, p: nat)
    ensures i * (2 * p) == 2 * (i * p) && (i + 1) * p == i * p + p && (i + 1) * (2 * p) == 2 * (i * p + p)
  {
  }

  lemma BlockBounds(n: nat, k: nat, i: nat)
    requires InList(n, k + 1, i)
    ensures 2 * (i * Pow2(k) + Pow2(k)) <= n && i * Pow2(k + 1) == 2 * (i * Pow2(k))
    ensures InList((n + 1) / 2, k, i)
  {
    DoubleProduct(i, Pow2(k));
  }

  lemma NextLevelOfBlock<T>(H: (T, T) -> T, xs: seq<T>, k: nat, i: nat)
    requires InList(|xs|, k + 1, i)
    ensures InList(|NextLevel(H, xs)|, k, i)
    ensures NextLevel(H, Block(xs, k + 1, i)) == Block(NextLevel(H, xs), k, i)
  {
    var p, o := Pow2(k), i * Pow2(k);
    BlockBounds(|xs|, k, i);
    DoubleProduct(i, p);
    assert Block(xs, k + 1, i) == xs[2 * o..2 * (o + p)];
    NextLevelOfSlice(H, xs, o, p);
  }

  /** A node over a complete block is the Merkle root of that block alone. */
  lemma {:induction false} CompleteNodeIsBlockRoot<T>(H: (T, T) -> T, xs: seq<T>, k: nat, i: nat)
    requires InList(|xs|, k, i)
    ensures i < |Level(H, xs, k)| && Level(H, xs, k)[i] == Root(H, Block(xs, k, i))
    decreases k
  {
    if k > 0 {
      NextLevelOfBlock(H, xs, k - 1, i);
      LevelFirst(H, xs, k - 1);
      CompleteNodeIsBlockRoot(H, NextLevel(H, xs), k - 1, i);
    }
  }

  lemma CompleteIffShr(n: nat, k: nat, i: nat)
    ensures InList(n, k, i) <==> i + 1 <= Shr(n, k)
  {
    ShrBounds(n, k);
    if i + 1 <= Shr(n, k) {
      MulMonotone(i + 1, Shr(n, k), Pow2(k));
    } else {
      MulMonotone(Shr(n, k) + 1, i + 1, Pow2(k));
    }
  }

  lemma EqualPairIffBlocksEqual<T>(H: (T, T) -> T, xs: seq<T>, l: nat, i: nat)
    ensures EqualPair(H, xs, l, i) && i + 2 <= Shr(|xs|, l) <==> BlocksEqual(H, xs, l, i)
  {
    CompleteIffShr(|xs|, l, i);
    CompleteIffShr(|xs|, l, i + 1);
    if i + 2 <= Shr(|xs|, l) {
      CompleteNodeIsBlockRoot(H, xs, l, i);
      CompleteNodeIsBlockRoot(H, xs, l, i + 1);
    }
  }

  /** The two ways of saying that complete sibling blocks repeat agree. */
  lemma DuplicatedBlocksIffEqualPairs<T>(H: (T, T) -> T, xs: seq<T>)
    ensures DuplicatedWithin(H, xs, |xs|) <==> HasDuplicatedBlocks(H, xs)
  {
    forall l: nat, i: nat
      ensures EqualPair(H, xs, l, i) && i + 2 <= Shr(|xs|, l) <==> BlocksEqual(H, xs, l, i)
    {
      EqualPairIffBlocksEqual(H, xs, l, i);
    }
  }

  // ----- equal roots without repetition mean equal lists

  lemma EqualParents<T(!new)>(H: (T, T) -> T, row: seq<T>, i: nat, j: nat)
    requires CollisionFree(H) && 2 * i + 1 < |row| && j < |NextLevel(H, row)|
    requires NextLevel(H, row)[i] == NextLevel(H, row)[j]
    ensures if 2 * j + 1 < |row| then row[2 * i + 1] == row[2 * j + 1] else row[2 * i] == row[2 * i + 1]
  {
    NextLevelAt(H, row, i);
    NextLevelAt(H, row, j);
    assert !Collides(H, row[2 * i], row[2 * i + 1], row[2 * j], if 2 * j + 1 < |row| then row[2 * j + 1] else row[2 * j]);
  }

  lemma HalfBetween(s: nat, i: nat, j: nat)
    requires i + 1 <= s / 2 <= j
    ensures 2 * i + 2 <= s <= 2 * j + 1
    ensures (2 * i) % 2 == 0
  {
  }

  lemma EqualNodesBelow<T(!new)>(H: (T, T) -> T, xs: seq<T>, l: nat, i: nat, j: nat)
    requires CollisionFree(H) && i + 1 <= Shr(|xs|, l + 1) <= j < |Level(H, xs, l + 1)|
    requires Level(H, xs, l + 1)[i] == Level(H, xs, l + 1)[j]
    ensures 2 * i + 2 <= Shr(|xs|, l) <= 2 * j + 1
    ensures 2 * i + 2 <= |Level(H, xs, l)|
    ensures if 2 * j + 1 < |Level(H, xs, l)|
            then Level(H, xs, l)[2 * i + 1] == Level(H, xs, l)[2 * j + 1]
            else EqualPair(H, xs, l, 2 * i)
  {
    ShrMonotone(|xs|, |xs|, l);
    HalfBetween(Shr(|xs|, l), i, j);
    var row := Level(H, xs, l);
    EqualParents(H, row, i, j);
  }

  /** A node that is not complete can only equal a complete one if that one repeats inside. */
  lemma {:induction false} PartialTwinMeansDuplicate<T(!new)>(H: (T, T) -> T, xs: seq<T>, l: nat, i: nat, j: nat)
    requires CollisionFree(H)
    requires i + 1 <= Shr(|xs|, l) <= j < |Level(H, xs, l)|
    requires Level(H, xs, l)[i] == Level(H, xs, l)[j]
    ensures DuplicatedWithin(H, xs, |xs|)
    decreases l
  {
    if l > 0 {
      EqualNodesBelow(H, xs, l - 1, i, j);
      var a, b := 2 * i + 1, 2 * j + 1;
      if b < |Level(H, xs, l - 1)| {
        PartialTwinMeansDuplicate(H, xs, l - 1, a, b);
      }
    }
  }

  /** A last pair of equal nodes on any level means a repeated complete block somewhere. */
  lemma EqualLastPairMeansDuplicate<T(!new)>(H: (T, T) -> T, xs: seq<T>, l: nat, i: nat)
    requires CollisionFree(H) && EqualPair(H, xs, l, i)
    ensures DuplicatedWithin(H, xs, |xs|)
  {
    AllButLastComplete(|xs|, l);
    if i + 2 > Shr(|xs|, l) {
      PartialTwinMeansDuplicate(H, xs, l, i, i + 1);
    }
  }

  lemma {:induction false} AllButLastComplete(n: nat, l: nat)
    ensures CeilShr(n, l) <= Shr(n, l) + 1
  {
    if l > 0 {
      AllButLastComplete(n, l - 1);
    }
  }

  lemma {:induction false} EqualLevelsBelow<T(!new)>(H: (T, T) -> T, xs: seq<T>, ys: seq<T>, l: nat)
    requires CollisionFree(H)
    requires !DuplicatedWithin(H, xs, |xs|) && !DuplicatedWithin(H, ys, |ys|)
    requires Level(H, xs, l) == Level(H, ys, l)
    ensures xs == ys
    decreases l
  {
    if l > 0 {
      var a, b := Level(H, xs, l - 1), Level(H, ys, l - 1);
      if |a| < |b| {
        OddAgainstEven(H, a, b);
        EqualLastPairMeansDuplicate(H, ys, l - 1, |a| - 1);
      } else if |b| < |a| {
        OddAgainstEven(H, b, a);
        EqualLastPairMeansDuplicate(H, xs, l - 1, |b| - 1);
      } else {
        SameParentsSameChildren(H, a, b);
        EqualLevelsBelow(H, xs, ys, l - 1);
      }
    }
  }

  lemma {:induction false} OddAgainstEven<T(!new)>(H: (T, T) -> T, a: seq<T>, b: seq<T>)
    requires CollisionFree(H) && NextLevel(H, a) == NextLevel(H, b) && |a| < |b|
    ensures |b| == |a| + 1 && |a| % 2 == 1 && b[|a| - 1] == b[|a|]
    decreases |a|
  {
    assert |NextLevel(H, a)| == |NextLevel(H, b)|;
    if |a| == 1 {
      assert NextLevel(H, b)[0] == H(b[0], b[1]);
      assert !Collides(H, a[0], a[0], b[0], b[1]);
    } else {
      NextLevelTail(H, a, b);
      OddAgainstEven(H, a[2..], b[2..]);
    }
  }

  lemma NextLevelTail<T>(H: (T, T) -> T, a: seq<T>, b: seq<T>)
    requires NextLevel(H, a) == NextLevel(H, b) && |a| >= 2 && |b| >= 2
    ensures H(a[0], a[1]) == H(b[0], b[1]) && NextLevel(H, a[2..]) == NextLevel(H, b[2..])
  {
    var na, nb := NextLevel(H, a), NextLevel(H, b);
    assert na[0] == nb[0] && na[1..] == nb[1..];
    assert na[1..] == NextLevel(H, a[2..]) && nb[1..] == NextLevel(H, b[2..]);
  }

  lemma {:induction false} SameParentsSameChildren<T(!new)>(H: (T, T) -> T, a: seq<T>, b: seq<T>)
    requires CollisionFree(H) && NextLevel(H, a) == NextLevel(H, b) && |a| == |b|
    ensures a == b
    decreases |a|
  {
    if |a| == 1 {
      assert NextLevel(H, a)[0] == NextLevel(H, b)[0];
      assert !Collides(H, a[0], a[0], b[0], b[0]);
    } else if |a| >= 2 {
      NextLevelTail(H, a, b);
      assert !Collides(H, a[0], a[1], b[0], b[1]);
      SameParentsSameChildren(H, a[2..], b[2..]);
      assert a == a[..2] + a[2..] && b == b[..2] + b[2..];
    }
  }

  /**
   * The reason for the `mutated` flag: lists of the same depth with the same root, neither
   * of them repeating a complete block, are the same list.
   */
  lemma RootDeterminesLeaves<T(!new)>(H: (T, T) -> T, xs: seq<T>, ys: seq<T>)
    requires CollisionFree(H) && |xs| > 0 && |ys| > 0 && Depth(|xs|) == Depth(|ys|)
    requires Root(H, xs) == Root(H, ys)
    requires !HasDuplicatedBlocks(H, xs) && !HasDuplicatedBlocks(H, ys)
    ensures xs == ys
  {
    DuplicatedBlocksIffEqualPairs(H, xs);
    DuplicatedBlocksIffEqualPairs(H, ys);
    RootIsTopLevel(H, xs);
    RootIsTopLevel(H, ys);
    EqualLevelsBelow(H, xs, ys, Depth(|xs|));
  }

  // ----- what the flag is for

  lemma {:induction false} NextLevelOfOdd<T>(H: (T, T) -> T, xs: seq<T>)
    requires |xs| % 2 == 1
    ensures NextLevel(H, xs + [xs[|xs| - 1]]) == NextLevel(H, xs)
    decreases |xs|
  {
    var ys := xs + [xs[|xs| - 1]];
    if |xs| == 1 {
      assert ys[2..] == [];
    } else {
      assert ys[2..] == xs[2..] + [xs[|xs| - 1]];
      NextLevelOfOdd(H, xs[2..]);
    }
  }

  lemma NextLevelOfSum<T>(H: (T, T) -> T, xs: seq<T>, ys: seq<T>)
    requires |xs| % 2 == 0
    ensures NextLevel(H, xs + ys) == NextLevel(H, xs) + NextLevel(H, ys)
  {
    var k, row := |xs| / 2, NextLevel(H, xs + ys);
    HalvesOfPairs(H, xs + ys, k);
    assert (xs + ys)[..2 * k] == xs && (xs + ys)[2 * k..] == ys;
    assert row == row[..k] + row[k..];
  }

  lemma Offsets(at: nat, p: nat)
    ensures (at + 1) * p == at * p + p && (at + 2) * p == at * p + 2 * p && at * (2 * p) == 2 * (at * p)
    ensures at >= 2 ==> at * p >= 2 * p
  {
    if at >= 2 {
      MulMonotone(2, at, p);
    }
  }

  /** Repeating the last block of a list that has an odd number of them, more than one, keeps the root. */
  lemma {:induction false} RepeatingKeepsRoot<T>(H: (T, T) -> T, xs: seq<T>, k: nat, at: nat, o: nat)
    requires at >= 2 && at % 2 == 0 && o == at * Pow2(k) && |xs| == o + Pow2(k)
    ensures Root(H, xs + xs[o..]) == Root(H, xs)
    decreases k
  {
    Offsets(at, Pow2(k));
    RootIsAbove(H, xs);
    RootIsAbove(H, xs + xs[o..]);
    if k == 0 {
      assert xs[o..] == [xs[|xs| - 1]];
      NextLevelOfOdd(H, xs);
    } else {
      var half := at * Pow2(k - 1);
      Offsets(at, Pow2(k - 1));
      RepeatingKeepsRoot(H, NextLevel(H, xs), k - 1, at, half);
      PairsOfRepeated(H, xs, half, half + Pow2(k - 1));
    }
  }

  lemma RootIsAbove<T>(H: (T, T) -> T, xs: seq<T>)
    requires |xs| > 1
    ensures Root(H, xs) == Root(H, NextLevel(H, xs))
  {
  }

  lemma PairsOfRepeated<T>(H: (T, T) -> T, xs: seq<T>, half: nat, whole: nat)
    requires half <= whole && |xs| == 2 * whole
    ensures half <= |NextLevel(H, xs)|
    ensures NextLevel(H, xs + xs[2 * half..]) == NextLevel(H, xs) + NextLevel(H, xs)[half..]
  {
    NextLevelOfSum(H, xs, xs[2 * half..]);
    NextLevelOfRest(H, xs, half);
  }

  /** Such a list has the root of the shorter one, and it is flagged. */
  lemma RepeatedBlockIsFlagged<T>(H: (T, T) -> T, xs: seq<T>, k: nat, at: nat, o: nat)
    requires at >= 2 && at % 2 == 0 && o == at * Pow2(k) && |xs| == o + Pow2(k)
    ensures var ys := xs + xs[o..];
            Root(H, ys) == Root(H, xs) && ys != xs && HasDuplicatedBlocks(H, ys)
  {
    RepeatingKeepsRoot(H, xs, k, at, o);
    EqualNeighbours(H, xs + xs[o..], k, at, o, Pow2(k));
  }

  lemma EqualNeighbours<T>(H: (T, T) -> T, ys: seq<T>, k: nat, at: nat, o: nat, p: nat)
    requires at % 2 == 0 && p == Pow2(k) && o == at * p && |ys| == o + 2 * p && ys[o..o + p] == ys[o + p..]
    ensures HasDuplicatedBlocks(H, ys)
  {
    Offsets(at, p);
    assert ys[o + p..o + 2 * p] == ys[o + p..];
    var left, right := Block(ys, k, at), Block(ys, k, at + 1);
    assert left == right;
    assert BlocksEqual(H, ys, k, at);
  }
}
