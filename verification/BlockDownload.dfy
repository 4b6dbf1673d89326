/** What a node still has to download from a peer, and the batches it asks for. */
module BlockDownload {
  import opened BlockTree
  import opened BlockChain

  const BLOCK_DOWNLOAD_WINDOW: nat := 1024

  function Min(a: int, b: int): int {
    if a < b then a else b
  }

  function Max(a: int, b: int): int {
    if a < b then b else a
  }

  /** The height a batch reaches that starts above `from` on the way to `best`. */
  function NextHeight(from: nat, best: nat, count: int): nat
    requires from <= best
  {
    from + Min(Min(best, from + BLOCK_DOWNLOAD_WINDOW + 1) - from, Max(count, 128))
  }

  /** The ancestors of `b` above height `from` up to height `to`, lowest first. */
  ghost function Batch(t: Tree, b: BlockIndex, from: nat, upTo: nat): (s: seq<BlockIndex>)
    requires t.WellFormed() && b in t.height && from <= upTo <= t.height[b]
    ensures |s| == upTo - from
    decreases upTo
  {
    if from == upTo then [] else Batch(t, b, from, upTo - 1) + [t.AncestorAt(b, upTo)]
  }

  lemma {:induction false} BatchAt(t: Tree, b: BlockIndex, from: nat, upTo: nat)
    requires t.WellFormed() && b in t.height && from <= upTo <= t.height[b]
    ensures forall i {:trigger Batch(t, b, from, upTo)[i]} :: 0 <= i < upTo - from ==> Batch(t, b, from, upTo)[i] == t.AncestorAt(b, from + 1 + i)
    decreases upTo
  {
    if from < upTo {
      BatchAt(t, b, from, upTo - 1);
      forall i | 0 <= i < upTo - from ensures Batch(t, b, from, upTo)[i] == t.AncestorAt(b, from + 1 + i) {
        if i < upTo - from - 1 {
          assert Batch(t, b, from, upTo)[i] == Batch(t, b, from, upTo - 1)[i];
        }
      }
    }
  }

  class NodeSyncInfo {
    var bestKnownBlock: BlockIndex?
    var lastUnknownBlockHash: nat
    var lastCommonBlock: BlockIndex?
    var lastDownloadBlock: BlockIndex?
    /** The calls so far that asked for a batch. */
    ghost var asked: seq<Call>

    /** The calls so far are a run, and what is remembered is where it has got to. */
    ghost predicate Remembers(t: Tree)
      requires t.WellFormed()
      reads this`asked, this`lastCommonBlock
    {
      IsRun(t, asked) && (asked != [] ==> lastCommonBlock == asked[|asked| - 1].after)
    }

    ghost predicate Knows(t: Tree)
      reads this`bestKnownBlock, this`lastCommonBlock
    {
      && (bestKnownBlock != null ==> bestKnownBlock in t.height)
      && (lastCommonBlock != null ==> lastCommonBlock in t.height)
    }

    /** The batch right above the last common block of `start` and the best block was asked for, and noted. */
    ghost predicate Asked(t: Tree, start: BlockIndex?, count: int, blocks: seq<BlockIndex>, earlier: seq<Call>)
      requires t.WellFormed()
      reads this`bestKnownBlock, this`lastCommonBlock, this`asked
    {
      && start != null && bestKnownBlock != null && lastCommonBlock != null
      && asked == earlier + [Call(start, bestKnownBlock, count, blocks, lastCommonBlock)]
      && IsNextBatch(t, start, bestKnownBlock, count, blocks, lastCommonBlock)
    }

    constructor ()
      ensures bestKnownBlock == null && lastCommonBlock == null && lastDownloadBlock == null && lastUnknownBlockHash == 0
      ensures asked == []
    {
      bestKnownBlock, lastUnknownBlockHash, lastCommonBlock, lastDownloadBlock, asked := null, 0, null, null, [];
    }

    /** A block announced before its header was known may be known by now; `index` is the block index. */
    method ProcessBlockAvailability(index: map<nat, BlockIndex>)
      modifies this`bestKnownBlock, this`lastUnknownBlockHash
      ensures var known := Lookup(old(lastUnknownBlockHash), index);
              && bestKnownBlock == BetterOf(old(bestKnownBlock), known)
              && NotWorse(bestKnownBlock, old(bestKnownBlock), known)
              && lastUnknownBlockHash == if known != null && known.chainWork > 0 then 0 else old(lastUnknownBlockHash)
    {
      if lastUnknownBlockHash == 0 {
        return;
      }
      if lastUnknownBlockHash in index {
        var block := index[lastUnknownBlockHash];
        if block.chainWork > 0 {
          if bestKnownBlock == null || block.chainWork >= bestKnownBlock.chainWork {
            bestKnownBlock := block;
          }
          lastUnknownBlockHash := 0;
        }
      }
    }

    /** The peer announced `hash`; `block` is its node if the header is known. */
    method UpdateBlockAvailability(hash: nat, block: BlockIndex?, index: map<nat, BlockIndex>)
      modifies this`bestKnownBlock, this`lastUnknownBlockHash
      ensures var known := Lookup(old(lastUnknownBlockHash), index);
              && bestKnownBlock == BetterOf(BetterOf(old(bestKnownBlock), known), block)
              && bestKnownBlock in {old(bestKnownBlock), known, block}
              && NotWorse(bestKnownBlock, old(bestKnownBlock), known) && NotWorse(bestKnownBlock, null, block)
              && lastUnknownBlockHash == (if block == null || block.chainWork == 0 then hash
                                          else if known != null && known.chainWork > 0 then 0
                                          else old(lastUnknownBlockHash))
    {
      ProcessBlockAvailability(index);
      if block != null && block.chainWork > 0 {
        if bestKnownBlock == null || block.chainWork >= bestKnownBlock.chainWork {
          bestKnownBlock := block;
        }
      } else {
        lastUnknownBlockHash := hash;
      }
    }

    /**
     * The next batch to ask for: the ancestors of the peer's best block right above the last
     * common block, at most max(count, 128) of them and at most 1025 heights up.
     */
    method FindBlocksToDownload(ghost t: Tree, count: int, index: map<nat, BlockIndex>, chain: BlockChain, minimumChainWork: nat)
      returns (blocks: seq<BlockIndex>)
      requires t.WellFormed() && t.Holds() && t.SkipsCorrect() && Knows(t) && Remembers(t) && index.Values <= t.height.Keys
      requires chain.Valid(t) && chain.blocks != [] && SingleRoot(t)
      modifies this
      ensures Knows(t) && Remembers(t)
      ensures bestKnownBlock == BetterOf(old(bestKnownBlock), Lookup(old(lastUnknownBlockHash), index))
      ensures if && bestKnownBlock != null && bestKnownBlock.chainWork >= chain.blocks[|chain.blocks| - 1].chainWork
                 && bestKnownBlock.chainWork >= minimumChainWork
              then Asked(t, StartOf(t, old(lastCommonBlock), bestKnownBlock, chain.blocks), count, blocks, old(asked))
              else blocks == [] && lastCommonBlock == old(lastCommonBlock) && asked == old(asked)
      ensures lastDownloadBlock == if blocks == [] then old(lastDownloadBlock) else blocks[|blocks| - 1]
    {
      var wanted := IsWanted(t, index, chain, minimumChainWork);
      blocks := BatchIf(t, wanted, count, chain);
    }

    /** Nothing changes for a peer that is not worth asking. */
    method BatchIf(ghost t: Tree, wanted: bool, count: int, chain: BlockChain) returns (blocks: seq<BlockIndex>)
      requires t.WellFormed() && t.Holds() && t.SkipsCorrect() && Knows(t) && Remembers(t) && (wanted ==> bestKnownBlock != null)
      requires chain.Valid(t) && chain.blocks != [] && SingleRoot(t)
      modifies this`lastCommonBlock, this`lastDownloadBlock, this`asked
      ensures Knows(t) && Remembers(t)
      ensures if wanted then Asked(t, StartOf(t, old(lastCommonBlock), bestKnownBlock, chain.blocks), count, blocks, old(asked))
              else blocks == [] && lastCommonBlock == old(lastCommonBlock) && asked == old(asked)
      ensures lastDownloadBlock == if blocks == [] then old(lastDownloadBlock) else blocks[|blocks| - 1]
    {
      blocks := [];
      if wanted {
        blocks := NextBatch(t, count, chain);
      }
    }

    /** Whether the peer, with what it has announced, is worth asking now. */
    method IsWanted(ghost t: Tree, index: map<nat, BlockIndex>, chain: BlockChain, minimumChainWork: nat) returns (wanted: bool)
      requires t.WellFormed() && Knows(t) && index.Values <= t.height.Keys && chain.Valid(t) && chain.blocks != []
      modifies this`bestKnownBlock, this`lastUnknownBlockHash
      ensures Knows(t) && bestKnownBlock == BetterOf(old(bestKnownBlock), Lookup(old(lastUnknownBlockHash), index))
      ensures wanted <==> && bestKnownBlock != null && bestKnownBlock.chainWork >= chain.blocks[|chain.blocks| - 1].chainWork
                          && bestKnownBlock.chainWork >= minimumChainWork
    {
      ProcessBlockAvailability(index);
      var tip := chain.GetTip();
      return !(bestKnownBlock == null || bestKnownBlock.chainWork < tip.chainWork || bestKnownBlock.chainWork < minimumChainWork);
    }

    /** The batch, once the peer is worth asking. */
    method NextBatch(ghost t: Tree, count: int, chain: BlockChain) returns (blocks: seq<BlockIndex>)
      requires t.WellFormed() && t.Holds() && t.SkipsCorrect() && Knows(t) && Remembers(t) && bestKnownBlock != null
      requires chain.Valid(t) && chain.blocks != [] && SingleRoot(t)
      modifies this`lastCommonBlock, this`lastDownloadBlock, this`asked
      ensures Knows(t) && Remembers(t)
      ensures Asked(t, StartOf(t, old(lastCommonBlock), bestKnownBlock, chain.blocks), count, blocks, old(asked))
      ensures lastDownloadBlock == if blocks == [] then old(lastDownloadBlock) else blocks[|blocks| - 1]
    {
      GuessCommon(t, chain);
      ghost var start := lastCommonBlock;
      blocks := BatchAbove(t, count);
      Remember(t, start, count, blocks);
    }

    /** The call that has just ended joins the run. */
    ghost method Remember(t: Tree, start: BlockIndex, count: int, blocks: seq<BlockIndex>)
      requires t.WellFormed() && bestKnownBlock != null && lastCommonBlock != null
      requires IsRun(t, asked) && (asked != [] ==> start == asked[|asked| - 1].after)
      requires IsNextBatch(t, start, bestKnownBlock, count, blocks, lastCommonBlock)
      modifies this`asked
      ensures Remembers(t) && asked == old(asked) + [Call(start, bestKnownBlock, count, blocks, lastCommonBlock)]
    {
      asked := asked + [Call(start, bestKnownBlock, count, blocks, lastCommonBlock)];
      assert asked[..|asked| - 1] == old(asked);
    }

    /** Without a last common block, start from the chain's block at the height of the peer's best. */
    method GuessCommon(ghost t: Tree, chain: BlockChain)
      requires t.WellFormed() && t.Holds() && Knows(t) && bestKnownBlock != null
      requires chain.Valid(t) && chain.blocks != []
      modifies this`lastCommonBlock
      ensures Knows(t) && lastCommonBlock != null
      ensures lastCommonBlock == StartOf(t, old(lastCommonBlock), bestKnownBlock, chain.blocks)
    {
      if lastCommonBlock == null {
        var height := chain.GetHeight();
        lastCommonBlock := chain.GetBlock(t, Min(bestKnownBlock.height, height));
      }
    }

    /** From a guess at the last common block to the real one, and to the batch above it. */
    method BatchAbove(ghost t: Tree, count: int) returns (blocks: seq<BlockIndex>)
      requires t.WellFormed() && t.Holds() && t.SkipsCorrect() && Knows(t) && SingleRoot(t)
      requires bestKnownBlock != null && lastCommonBlock != null
      modifies this`lastCommonBlock, this`lastDownloadBlock
      ensures Knows(t) && lastCommonBlock != null
      ensures IsNextBatch(t, old(lastCommonBlock), bestKnownBlock, count, blocks, lastCommonBlock)
      ensures lastDownloadBlock == if blocks == [] then old(lastDownloadBlock) else blocks[|blocks| - 1]
    {
      lastCommonBlock := FindLastCommonAncestor(t, lastCommonBlock, bestKnownBlock);
      if lastCommonBlock == bestKnownBlock {
        return [];
      }
      blocks := TakeBatch(t, count);
    }

    /** The second half: cut the batch out and remember where it ends. */
    method TakeBatch(ghost t: Tree, count: int) returns (blocks: seq<BlockIndex>)
      requires t.WellFormed() && t.Holds() && t.SkipsCorrect() && Knows(t)
      requires bestKnownBlock != null && lastCommonBlock != null && bestKnownBlock != lastCommonBlock
      requires t.IsAncestor(lastCommonBlock, bestKnownBlock)
      modifies this`lastCommonBlock, this`lastDownloadBlock
      ensures var from, upTo := old(t.height[lastCommonBlock]), NextHeight(old(t.height[lastCommonBlock]), t.height[bestKnownBlock], count);
              && blocks == Batch(t, bestKnownBlock, from, upTo) != []
              && lastCommonBlock == lastDownloadBlock == t.AncestorAt(bestKnownBlock, upTo) == blocks[|blocks| - 1]
    {
      var windowEnd := lastCommonBlock.height + BLOCK_DOWNLOAD_WINDOW;
      var maxHeight := Min(bestKnownBlock.height, windowEnd + 1);
      var realCount := Min(maxHeight - lastCommonBlock.height, Max(count, 128));
      ghost var from := t.height[lastCommonBlock];
      assert 0 < realCount == NextHeight(from, t.height[bestKnownBlock], count) - from;
      var block, _ := bestKnownBlock.GetAncestor(t, lastCommonBlock.height + realCount);
      lastDownloadBlock := block;
      lastCommonBlock := block;
      blocks := FillBackwards(t, bestKnownBlock, block, from, realCount);
    }
  }

  /** Where the search for the last common block starts: where the last one ended, else on the chain. */
  ghost function StartOf(t: Tree, common: BlockIndex?, best: BlockIndex?, chain: seq<BlockIndex?>): BlockIndex? {
    if common != null || best == null || best !in t.height || chain == [] then common
    else chain[Min(t.height[best], |chain| - 1)]
  }

  /** The node a remembered announcement refers to, if it is known by now. */
  function Lookup(hash: nat, index: map<nat, BlockIndex>): (b: BlockIndex?)
    ensures b != null <==> hash != 0 && hash in index
    ensures b != null ==> b == index[hash]
  {
    if hash != 0 && hash in index then index[hash] else null
  }

  /** A block with work replaces a best block that has no more. */
  function BetterOf(best: BlockIndex?, block: BlockIndex?): BlockIndex?
    reads best, block
  {
    if block != null && block.chainWork > 0 && (best == null || block.chainWork >= best.chainWork) then block else best
  }

  /** `best` has no less work than `earlier`, nor than `block` if that is known with work. */
  ghost predicate NotWorse(best: BlockIndex?, earlier: BlockIndex?, block: BlockIndex?)
    reads best, earlier, block
  {
    && (earlier != null ==> best != null && best.chainWork >= earlier.chainWork)
    && (block != null && block.chainWork > 0 ==> best != null && best.chainWork >= block.chainWork)
  }

  /** Of two blocks the one with more work is taken, of equals the later. */
  lemma BetterOfTwo(best: BlockIndex?, block: BlockIndex?)
    ensures BetterOf(best, block) in {best, block} && NotWorse(BetterOf(best, block), best, block)
    ensures best != null && block != null && block.chainWork > 0 ==>
              (block.chainWork > best.chainWork ==> BetterOf(best, block) == block)
              && (block.chainWork == best.chainWork ==> BetterOf(best, block) == block)
              && (block.chainWork < best.chainWork ==> BetterOf(best, block) == best)
    ensures block == null || block.chainWork == 0 ==> BetterOf(best, block) == best
  {
  }

  ghost predicate SingleRoot(t: Tree) {
    forall a, b {:trigger t.height[a], t.height[b]} :: a in t.height && b in t.height && t.height[a] == t.height[b] == 0 ==> a == b
  }

  /** `blocks` is the batch right above the last common ancestor of `common` and `best`, and `next` where it ends. */
  ghost predicate IsNextBatch(t: Tree, common: BlockIndex?, best: BlockIndex, count: int, blocks: seq<BlockIndex>, next: BlockIndex?)
    requires t.WellFormed()
  {
    && common != null && common in t.height && best in t.height
    && exists a :: a in t.height && t.IsLastCommon(a, common, best)
        && var upTo := NextHeight(t.height[a], t.height[best], count);
           blocks == Batch(t, best, t.height[a], upTo) && next == t.AncestorAt(best, upTo)
  }

  /** The loop that fills the batch from its last block down. */
  method FillBackwards(ghost t: Tree, ghost best: BlockIndex, last: BlockIndex, ghost from: nat, realCount: nat)
    returns (blocks: seq<BlockIndex>)
    requires t.WellFormed() && t.Holds() && best in t.height
    requires realCount > 0 && from + realCount <= t.height[best] && last == t.AncestorAt(best, from + realCount)
    ensures blocks == Batch(t, best, from, from + realCount) && blocks != [] && blocks[|blocks| - 1] == last
  {
    ghost var upTo := from + realCount;
    BatchAt(t, best, from, upTo);
    blocks := seq(realCount, _ => last);
    var i := realCount - 1;
    while i > 0
      invariant 0 <= i < realCount == |blocks|
      invariant forall j {:trigger blocks[j]} :: i <= j < realCount ==> blocks[j] == Batch(t, best, from, upTo)[j]
    {
      WalkStep(t, best, from + 1 + i);
      assert blocks[i] == Batch(t, best, from, upTo)[i] == t.AncestorAt(best, from + 1 + i);
      assert Batch(t, best, from, upTo)[i - 1] == t.AncestorAt(best, from + i);
      blocks := blocks[i - 1 := blocks[i].previous];
      i := i - 1;
    }
  }

  // ----- successive batches

  /** Every batch makes progress until the best block is reached. */
  lemma BatchProgress(from: nat, best: nat, count: int)
    requires from <= best
    ensures from <= NextHeight(from, best, count) <= best
    ensures NextHeight(from, best, count) >= Min(best, from + 128)
    ensures NextHeight(from, best, count) - from <= Min(BLOCK_DOWNLOAD_WINDOW + 1, Max(count, 128))
    ensures var n := NextHeight(from, best, count) - from;
            && n <= 1025 && (n <= 128 || n <= count)
            && (from + n == best || n == 1025 || (n == 128 && count <= 128) || n == count > 128)
  {
  }

  lemma {:induction false} BatchKept(t: Tree, a: BlockIndex, b: BlockIndex, from: nat, upTo: nat)
    requires t.WellFormed() && a in t.height && b in t.height && t.IsAncestor(a, b) && from <= upTo <= t.height[a]
    ensures Batch(t, a, from, upTo) == Batch(t, b, from, upTo)
    decreases upTo
  {
    if from < upTo {
      BatchKept(t, a, b, from, upTo - 1);
      t.AncestorOfAncestor(b, t.height[a], upTo);
    }
  }

  lemma {:induction false} BatchesJoin(t: Tree, b: BlockIndex, from: nat, mid: nat, upTo: nat)
    requires t.WellFormed() && b in t.height && from <= mid <= upTo <= t.height[b]
    ensures Batch(t, b, from, mid) + Batch(t, b, mid, upTo) == Batch(t, b, from, upTo)
    decreases upTo
  {
    if mid < upTo {
      BatchesJoin(t, b, from, mid, upTo - 1);
    }
  }

  /**
   * When the last common block still lies on the best block's branch, the batch continues
   * right above it, and what is remembered lies on that branch again.
   */
  lemma NextBatchContinues(t: Tree, common: BlockIndex, best: BlockIndex, count: int, blocks: seq<BlockIndex>, next: BlockIndex?)
    requires t.WellFormed() && best in t.height && t.IsAncestor(common, best)
    requires IsNextBatch(t, common, best, count, blocks, next)
    ensures blocks == Batch(t, best, t.height[common], NextHeight(t.height[common], t.height[best], count))
    ensures next != null && t.IsAncestor(next, best) && t.height[next] == NextHeight(t.height[common], t.height[best], count)
  {
    var a :| a in t.height && t.IsLastCommon(a, common, best)
        && var upTo := NextHeight(t.height[a], t.height[best], count);
           blocks == Batch(t, best, t.height[a], upTo) && next == t.AncestorAt(best, upTo);
    LastCommonOfAncestor(t, common, a, best);
  }

  /** An ancestor of the tip that is as high as the tip or the best block meets the best block where the tip does. */
  lemma GuessIsNoMatter(t: Tree, tip: BlockIndex, best: BlockIndex, h: nat, a: BlockIndex)
    requires t.WellFormed() && tip in t.height && best in t.height
    requires h <= t.height[tip] && (h == t.height[tip] || h >= t.height[best])
    requires t.IsLastCommon(a, t.AncestorAt(tip, h), best)
    ensures t.IsLastCommon(a, tip, best)
  {
    t.AncestorOfAncestor(tip, h, t.height[a]);
    forall g: nat | t.height[a] < g <= t.height[tip] && g <= t.height[best] ensures t.AncestorAt(tip, g) != t.AncestorAt(best, g) {
      t.AncestorOfAncestor(tip, h, g);
    }
  }

  /** Above the last common ancestor no ancestor of one block is an ancestor of the other. */
  lemma BatchIsOffBranch(t: Tree, a: BlockIndex, tip: BlockIndex, best: BlockIndex, upTo: nat)
    requires t.WellFormed() && tip in t.height && best in t.height && t.IsLastCommon(a, tip, best)
    requires t.height[a] <= upTo <= t.height[best]
    ensures forall b :: b in Batch(t, best, t.height[a], upTo) ==> b in t.height && !t.IsAncestor(b, tip)
  {
    var blocks := Batch(t, best, t.height[a], upTo);
    BatchAt(t, best, t.height[a], upTo);
    forall b | b in blocks ensures b in t.height && !t.IsAncestor(b, tip) {
      var i :| 0 <= i < |blocks| && blocks[i] == b;
      assert b == t.AncestorAt(best, t.height[a] + 1 + i);
    }
  }

  /**
   * Without a last common block, the first batch starts right above the last common ancestor of the tip
   * and the best block, wherever on the chain the guess was; so nothing on the chain is asked for.
   */
  lemma FirstBatch(t: Tree, chain: seq<BlockIndex?>, tip: BlockIndex, best: BlockIndex, count: int, blocks: seq<BlockIndex>, next: BlockIndex?)
    returns (a: BlockIndex)
    requires t.WellFormed() && tip in t.height && best in t.height && |chain| == t.height[tip] + 1
    requires forall i: nat :: i < |chain| ==> chain[i] == t.AncestorAt(tip, i)
    requires IsNextBatch(t, StartOf(t, null, best, chain), best, count, blocks, next)
    ensures t.IsLastCommon(a, tip, best) && blocks == Batch(t, best, t.height[a], NextHeight(t.height[a], t.height[best], count))
    ensures forall b :: b in blocks ==> b in t.height && !t.IsAncestor(b, tip)
  {
    var start := StartOf(t, null, best, chain);
    a :| a in t.height && t.IsLastCommon(a, start, best)
      && var upTo := NextHeight(t.height[a], t.height[best], count);
         blocks == Batch(t, best, t.height[a], upTo) && next == t.AncestorAt(best, upTo);
    GuessIsNoMatter(t, tip, best, t.height[start], a);
    BatchProgress(t.height[a], t.height[best], count);
    BatchIsOffBranch(t, a, tip, best, NextHeight(t.height[a], t.height[best], count));
  }

  // ----- runs of calls

  /** A call that asked for a batch: where it started, what it asked for, and what it left to start from. */
  datatype Call = Call(before: BlockIndex, best: BlockIndex, count: int, blocks: seq<BlockIndex>, after: BlockIndex)

  /** Each call keeps its contract and starts where the one before ended; calls that ask for nothing lie unseen between. */
  ghost predicate IsRun(t: Tree, calls: seq<Call>)
    requires t.WellFormed()
    decreases |calls|
  {
    calls == [] || (
      var earlier, c := calls[..|calls| - 1], calls[|calls| - 1];
      && IsRun(t, earlier) && IsNextBatch(t, c.before, c.best, c.count, c.blocks, c.after)
      && (earlier != [] ==> c.before == earlier[|earlier| - 1].after)
    )
  }

  /** The best block only extends: each is an ancestor of the next. */
  ghost predicate Extending(t: Tree, calls: seq<Call>)
    requires t.WellFormed()
    decreases |calls|
  {
    |calls| <= 1 || (
      var earlier, c := calls[..|calls| - 1], calls[|calls| - 1];
      Extending(t, earlier) && c.best in t.height && t.IsAncestor(earlier[|earlier| - 1].best, c.best)
    )
  }

  /** Everything the calls asked for, in order. */
  function Requested(calls: seq<Call>): seq<BlockIndex>
    decreases |calls|
  {
    if calls == [] then [] else Requested(calls[..|calls| - 1]) + calls[|calls| - 1].blocks
  }

  /** What a run has asked for since it left `a`, and how far it has got. */
  ghost predicate Covers(t: Tree, calls: seq<Call>, a: BlockIndex)
    requires t.WellFormed() && calls != []
  {
    var first, last := calls[0], calls[|calls| - 1];
    && a in t.height && last.best in t.height && first.best in t.height
    && t.IsAncestor(last.after, last.best) && t.height[a] <= t.height[last.after]
    && Requested(calls) == Batch(t, last.best, t.height[a], t.height[last.after])
    && Min(t.height[first.best], t.height[a] + 128 * |calls|) <= t.height[last.after]
  }

  lemma FirstCovers(t: Tree, c: Call) returns (a: BlockIndex)
    requires t.WellFormed() && IsNextBatch(t, c.before, c.best, c.count, c.blocks, c.after)
    ensures c.before in t.height && c.best in t.height && t.IsLastCommon(a, c.before, c.best) && Covers(t, [c], a)
  {
    a :| a in t.height && t.IsLastCommon(a, c.before, c.best)
      && var upTo := NextHeight(t.height[a], t.height[c.best], c.count);
         c.blocks == Batch(t, c.best, t.height[a], upTo) && c.after == t.AncestorAt(c.best, upTo);
    BatchProgress(t.height[a], t.height[c.best], c.count);
    assert [c][..0] == [];
    assert Requested([c]) == Requested([]) + c.blocks == c.blocks;
  }

  lemma NextCovers(t: Tree, earlier: seq<Call>, c: Call, a: BlockIndex)
    requires t.WellFormed() && earlier != [] && Covers(t, earlier, a)
    requires IsNextBatch(t, c.before, c.best, c.count, c.blocks, c.after) && c.before == earlier[|earlier| - 1].after
    requires t.IsAncestor(earlier[|earlier| - 1].best, c.best) && t.height[earlier[0].best] <= t.height[c.best]
    ensures Covers(t, earlier + [c], a)
  {
    var best', h := earlier[|earlier| - 1].best, t.height[c.before];
    t.AncestorOfAncestor(c.best, t.height[best'], h);
    NextBatchContinues(t, c.before, c.best, c.count, c.blocks, c.after);
    BatchProgress(h, t.height[c.best], c.count);
    BatchKept(t, best', c.best, t.height[a], h);
    BatchesJoin(t, c.best, t.height[a], h, t.height[c.after]);
    assert (earlier + [c])[..|earlier|] == earlier;
  }

  lemma {:induction false} BestsGrow(t: Tree, calls: seq<Call>)
    requires t.WellFormed() && calls != [] && calls[0].best in t.height && Extending(t, calls)
    ensures calls[|calls| - 1].best in t.height && t.height[calls[0].best] <= t.height[calls[|calls| - 1].best]
    decreases |calls|
  {
    if |calls| > 1 {
      BestsGrow(t, calls[..|calls| - 1]);
    }
  }

  /**
   * While the best block only extends, the batches of any run of calls are one unbroken run of its
   * ancestors, from the last common block of the first call on: no gap, no repeat. Each call gets at
   * least 128 heights further until the best block of the first is passed.
   */
  lemma {:induction false} BatchesAreContiguous(t: Tree, calls: seq<Call>) returns (a: BlockIndex)
    requires t.WellFormed() && calls != [] && IsRun(t, calls) && Extending(t, calls)
    ensures calls[0].before in t.height && calls[0].best in t.height
    ensures t.IsLastCommon(a, calls[0].before, calls[0].best) && Covers(t, calls, a)
    decreases |calls|
  {
    var earlier, c := calls[..|calls| - 1], calls[|calls| - 1];
    assert calls == earlier + [c];
    if earlier == [] {
      a := FirstCovers(t, c);
      assert calls == [c];
    } else {
      a := BatchesAreContiguous(t, earlier);
      BestsGrow(t, calls);
      NextCovers(t, earlier, c, a);
    }
  }

  /** A best block that stands still is reached as soon as there have been enough calls. */
  lemma BestIsReached(t: Tree, calls: seq<Call>)
    requires t.WellFormed() && calls != [] && IsRun(t, calls) && Extending(t, calls)
    requires calls[|calls| - 1].best == calls[0].best && 128 * |calls| >= t.height[calls[0].best]
    ensures calls[|calls| - 1].after == calls[0].best
  {
    var a := BatchesAreContiguous(t, calls);
  }

  // ----- the tree grows between calls

  lemma {:induction false} BatchInLarger(t: Tree, leaf: BlockIndex, p: BlockIndex?, b: BlockIndex, from: nat, upTo: nat)
    requires t.WellFormed() && leaf !in t.height && (p != null ==> p in t.height)
    requires b in t.height && from <= upTo <= t.height[b]
    ensures upTo <= t.With(leaf, p).height[b] && Batch(t.With(leaf, p), b, from, upTo) == Batch(t, b, from, upTo)
    decreases upTo
  {
    if from < upTo {
      BatchInLarger(t, leaf, p, b, from, upTo - 1);
      t.AncestorKept(leaf, p, b, upTo);
    }
  }

  lemma LastCommonInLarger(t: Tree, leaf: BlockIndex, p: BlockIndex?, a: BlockIndex, x: BlockIndex, y: BlockIndex)
    requires t.WellFormed() && leaf !in t.height && (p != null ==> p in t.height)
    requires x in t.height && y in t.height && t.IsLastCommon(a, x, y)
    ensures t.With(leaf, p).IsLastCommon(a, x, y)
  {
    t.AncestorKept(leaf, p, x, t.height[a]);
    t.AncestorKept(leaf, p, y, t.height[a]);
    forall g: nat | t.height[a] < g <= t.height[x] && g <= t.height[y]
      ensures t.With(leaf, p).AncestorAt(x, g) != t.With(leaf, p).AncestorAt(y, g)
    {
      t.AncestorKept(leaf, p, x, g);
      t.AncestorKept(leaf, p, y, g);
    }
  }

  lemma NextBatchInLarger(t: Tree, leaf: BlockIndex, p: BlockIndex?, c: Call)
    requires t.WellFormed() && leaf !in t.height && (p != null ==> p in t.height)
    requires IsNextBatch(t, c.before, c.best, c.count, c.blocks, c.after)
    ensures IsNextBatch(t.With(leaf, p), c.before, c.best, c.count, c.blocks, c.after)
  {
    var a :| a in t.height && t.IsLastCommon(a, c.before, c.best)
      && var upTo := NextHeight(t.height[a], t.height[c.best], c.count);
         c.blocks == Batch(t, c.best, t.height[a], upTo) && c.after == t.AncestorAt(c.best, upTo);
    var upTo := NextHeight(t.height[a], t.height[c.best], c.count);
    BatchProgress(t.height[a], t.height[c.best], c.count);
    LastCommonInLarger(t, leaf, p, a, c.before, c.best);
    BatchInLarger(t, leaf, p, c.best, t.height[a], upTo);
    t.AncestorKept(leaf, p, c.best, upTo);
  }

  /** New headers leave a run a run, so the theorems hold of calls made while the tree grows. */
  lemma {:induction false} RunInLarger(t: Tree, leaf: BlockIndex, p: BlockIndex?, calls: seq<Call>)
    requires t.WellFormed() && leaf !in t.height && (p != null ==> p in t.height) && IsRun(t, calls)
    ensures IsRun(t.With(leaf, p), calls)
    decreases |calls|
  {
    if calls != [] {
      RunInLarger(t, leaf, p, calls[..|calls| - 1]);
      NextBatchInLarger(t, leaf, p, calls[|calls| - 1]);
    }
  }
}
