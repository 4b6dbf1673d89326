/** The index of all known headers, with cumulative work and the best header. */
module BlockCache {
  import opened HeightSort
  import opened BlockTree
  import opened Consensus
  import opened ArithUint256
  import opened Limbs

  // ----- what the cumulative fields mean

  /** The work proved by a node and all its ancestors. */
  ghost function PathWork(t: Tree, b: BlockIndex): nat
    requires t.WellFormed() && b in t.height
    decreases t.height[b]
  {
    BlockProof(b.bits) + if b in t.parent then PathWork(t, t.parent[b]) else 0
  }

  /** The latest timestamp on the way from a node to its root. */
  ghost function PathMaxTime(t: Tree, b: BlockIndex): nat
    requires t.WellFormed() && b in t.height
    decreases t.height[b]
  {
    if b in t.parent && b.timestamp < PathMaxTime(t, t.parent[b]) then PathMaxTime(t, t.parent[b]) else b.timestamp
  }

  /** The fields of `b` say what its path adds up to; work is kept in 256 bits. */
  ghost predicate Accounted(t: Tree, b: BlockIndex)
    requires t.WellFormed() && b in t.height
    reads b
  {
    b.chainWork == PathWork(t, b) % MODULUS && b.maxTime == PathMaxTime(t, b)
  }

  ghost predicate AllAccounted(t: Tree, bs: set<BlockIndex>)
    requires t.WellFormed()
    reads bs
  {
    forall b :: b in bs ==> b in t.height && Accounted(t, b)
  }

  /** `best` has the most work of `bs`. */
  ghost predicate IsBest(best: BlockIndex?, bs: set<BlockIndex>)
    reads bs`chainWork
  {
    (best == null <==> bs == {}) && (best != null ==> best in bs && forall b :: b in bs ==> b.chainWork <= best.chainWork)
  }

  /** The work of the `n` lowest ancestors of `b`. */
  ghost function WorkUpTo(t: Tree, b: BlockIndex, n: nat): nat
    requires t.WellFormed() && b in t.height && n <= t.height[b] + 1
  {
    if n == 0 then 0 else WorkUpTo(t, b, n - 1) + BlockProof(t.AncestorAt(b, n - 1).bits)
  }

  lemma {:induction false} WorkUpToOfParent(t: Tree, b: BlockIndex, n: nat)
    requires t.WellFormed() && b in t.parent && n <= t.height[b]
    ensures WorkUpTo(t, b, n) == WorkUpTo(t, t.parent[b], n)
  {
    if n > 0 {
      WorkUpToOfParent(t, b, n - 1);
    }
  }

  /** The work of a path is the sum of what its blocks prove, one at each height. */
  lemma {:induction false} PathWorkIsSum(t: Tree, b: BlockIndex)
    requires t.WellFormed() && b in t.height
    ensures PathWork(t, b) == WorkUpTo(t, b, t.height[b] + 1)
    decreases t.height[b]
  {
    if b in t.parent {
      PathWorkIsSum(t, t.parent[b]);
      WorkUpToOfParent(t, b, t.height[b]);
    }
  }

  /** The latest time of a path is no earlier than that of any of its blocks, and is that of one of them. */
  lemma {:induction false} PathMaxTimeIsMax(t: Tree, b: BlockIndex) returns (at: nat)
    requires t.WellFormed() && b in t.height
    ensures forall h: nat :: h <= t.height[b] ==> t.AncestorAt(b, h).timestamp <= PathMaxTime(t, b)
    ensures at <= t.height[b] && t.AncestorAt(b, at).timestamp == PathMaxTime(t, b)
    decreases t.height[b]
  {
    at := t.height[b];
    if b in t.parent {
      var p := PathMaxTimeIsMax(t, t.parent[b]);
      if b.timestamp < PathMaxTime(t, t.parent[b]) {
        at := p;
      }
      forall h: nat | h < t.height[b] ensures t.AncestorAt(b, h) == t.AncestorAt(t.parent[b], h) {
      }
    }
  }

  lemma WorkStep(t: Tree, b: BlockIndex)
    requires t.WellFormed() && b in t.height
    ensures PathWork(t, b) % MODULUS
            == (BlockProof(b.bits) + if b in t.parent then PathWork(t, t.parent[b]) % MODULUS else 0) % MODULUS
  {
    if b in t.parent {
      ModAdd(BlockProof(b.bits), PathWork(t, t.parent[b]), MODULUS);
    }
  }

  lemma ModAdd(a: nat, b: nat, m: nat)
    requires m > 0
    ensures (a + b) % m == (a + b % m) % m
  {
    var q, r := (a + b % m) / m, (a + b % m) % m;
    assert a + b % m == q * m + r;
    assert b == (b / m) * m + b % m;
    assert a + b == (q + b / m) * m + r;
    DivModUnique(a + b, m, q + b / m, r);
  }

  lemma {:induction false} PathsKept(t: Tree, leaf: BlockIndex, p: BlockIndex?, b: BlockIndex)
    requires t.WellFormed() && leaf !in t.height && (p != null ==> p in t.height) && b in t.height
    ensures PathWork(t.With(leaf, p), b) == PathWork(t, b) && PathMaxTime(t.With(leaf, p), b) == PathMaxTime(t, b)
    decreases t.height[b]
  {
    if b in t.parent {
      PathsKept(t, leaf, p, t.parent[b]);
    }
  }

  /** A new leaf does not disturb what the others account for. */
  lemma AccountsKept(t: Tree, leaf: BlockIndex, p: BlockIndex?)
    requires t.WellFormed() && leaf !in t.height && (p != null ==> p in t.height)
    requires AllAccounted(t, t.height.Keys)
    ensures AllAccounted(t.With(leaf, p), t.height.Keys)
  {
    forall b | b in t.height.Keys ensures b in t.With(leaf, p).height && Accounted(t.With(leaf, p), b) {
      PathsKept(t, leaf, p, b);
    }
  }

  lemma ValuesOf<K, V>(m: map<K, V>)
    ensures forall k :: k in m ==> m[k] in m.Values
  {
  }

  lemma ValuesWith<K, V>(m: map<K, V>, k: K, v: V)
    requires k !in m
    ensures m[k := v].Values == m.Values + {v}
  {
    forall x | x in m.Values + {v} ensures x in m[k := v].Values {
      if x in m.Values {
        var h :| h in m && m[h] == x;
        assert m[k := v][h] == x;
      } else {
        assert m[k := v][k] == x;
      }
    }
  }

  // ----- the cache

  /** The nodes of the tree by hash, with their cumulative fields and a header of most work. */
  ghost predicate IsIndex(t: Tree, blocks: map<nat, BlockIndex>, best: BlockIndex?)
    reads t.height.Keys
  {
    && t.WellFormed() && t.Holds()
    && blocks.Values == t.height.Keys
    && (forall h :: h in blocks ==> blocks[h].hash == h)
    && AllAccounted(t, t.height.Keys)
    && IsBest(best, t.height.Keys)
  }

  lemma Entered(t: Tree, blocks: map<nat, BlockIndex>, block: BlockIndex, parent: BlockIndex?)
    requires t.WellFormed() && block !in t.height && (parent != null ==> parent in t.height)
    requires blocks.Values == t.height.Keys && block.hash !in blocks && forall h :: h in blocks ==> blocks[h].hash == h
    ensures var blocks' := blocks[block.hash := block];
            blocks'.Values == t.With(block, parent).height.Keys && forall h :: h in blocks' ==> blocks'[h].hash == h
  {
    ValuesWith(blocks, block.hash, block);
  }

  /** What the index database keeps of a node. */
  datatype StoredBlock = StoredBlock(height: int, previousHash: nat, bits: uint32, timestamp: nat)

  class BlockCache {
    var blocks: map<nat, BlockIndex>
    var bestHeader: BlockIndex?
    var dirtyBlocks: set<nat>
    /** The index database. */
    var stored: map<nat, StoredBlock>

    constructor ()
      ensures blocks == map[] && bestHeader == null && dirtyBlocks == {} && stored == map[]
    {
      blocks, bestHeader, dirtyBlocks, stored := map[], null, {}, map[];
    }

    ghost predicate Valid(t: Tree)
      reads this`blocks, this`bestHeader, t.height.Keys
    {
      IsIndex(t, blocks, bestHeader)
    }

    /** Nothing is lost: every node is stored or due to be, and what is stored of a node does not change. */
    ghost predicate Backed()
      reads this`blocks, this`dirtyBlocks, this`stored, blocks.Values
    {
      && dirtyBlocks <= blocks.Keys <= stored.Keys + dirtyBlocks
      && Pictured()
    }

    ghost predicate Pictured()
      reads this`blocks, this`stored, blocks.Values
    {
      forall h {:trigger stored[h]} :: h in stored ==> h in blocks && IsImage(stored[h], blocks[h])
    }

    /** Remember a changed node; `flushNow` is whether that is one too many or the last flush long ago. */
    method MarkDirtyBlock(ghost t: Tree, hash: nat, flushNow: bool)
      requires Valid(t) && hash in blocks && Pictured()
      requires dirtyBlocks <= blocks.Keys <= stored.Keys + dirtyBlocks + {hash}
      modifies this`dirtyBlocks, this`stored
      ensures Valid(t) && Backed() && (flushNow ==> dirtyBlocks == {})
      ensures old(Closed(stored)) && ParentsPresent(blocks) ==> Closed(stored)
    {
      dirtyBlocks := dirtyBlocks + {hash};
      assert Valid(t) && Backed();
      if flushNow {
        Flush(t);
      }
    }

    /** The dirty nodes are handed to the index database. */
    method Flush(ghost t: Tree)
      requires Valid(t) && Backed()
      modifies this`dirtyBlocks, this`stored
      ensures Valid(t) && Backed() && dirtyBlocks == {} && stored.Keys == blocks.Keys
      ensures ParentsPresent(blocks) ==> Closed(stored)
    {
      stored := stored + map h | h in dirtyBlocks ::
                  StoredBlock(blocks[h].height, blocks[h].previousHash, blocks[h].bits, blocks[h].timestamp);
      dirtyBlocks := {};
    }

    /** The database holds what the fields of the nodes it knows amount to. */
    lemma StoredFields(t: Tree)
      requires Valid(t) && Backed()
      ensures stored.Keys <= blocks.Keys
      ensures forall h {:trigger stored[h]} :: h in stored ==>
                && blocks[h] in t.height
                && stored[h] == StoredBlock(t.height[blocks[h]], blocks[h].previousHash, blocks[h].bits, blocks[h].timestamp)
      ensures FieldsSay(t, blocks, blocks)
    {
      ValuesOf(blocks);
      forall h | h in blocks ensures Accounted(t, blocks[h]) {
      }
    }

    /** As long as no sum of work reaches 2^256, the fields are the sums and the best header has the most work of all. */
    lemma BestHasMostWork(t: Tree)
      requires Valid(t) && forall b :: b in t.height ==> PathWork(t, b) < MODULUS
      ensures forall b :: b in t.height ==> b.chainWork == PathWork(t, b)
      ensures bestHeader != null ==> bestHeader in t.height
      ensures forall b :: b in t.height ==> bestHeader != null && PathWork(t, b) <= PathWork(t, bestHeader)
    {
      forall b | b in t.height ensures b.chainWork == PathWork(t, b) {
        assert Accounted(t, b);
        SmallModulo(PathWork(t, b), MODULUS);
      }
    }

    /** Nodes as the index database has them, not linked yet. */
    constructor Load(stored: map<nat, StoredBlock>)
      ensures this.stored == stored && dirtyBlocks == {} && bestHeader == null && blocks.Keys == stored.Keys
      ensures fresh(blocks.Values) && Backed()
      ensures forall h {:trigger blocks[h]} :: h in blocks ==> blocks[h].hash == h && blocks[h].previous == null
    {
      blocks, bestHeader, dirtyBlocks, this.stored := map[], null, {}, stored;
      new;
      var todo := stored.Keys;
      while todo != {}
        invariant this.stored == stored && dirtyBlocks == {} && bestHeader == null
        invariant todo <= stored.Keys && blocks.Keys == stored.Keys - todo
        invariant forall h {:trigger blocks[h]} :: h in blocks ==>
                    && fresh(blocks[h]) && blocks[h].hash == h && blocks[h].previous == null
                    && IsImage(stored[h], blocks[h])
        decreases todo
      {
        var hash :| hash in todo;
        todo := todo - {hash};
        var block := new BlockIndex(hash, stored[hash].previousHash, stored[hash].bits, stored[hash].timestamp);
        block.height := stored[hash].height;
        blocks := blocks[hash := block];
      }
    }

    /** Recompute the cumulative fields of `block` from its parent's, and let it compete for best header. */
    method UpdateBlockInfo(ghost t: Tree, block: BlockIndex, ghost among: set<BlockIndex>)
      requires t.WellFormed() && t.Holds() && block in t.height && block !in among
      requires block in t.parent ==> Accounted(t, t.parent[block])
      requires IsBest(bestHeader, among)
      modifies this`bestHeader, block`chainWork, block`maxTime
      ensures Accounted(t, block) && IsBest(bestHeader, among + {block})
      ensures bestHeader == if old(bestHeader) == null || old(bestHeader.chainWork) < block.chainWork then block else old(bestHeader)
    {
      WorkStep(t, block);
      block.chainWork := CalcBlockProof(block.bits);
      SmallModulo(block.chainWork, MODULUS);
      block.maxTime := block.timestamp;
      if block.previous != null {
        assert block.previous != block;
        block.chainWork := (block.chainWork + block.previous.chainWork) % MODULUS;
        ModAdd(block.previous.chainWork, BlockProof(block.bits), MODULUS);
        if block.maxTime < block.previous.maxTime {
          block.maxTime := block.previous.maxTime;
        }
      }
      if bestHeader == null || bestHeader.chainWork < block.chainWork {
        bestHeader := block;
      }
    }

    /**
     * Index an accepted header under its parent, or as a root when the parent is unknown.
     * A header already known is returned as it is.
     */
    method AddBlockIndex(ghost t: Tree, hash: nat, previousHash: nat, bits: uint32, timestamp: nat, flushNow: bool)
      returns (block: BlockIndex, ghost t': Tree)
      requires Valid(t) && Backed() && hash != 0 && previousHash != hash
      modifies this
      ensures Valid(t') && Backed() && block in t'.height && block.hash == hash
      ensures hash in old(blocks) ==> t' == t && blocks == old(blocks) && block == blocks[hash]
      ensures hash !in old(blocks) ==>
                && fresh(block) && blocks == old(blocks)[hash := block]
                && HeaderOf(block) == (hash, previousHash, bits, timestamp)
                && t' == t.With(block, ParentOf(old(blocks), previousHash))
                && bestHeader == if old(bestHeader) == null || old(bestHeader.chainWork) < block.chainWork then block else old(bestHeader)
      ensures ParentsPresent(old(blocks)) && Closed(old(stored)) && (hash in old(blocks) || previousHash == 0 || previousHash in old(blocks)) ==>
                ParentsPresent(blocks) && Closed(stored)
    {
      if hash in blocks {
        block, t' := blocks[hash], t;
      } else {
        block, t' := AddNew(t, hash, previousHash, bits, timestamp, flushNow);
        if ParentsPresent(old(blocks)) && (previousHash == 0 || previousHash in old(blocks)) {
          ParentsStayPresent(old(blocks), block);
        }
      }
    }

    /** The header was not known. */
    method AddNew(ghost t: Tree, hash: nat, previousHash: nat, bits: uint32, timestamp: nat, flushNow: bool)
      returns (block: BlockIndex, ghost t': Tree)
      requires Valid(t) && Backed() && hash != 0 && previousHash != hash && hash !in blocks
      modifies this
      ensures Valid(t') && Backed() && block in t'.height && fresh(block) && blocks == old(blocks)[hash := block]
      ensures HeaderOf(block) == (hash, previousHash, bits, timestamp)
      ensures t' == t.With(block, ParentOf(old(blocks), previousHash))
      ensures bestHeader == if old(bestHeader) == null || old(bestHeader.chainWork) < block.chainWork then block else old(bestHeader)
      ensures Closed(old(stored)) && ParentsPresent(blocks) ==> Closed(stored)
    {
      block, t' := CreateBlockIndex(t, hash, previousHash, bits, timestamp);
      MarkDirtyBlock(t', hash, flushNow);
    }

    /** A new node, linked, entered and accounted for. */
    method CreateBlockIndex(ghost t: Tree, hash: nat, previousHash: nat, bits: uint32, timestamp: nat)
      returns (block: BlockIndex, ghost t': Tree)
      requires Valid(t) && hash != 0 && previousHash != hash && hash !in blocks
      modifies this`blocks, this`bestHeader
      ensures Valid(t') && block in t'.height && fresh(block) && blocks == old(blocks)[hash := block]
      ensures HeaderOf(block) == (hash, previousHash, bits, timestamp)
      ensures var parent := ParentOf(old(blocks), previousHash);
              (parent != null ==> parent in t.height) && t' == t.With(block, parent)
      ensures bestHeader == if old(bestHeader) == null || old(bestHeader.chainWork) < block.chainWork then block else old(bestHeader)
    {
      block, t' := LinkNewBlock(t, hash, previousHash, bits, timestamp);
      Insert(t, block, t');
    }

    /** The beginning of it: the node with its parent and height. */
    method LinkNewBlock(ghost t: Tree, hash: nat, previousHash: nat, bits: uint32, timestamp: nat)
      returns (block: BlockIndex, ghost t': Tree)
      requires t.WellFormed() && t.Holds() && blocks.Values == t.height.Keys
      ensures fresh(block) && HeaderOf(block) == (hash, previousHash, bits, timestamp)
      ensures block.previous == ParentOf(blocks, previousHash) && (block.previous != null ==> block.previous in t.height)
      ensures block !in t.height && t' == t.With(block, block.previous) && t'.Holds()
    {
      block := new BlockIndex(hash, previousHash, bits, timestamp);
      if previousHash != 0 && previousHash in blocks {
        block.previous := blocks[previousHash];
        block.height := block.previous.height + 1;
      }
      ParentInTree(t, blocks, previousHash);
      t' := t.With(block, block.previous);
    }

    /** The end of it: enter the linked node and account for it. */
    method Insert(ghost t: Tree, block: BlockIndex, ghost t': Tree)
      requires Valid(t) && block !in t.height && block.hash !in blocks
      requires block.previous != null ==> block.previous in t.height
      requires t' == t.With(block, block.previous) && t'.Holds()
      modifies this`blocks, this`bestHeader, block`chainWork, block`maxTime
      ensures Valid(t') && blocks == old(blocks)[block.hash := block]
      ensures bestHeader == if old(bestHeader) == null || old(bestHeader.chainWork) < block.chainWork then block else old(bestHeader)
    {
      AccountsKept(t, block, block.previous);
      Entered(t, blocks, block, block.previous);
      blocks := blocks[block.hash := block];
      AccountLast(t', block, t.height.Keys);
    }

    /** All but one node are accounted for, and now that one is too. */
    method AccountLast(ghost t: Tree, block: BlockIndex, ghost others: set<BlockIndex>)
      requires t.WellFormed() && t.Holds() && block !in others && t.height.Keys == others + {block}
      requires AllAccounted(t, others) && IsBest(bestHeader, others) && (block in t.parent ==> t.parent[block] in others)
      modifies this`bestHeader, block`chainWork, block`maxTime
      ensures t.Holds() && AllAccounted(t, t.height.Keys) && IsBest(bestHeader, t.height.Keys)
      ensures bestHeader == if old(bestHeader) == null || old(bestHeader.chainWork) < block.chainWork then block else old(bestHeader)
    {
      UpdateBlockInfo(t, block, others);
    }

    /** Link every loaded node to the node of its previous hash. */
    method UpdatePreviousBlock()
      requires forall h :: h in blocks ==> blocks[h].hash == h
      modifies blocks.Values`previous
      ensures forall h :: h in blocks ==> blocks[h].previous == ByHash(blocks, blocks[h].previousHash)
    {
      var todo := blocks.Keys;
      while todo != {}
        invariant todo <= blocks.Keys
        invariant forall h :: h in blocks && h !in todo ==> blocks[h].previous == ByHash(blocks, blocks[h].previousHash)
        decreases todo
      {
        var hash :| hash in todo;
        var block := blocks[hash];
        block.previous := null;
        if block.previousHash in blocks {
          block.previous := blocks[block.previousHash];
        }
        todo := todo - {hash};
      }
    }

    /** All nodes by height. */
    method HeightSortedBlocks() returns (order: seq<BlockIndex>)
      requires forall h :: h in blocks ==> blocks[h].hash == h
      ensures forall b :: b in order <==> b in blocks.Values
      ensures forall i, j :: 0 <= i < j < |order| ==> order[i] != order[j] && order[i].height <= order[j].height
    {
      var pairs: seq<(int, BlockIndex)> := [];
      var todo := blocks.Keys;
      while todo != {}
        invariant todo <= blocks.Keys && Sorted(pairs)
        invariant forall p :: p in pairs ==> p.0 == p.1.height && p.1.hash in blocks.Keys - todo && blocks[p.1.hash] == p.1
        invariant forall h {:trigger blocks[h]} :: h in blocks.Keys - todo ==> (blocks[h].height, blocks[h]) in pairs
        decreases todo
      {
        var hash :| hash in todo;
        todo := todo - {hash};
        var block := blocks[hash];
        ghost var before := pairs;
        InsertedIsSorted(pairs, (block.height, block));
        pairs := Inserted(pairs, (block.height, block));
        forall h | h in blocks.Keys - todo ensures (blocks[h].height, blocks[h]) in pairs {
          InsertedHas(before, (block.height, block), (blocks[h].height, blocks[h]));
        }
        forall p | p in pairs ensures p in before || p == (block.height, block) {
          InsertedHas(before, (block.height, block), p);
        }
      }
      order := seq(|pairs|, i requires 0 <= i < |pairs| => pairs[i].1);
      ValuesOf(blocks);
      forall b | b in blocks.Values ensures b in order {
        var h :| h in blocks && blocks[h] == b;
        var i :| 0 <= i < |pairs| && pairs[i] == (b.height, b);
        assert order[i] == b;
      }
      forall i, j | 0 <= i < j < |order| ensures order[i] != order[j] && order[i].height <= order[j].height {
        assert pairs[i] in pairs && pairs[j] in pairs && pairs[i] != pairs[j];
      }
      forall b | b in order ensures b in blocks.Values {
        var i :| 0 <= i < |order| && order[i] == b;
        assert pairs[i] in pairs;
      }
    }

    /** Recompute all cumulative fields after loading, by height, so that parents are done before their children. */
    method UpdateChainWork(ghost t: Tree)
      requires t.WellFormed() && t.Holds() && blocks.Values == t.height.Keys && bestHeader == null
      requires forall h :: h in blocks ==> blocks[h].hash == h
      modifies this`bestHeader, t.height.Keys`chainWork, t.height.Keys`maxTime
      ensures Valid(t) && blocks == old(blocks)
    {
      var order := HeightSortedBlocks();
      assert ByHeight(t, order);
      ghost var pos := Positions(t, order);
      AccountInOrder(t, order, pos);
    }

    /**
     * What loading does with the nodes of the database: link them by hash and account for them by
     * height. They were stored by a cache with the nodes `saved` of tree `t`, and get back its
     * shape, work and times.
     */
    method SortOutBlocks(ghost t: Tree, ghost saved: map<nat, BlockIndex>) returns (ghost u: Tree)
      requires t.WellFormed() && LinkedByHash(t, saved) && StoredAs(saved, blocks) && bestHeader == null
      requires forall h {:trigger blocks[h]} :: h in blocks ==>
                 blocks[h].hash == h && saved[h] in t.height && blocks[h].height == t.height[saved[h]]
      modifies this`bestHeader, blocks.Values
      ensures Valid(u) && LinkedByHash(u, blocks) && blocks == old(blocks)
      ensures FieldsSay(t, saved, blocks)
    {
      u := Relink(t, saved);
      UpdateChainWork(u);
      LoadedFields(t, saved, u, blocks);
    }

    /** The first half of it: the links are those of a tree of the same shape. */
    method Relink(ghost t: Tree, ghost saved: map<nat, BlockIndex>) returns (ghost u: Tree)
      requires t.WellFormed() && LinkedByHash(t, saved) && StoredAs(saved, blocks)
      requires forall h {:trigger blocks[h]} :: h in blocks ==>
                 blocks[h].hash == h && saved[h] in t.height && blocks[h].height == t.height[saved[h]]
      modifies blocks.Values`previous
      ensures u.WellFormed() && LinkedByHash(u, blocks) && u.Holds()
    {
      u := LoadedTree(t, saved, blocks);
      UpdatePreviousBlock();
      LinksHold(u, blocks);
    }

    /** The loop, given where each node stands: behind its parent. */
    method AccountInOrder(ghost t: Tree, order: seq<BlockIndex>, ghost pos: map<BlockIndex, nat>)
      requires t.WellFormed() && t.Holds() && bestHeader == null && ParentsFirst(t, order, pos)
      modifies this`bestHeader, t.height.Keys`chainWork, t.height.Keys`maxTime
      ensures t.Holds() && AllAccounted(t, t.height.Keys) && IsBest(bestHeader, t.height.Keys)
    {
      var i := 0;
      while i < |order|
        invariant i <= |order| && t.Holds()
        invariant AllAccounted(t, Before(t, pos, i)) && IsBest(bestHeader, Before(t, pos, i))
      {
        assert Before(t, pos, i + 1) == Before(t, pos, i) + {order[i]};
        assert order[i] in t.parent ==> t.parent[order[i]] in Before(t, pos, i);
        UpdateBlockInfo(t, order[i], Before(t, pos, i));
        i := i + 1;
      }
      assert Before(t, pos, |order|) == t.height.Keys;
    }
  }

  /** Every node of the tree stands in `order` at its place, and parents stand before their children. */
  ghost predicate ParentsFirst(t: Tree, order: seq<BlockIndex>, pos: map<BlockIndex, nat>)
    requires t.WellFormed()
  {
    && pos.Keys == t.height.Keys
    && (forall b {:trigger pos[b]} :: b in pos ==> pos[b] < |order| && order[pos[b]] == b)
    && (forall i {:trigger order[i]} :: 0 <= i < |order| ==> order[i] in pos && pos[order[i]] == i)
    && (forall b {:trigger t.parent[b]} :: b in t.parent ==> pos[t.parent[b]] < pos[b])
  }

  ghost function Before(t: Tree, pos: map<BlockIndex, nat>, i: nat): set<BlockIndex> {
    set b | b in t.height && b in pos && pos[b] < i
  }

  /** Every node came after its parent. */
  predicate ParentsPresent(blocks: map<nat, BlockIndex>) {
    forall h {:trigger blocks[h]} :: h in blocks ==> blocks[h].previousHash == 0 || blocks[h].previousHash in blocks
  }

  lemma ParentsStayPresent(blocks: map<nat, BlockIndex>, block: BlockIndex)
    requires ParentsPresent(blocks) && block.hash !in blocks
    requires block.previousHash == 0 || block.previousHash in blocks
    ensures ParentsPresent(blocks[block.hash := block])
  {
  }

  function HeaderOf(b: BlockIndex): (nat, nat, uint32, nat) {
    (b.hash, b.previousHash, b.bits, b.timestamp)
  }

  /** The database could have been written by an index of just its nodes: it knows all their parents. */
  predicate Closed(stored: map<nat, StoredBlock>) {
    forall h {:trigger stored[h]} :: h in stored ==> stored[h].previousHash == 0 || stored[h].previousHash in stored
  }

  ghost predicate IsImage(image: StoredBlock, b: BlockIndex)
    reads b`height
  {
    image == StoredBlock(b.height, b.previousHash, b.bits, b.timestamp)
  }

  ghost function IndexIn(order: seq<BlockIndex>, b: BlockIndex): (i: nat)
    requires b in order
    ensures i < |order| && order[i] == b
  {
    var i :| 0 <= i < |order| && order[i] == b;
    i
  }

  /** Distinct nodes by height, as a fact about the tree's shape. */
  ghost predicate ByHeight(t: Tree, order: seq<BlockIndex>) {
    && (forall i {:trigger order[i]} :: 0 <= i < |order| ==> order[i] in t.height)
    && (forall i, j {:trigger order[i], order[j]} :: 0 <= i < j < |order| ==>
          order[i] != order[j] && t.height[order[i]] <= t.height[order[j]])
  }

  lemma Positions(t: Tree, order: seq<BlockIndex>) returns (pos: map<BlockIndex, nat>)
    requires t.WellFormed() && ByHeight(t, order)
    requires forall b :: b in t.height ==> b in order
    ensures ParentsFirst(t, order, pos)
  {
    pos := map b | b in t.height && b in order :: IndexIn(order, b);
    forall i | 0 <= i < |order| ensures order[i] in pos && pos[order[i]] == i {
      IndexUnique(t, order, i, order[i]);
    }
    forall b | b in t.parent ensures pos[t.parent[b]] < pos[b] {
      var p := t.parent[b];
      var i, j := IndexIn(order, p), IndexIn(order, b);
      assert t.height[order[i]] < t.height[order[j]];
    }
  }

  lemma IndexUnique(t: Tree, order: seq<BlockIndex>, i: nat, b: BlockIndex)
    requires ByHeight(t, order) && i < |order| && order[i] == b
    ensures b in order && IndexIn(order, b) == i
  {
    var j := IndexIn(order, b);
    assert order[j] == order[i];
  }

  lemma ParentInTree(t: Tree, blocks: map<nat, BlockIndex>, previousHash: nat)
    requires blocks.Values == t.height.Keys
    ensures ParentOf(blocks, previousHash) != null ==> ParentOf(blocks, previousHash) in t.height
  {
    ValuesOf(blocks);
  }

  function ParentOf(blocks: map<nat, BlockIndex>, previousHash: nat): BlockIndex? {
    if previousHash != 0 && previousHash in blocks then blocks[previousHash] else null
  }

  function ByHash(blocks: map<nat, BlockIndex>, hash: nat): BlockIndex? {
    if hash in blocks then blocks[hash] else null
  }

  // ----- saving and loading

  /** Parents are found by hash, and none is missing. */
  ghost predicate LinkedByHash(t: Tree, blocks: map<nat, BlockIndex>)
    requires t.WellFormed()
  {
    && blocks.Values == t.height.Keys
    && (forall h :: h in blocks ==> blocks[h].hash == h)
    && (forall h {:trigger blocks[h].previousHash} :: h in blocks ==> blocks[h].previousHash == 0 || blocks[h].previousHash in blocks)
    && 0 !in blocks
    && (forall h {:trigger t.parent[blocks[h]]} {:trigger blocks[h] in t.parent} :: h in blocks ==>
          if blocks[h].previousHash in blocks
          then blocks[h] in t.parent && t.parent[blocks[h]] == blocks[blocks[h].previousHash]
          else blocks[h] !in t.parent)
  }

  /** A header that brings its parent along keeps the index linked by hash. */
  lemma StaysLinkedByHash(t: Tree, blocks: map<nat, BlockIndex>, block: BlockIndex)
    requires t.WellFormed() && LinkedByHash(t, blocks) && block !in t.height
    requires block.hash != 0 && block.hash !in blocks && block.previousHash != block.hash
    requires block.previousHash == 0 || block.previousHash in blocks
    ensures var parent := ParentOf(blocks, block.previousHash);
            LinkedByHash(t.With(block, parent), blocks[block.hash := block])
  {
    ValuesOf(blocks);
    ValuesWith(blocks, block.hash, block);
  }

  /** The loaded nodes carry what was stored of the saved ones. */
  ghost predicate StoredAs(saved: map<nat, BlockIndex>, loaded: map<nat, BlockIndex>) {
    && saved.Keys == loaded.Keys
    && forall h {:trigger saved[h]} {:trigger loaded[h]} :: h in saved ==>
         && loaded[h].previousHash == saved[h].previousHash
         && loaded[h].bits == saved[h].bits
         && loaded[h].timestamp == saved[h].timestamp
  }

  /** The saved heights, moved to the loaded nodes. */
  ghost function LoadedHeights(t: Tree, saved: map<nat, BlockIndex>, loaded: map<nat, BlockIndex>): map<BlockIndex, nat> {
    map b | b in loaded.Values && b.hash in saved && saved[b.hash] in t.height :: t.height[saved[b.hash]]
  }

  /** The links that hashes make between the loaded nodes. */
  ghost function LoadedParents(loaded: map<nat, BlockIndex>): map<BlockIndex, BlockIndex> {
    map b | b in loaded.Values && b.previousHash in loaded :: loaded[b.previousHash]
  }

  lemma LoadedHeightAt(t: Tree, saved: map<nat, BlockIndex>, loaded: map<nat, BlockIndex>, b: BlockIndex)
    requires t.WellFormed() && saved.Keys == loaded.Keys && b in loaded.Values
    requires forall h {:trigger loaded[h]} :: h in loaded ==> loaded[h].hash == h && saved[h] in t.height
    ensures b.hash in loaded && loaded[b.hash] == b && b.hash in saved
    ensures b in LoadedHeights(t, saved, loaded) && LoadedHeights(t, saved, loaded)[b] == t.height[saved[b.hash]]
  {
    var h :| h in loaded && loaded[h] == b;
  }

  lemma LoadedParentAt(t: Tree, saved: map<nat, BlockIndex>, loaded: map<nat, BlockIndex>, b: BlockIndex)
    requires t.WellFormed() && LinkedByHash(t, saved) && StoredAs(saved, loaded) && b in loaded.Values
    requires forall h {:trigger loaded[h]} :: h in loaded ==> loaded[h].hash == h && saved[h] in t.height
    ensures var height, parent := LoadedHeights(t, saved, loaded), LoadedParents(loaded);
            && b in height && (b in parent <==> height[b] > 0)
            && (b in parent ==> parent[b] in loaded.Values && parent[b] in height && height[parent[b]] == height[b] - 1)
  {
    LoadedHeightAt(t, saved, loaded, b);
    LoadedNode(t, saved, loaded, b.hash);
    if b.previousHash in loaded {
      ValuesOf(loaded);
      LoadedHeightAt(t, saved, loaded, loaded[b.previousHash]);
    }
  }

  /** The tree that linking by hash makes of the loaded nodes has the shape of the saved one. */
  lemma LoadedTree(t: Tree, saved: map<nat, BlockIndex>, loaded: map<nat, BlockIndex>) returns (u: Tree)
    requires t.WellFormed() && LinkedByHash(t, saved) && StoredAs(saved, loaded)
    requires forall h {:trigger loaded[h]} :: h in loaded ==> loaded[h].hash == h && saved[h] in t.height
    ensures u.WellFormed() && LinkedByHash(u, loaded)
    ensures forall h {:trigger loaded[h]} :: h in loaded ==> loaded[h] in u.height && u.height[loaded[h]] == t.height[saved[h]]
  {
    u := Tree(LoadedHeights(t, saved, loaded), LoadedParents(loaded));
    forall b | b in loaded.Values
      ensures b in u.height && (b in u.parent <==> u.height[b] > 0)
      ensures b in u.parent ==> u.parent[b] in u.height && u.height[u.parent[b]] == u.height[b] - 1
    {
      LoadedParentAt(t, saved, loaded, b);
    }
    ValuesOf(loaded);
    forall h {:trigger loaded[h]} | h in loaded ensures loaded[h] in u.height && u.height[loaded[h]] == t.height[saved[h]] {
      LoadedHeightAt(t, saved, loaded, loaded[h]);
    }
    LoadedLinks(t, saved, loaded, u);
  }

  /** Nodes at the heights of a tree that is linked by hash, and linked by hash themselves, are that tree. */
  lemma LinksHold(u: Tree, blocks: map<nat, BlockIndex>)
    requires u.WellFormed() && LinkedByHash(u, blocks)
    requires forall h {:trigger blocks[h]} :: h in blocks ==>
               && blocks[h] in u.height && blocks[h].height == u.height[blocks[h]]
               && blocks[h].previous == ByHash(blocks, blocks[h].previousHash)
    ensures u.Holds()
  {
    forall b {:trigger b in u.height} | b in u.height
      ensures b.height == u.height[b] && b.previous == if b in u.parent then u.parent[b] else null
    {
      var h :| h in blocks && blocks[h] == b;
    }
  }

  lemma LoadedLinks(t: Tree, saved: map<nat, BlockIndex>, loaded: map<nat, BlockIndex>, u: Tree)
    requires t.WellFormed() && LinkedByHash(t, saved) && StoredAs(saved, loaded) && u.WellFormed()
    requires forall h {:trigger loaded[h]} :: h in loaded ==> loaded[h].hash == h
    requires u.height.Keys == loaded.Values && u.parent == LoadedParents(loaded)
    ensures LinkedByHash(u, loaded)
  {
    ValuesOf(loaded);
    forall h {:trigger loaded[h]} | h in loaded
      ensures loaded[h].previousHash == 0 || loaded[h].previousHash in loaded
    {
      assert saved[h].previousHash == loaded[h].previousHash;
    }
  }

  lemma LoadedNode(t: Tree, saved: map<nat, BlockIndex>, loaded: map<nat, BlockIndex>, h: nat)
    requires t.WellFormed() && LinkedByHash(t, saved) && StoredAs(saved, loaded)
    requires h in loaded && saved[h] in t.height
    ensures var previous := loaded[h].previousHash;
            && (previous in loaded <==> t.height[saved[h]] > 0)
            && (previous in loaded ==> saved[previous] in t.height && t.height[saved[previous]] == t.height[saved[h]] - 1)
  {
    assert loaded[h].previousHash == saved[h].previousHash;
    assert saved[h] in t.parent <==> saved[h].previousHash in saved;
  }

  /** Relinking by hash and recomputing gives back the same work and times. */
  lemma {:induction false} ReloadRecomputes(t: Tree, saved: map<nat, BlockIndex>, u: Tree, loaded: map<nat, BlockIndex>, h: nat)
    requires t.WellFormed() && LinkedByHash(t, saved) && u.WellFormed() && LinkedByHash(u, loaded)
    requires StoredAs(saved, loaded) && h in saved
    ensures saved[h] in t.height && loaded[h] in u.height
    ensures PathWork(u, loaded[h]) == PathWork(t, saved[h])
    ensures PathMaxTime(u, loaded[h]) == PathMaxTime(t, saved[h])
    ensures u.height[loaded[h]] == t.height[saved[h]]
    decreases t.height[saved[h]]
  {
    assert saved[h] in saved.Values && loaded[h] in loaded.Values;
    if saved[h] in t.parent {
      assert loaded[h] in u.parent;
      ReloadRecomputes(t, saved, u, loaded, saved[h].previousHash);
    } else {
      assert loaded[h] !in u.parent;
    }
  }

  /** What the fields of node `h` are to be. */
  ghost predicate Amounts(t: Tree, blocks: map<nat, BlockIndex>, h: nat, height: int, work: nat, time: nat)
    requires t.WellFormed()
  {
    && h in blocks && blocks[h] in t.height
    && height == t.height[blocks[h]] && work == PathWork(t, blocks[h]) % MODULUS && time == PathMaxTime(t, blocks[h])
  }

  /** The fields of the nodes `loaded` are what they are to be for the nodes `saved` of tree `t`. */
  ghost predicate FieldsSay(t: Tree, saved: map<nat, BlockIndex>, loaded: map<nat, BlockIndex>)
    requires t.WellFormed()
    reads loaded.Values
  {
    forall h {:trigger loaded[h]} :: h in loaded ==>
      Amounts(t, saved, h, loaded[h].height, loaded[h].chainWork, loaded[h].maxTime)
  }

  lemma LoadedFields(t: Tree, saved: map<nat, BlockIndex>, u: Tree, loaded: map<nat, BlockIndex>)
    requires t.WellFormed() && LinkedByHash(t, saved) && u.WellFormed() && LinkedByHash(u, loaded) && StoredAs(saved, loaded)
    requires u.Holds() && AllAccounted(u, u.height.Keys)
    ensures FieldsSay(t, saved, loaded)
  {
    ValuesOf(loaded);
    forall h {:trigger loaded[h]} | h in loaded
      ensures Amounts(t, saved, h, loaded[h].height, loaded[h].chainWork, loaded[h].maxTime)
    {
      ReloadRecomputes(t, saved, u, loaded, h);
      assert Accounted(u, loaded[h]);
    }
  }

  /** The nodes `loaded` are some of `blocks`, with the same fields. */
  ghost predicate KnownAgain(loaded: map<nat, BlockIndex>, blocks: map<nat, BlockIndex>)
    reads loaded.Values, blocks.Values
  {
    forall h {:trigger loaded[h]} {:trigger blocks[h]} :: h in loaded ==>
      && h in blocks && loaded[h].height == blocks[h].height
      && loaded[h].chainWork == blocks[h].chainWork && loaded[h].maxTime == blocks[h].maxTime
  }

  /** Loading a database that holds what the nodes `saved` of tree `t` amount to. */
  method LoadCache(stored: map<nat, StoredBlock>, ghost t: Tree, ghost saved: map<nat, BlockIndex>)
    returns (again: BlockCache, ghost u: Tree)
    requires t.WellFormed() && LinkedByHash(t, saved) && stored.Keys == saved.Keys
    requires forall h {:trigger stored[h]} {:trigger saved[h]} :: h in saved ==>
               && saved[h] in t.height
               && stored[h] == StoredBlock(t.height[saved[h]], saved[h].previousHash, saved[h].bits, saved[h].timestamp)
    ensures fresh(again) && again.Valid(u) && LinkedByHash(u, again.blocks) && again.blocks.Keys == saved.Keys
    ensures FieldsSay(t, saved, again.blocks)
  {
    again := new BlockCache.Load(stored);
    assert StoredAs(saved, again.blocks);
    u := again.SortOutBlocks(t, saved);
  }

  /** The part of a linked index that knows the parents of all its nodes is a linked index of its own. */
  lemma SubIndex(t: Tree, blocks: map<nat, BlockIndex>, hs: set<nat>) returns (u: Tree, part: map<nat, BlockIndex>)
    requires t.WellFormed() && LinkedByHash(t, blocks) && hs <= blocks.Keys
    requires forall h {:trigger blocks[h]} :: h in hs ==> blocks[h].previousHash == 0 || blocks[h].previousHash in hs
    ensures u.WellFormed() && part == (map h | h in hs :: blocks[h]) && LinkedByHash(u, part)
    ensures IsPart(u, t)
  {
    part := map h | h in hs :: blocks[h];
    var bs := part.Values;
    u := Tree(map b | b in bs && b in t.height :: t.height[b], map b | b in bs && b in t.parent :: t.parent[b]);
    ValuesOf(part);
    ValuesOf(blocks);
    forall b | b in bs
      ensures b in t.height && b.hash in hs && blocks[b.hash] == b
      ensures b in t.parent ==> b.previousHash in hs && t.parent[b] == part[b.previousHash]
    {
      var h :| h in part && part[h] == b;
      assert blocks[h] == b && blocks[h].hash == h;
      assert b in t.parent ==> blocks[h].previousHash in blocks;
    }
  }

  /** `u` has some of the nodes of `t`, with the same heights and parents. */
  ghost predicate IsPart(u: Tree, t: Tree) {
    && (forall b {:trigger u.height[b]} {:trigger b in u.height} :: b in u.height ==> b in t.height && u.height[b] == t.height[b])
    && (forall b {:trigger b in u.parent} {:trigger b in t.parent} :: b in u.height ==>
          (b in u.parent <==> b in t.parent) && (b in u.parent ==> u.parent[b] == t.parent[b]))
  }

  lemma {:induction false} PathsInPart(u: Tree, t: Tree, b: BlockIndex)
    requires u.WellFormed() && t.WellFormed() && IsPart(u, t) && b in u.height
    ensures PathWork(u, b) == PathWork(t, b) && PathMaxTime(u, b) == PathMaxTime(t, b)
    decreases u.height[b]
  {
    if b in u.parent {
      PathsInPart(u, t, u.parent[b]);
    }
  }

  /**
   * A node that stops at any time and starts again on what it had stored knows those blocks again, with
   * the same heights, work and times; after a flush these are all blocks.
   */
  method Restart(cache: BlockCache, ghost t: Tree) returns (again: BlockCache, ghost u: Tree)
    requires cache.Valid(t) && LinkedByHash(t, cache.blocks) && cache.Backed() && Closed(cache.stored)
    ensures fresh(again) && again.Valid(u) && LinkedByHash(u, again.blocks)
    ensures again.blocks.Keys == cache.stored.Keys && KnownAgain(again.blocks, cache.blocks)
    ensures cache.dirtyBlocks == {} ==> again.blocks.Keys == cache.blocks.Keys
  {
    ghost var part, saved := StoredPart(cache, t);
    again, u := LoadCache(cache.stored, part, saved);
    RestartedFields(t, cache.blocks, part, saved, again.blocks);
  }

  lemma RestartedFields(t: Tree, blocks: map<nat, BlockIndex>, u: Tree, part: map<nat, BlockIndex>, loaded: map<nat, BlockIndex>)
    requires t.WellFormed() && FieldsSay(t, blocks, blocks)
    requires u.WellFormed() && FieldsSay(u, part, loaded) && SaysNothingElse(u, part, t, blocks)
    ensures KnownAgain(loaded, blocks)
  {
    forall h {:trigger loaded[h]} | h in loaded
      ensures Amounts(t, blocks, h, loaded[h].height, loaded[h].chainWork, loaded[h].maxTime)
    {
    }
  }

  ghost predicate SaysNothingElse(u: Tree, part: map<nat, BlockIndex>, t: Tree, blocks: map<nat, BlockIndex>)
    requires u.WellFormed() && t.WellFormed()
  {
    forall h, height, work, time {:trigger Amounts(u, part, h, height, work, time)} ::
      Amounts(u, part, h, height, work, time) ==> Amounts(t, blocks, h, height, work, time)
  }

  /** The nodes in the database are an index of their own. */
  lemma StoredPart(cache: BlockCache, t: Tree) returns (u: Tree, part: map<nat, BlockIndex>)
    requires cache.Valid(t) && LinkedByHash(t, cache.blocks) && cache.Backed() && Closed(cache.stored)
    ensures FieldsSay(t, cache.blocks, cache.blocks)
    ensures u.WellFormed() && LinkedByHash(u, part) && cache.stored.Keys == part.Keys && SaysNothingElse(u, part, t, cache.blocks)
    ensures forall h {:trigger cache.stored[h]} {:trigger part[h]} :: h in part ==>
              && part[h] in u.height
              && cache.stored[h] == StoredBlock(u.height[part[h]], part[h].previousHash, part[h].bits, part[h].timestamp)
  {
    cache.StoredFields(t);
    u, part := PartOf(t, cache.blocks, cache.stored);
  }

  lemma PartOf(t: Tree, blocks: map<nat, BlockIndex>, stored: map<nat, StoredBlock>) returns (u: Tree, part: map<nat, BlockIndex>)
    requires t.WellFormed() && LinkedByHash(t, blocks) && stored.Keys <= blocks.Keys && Closed(stored)
    requires forall h {:trigger stored[h]} :: h in stored ==>
               && blocks[h] in t.height
               && stored[h] == StoredBlock(t.height[blocks[h]], blocks[h].previousHash, blocks[h].bits, blocks[h].timestamp)
    ensures u.WellFormed() && LinkedByHash(u, part) && stored.Keys == part.Keys && SaysNothingElse(u, part, t, blocks)
    ensures forall h {:trigger stored[h]} {:trigger part[h]} :: h in part ==>
              && part[h] in u.height
              && stored[h] == StoredBlock(u.height[part[h]], part[h].previousHash, part[h].bits, part[h].timestamp)
  {
    forall h {:trigger blocks[h]} | h in stored.Keys ensures blocks[h].previousHash == 0 || blocks[h].previousHash in stored.Keys {
      assert stored[h].previousHash == blocks[h].previousHash;
    }
    u, part := SubIndex(t, blocks, stored.Keys);
    ValuesOf(part);
    forall h, height, work, time {:trigger Amounts(u, part, h, height, work, time)} | Amounts(u, part, h, height, work, time)
      ensures Amounts(t, blocks, h, height, work, time)
    {
      PathsInPart(u, t, part[h]);
    }
  }
}
