/** The coin database and the coin view in front of it. */
module CoinView {
  import opened Options
  import opened Utxo
  import opened CoinOverlay
  import opened Conservation

  // ----- the database

  datatype BatchOp = Write(outPoint: OutPoint, coin: Coin) | Erase(outPoint: OutPoint)

  function Perform(db: Ledger, op: BatchOp): Ledger {
    match op
    case Write(o, c) => db[o := c]
    case Erase(o) => db - {o}
  }

  /** A batch takes effect as a whole, its operations in the order they were added. */
  function Execute(db: Ledger, batch: seq<BatchOp>): Ledger
    decreases |batch|
  {
    if batch == [] then db else Perform(Execute(db, batch[..|batch| - 1]), batch[|batch| - 1])
  }

  lemma ExecuteOneMore(db: Ledger, batch: seq<BatchOp>, op: BatchOp)
    ensures Execute(db, batch + [op]) == Perform(Execute(db, batch), op)
  {
    assert (batch + [op])[..|batch|] == batch;
  }

  function DirtyCoins(added: map<OutPoint, CoinEntry>, among: set<OutPoint>): Ledger {
    map o | o in added && o in among && added[o].coin.output.value > 0 && added[o].dirty :: added[o].coin
  }

  lemma PutOne(coins: Ledger, added: map<OutPoint, CoinEntry>, done: set<OutPoint>, o: OutPoint)
    requires o in added && o !in done
    ensures coins + DirtyCoins(added, done + {o})
            == if added[o].coin.output.value > 0 && added[o].dirty then (coins + DirtyCoins(added, done))[o := added[o].coin]
               else coins + DirtyCoins(added, done)
  {
    if added[o].coin.output.value > 0 && added[o].dirty {
      assert DirtyCoins(added, done + {o}) == DirtyCoins(added, done)[o := added[o].coin];
    } else {
      assert DirtyCoins(added, done + {o}) == DirtyCoins(added, done);
    }
  }

  class CoinDB {
    var coins: Ledger
    var bestBlock: nat

    constructor ()
      ensures coins == map[] && bestBlock == 0
    {
      coins, bestBlock := map[], 0;
    }

    method ReadCoin(o: OutPoint) returns (coin: Option<Coin>)
      ensures coin == if o in coins then Some(coins[o]) else None
    {
      return if o in coins then Some(coins[o]) else None;
    }

    /** `success` is whether the storage engine accepts the batch. */
    method WriteCoins(added: map<OutPoint, CoinEntry>, removed: set<OutPoint>, best: nat, success: bool) returns (ok: bool)
      modifies this
      ensures ok == success
      ensures ok ==> coins == Written(Overlay(old(coins), 0, added, removed, 0)) && bestBlock == best
      ensures !ok ==> coins == old(coins) && bestBlock == old(bestBlock)
    {
      var batch := PutDirty(added);
      batch := EraseRemoved(batch, removed);
      assert DirtyCoins(added, added.Keys) == (map o | o in added && added[o].coin.output.value > 0 && added[o].dirty :: added[o].coin);
      if success {
        coins, bestBlock := Execute(coins, batch), best;
      }
      return success;
    }

    /** The first loop: write operations for the dirty coins with a value. */
    method PutDirty(added: map<OutPoint, CoinEntry>) returns (batch: seq<BatchOp>)
      ensures Execute(coins, batch) == coins + DirtyCoins(added, added.Keys)
    {
      batch := [];
      var todo := added.Keys;
      ghost var done: set<OutPoint> := {};
      assert coins + DirtyCoins(added, {}) == coins;
      while todo != {}
        invariant todo !! done && todo + done == added.Keys
        invariant Execute(coins, batch) == coins + DirtyCoins(added, done)
        decreases todo
      {
        var o :| o in todo;
        todo := todo - {o};
        PutOne(coins, added, done, o);
        if added[o].coin.output.value > 0 && added[o].dirty {
          ExecuteOneMore(coins, batch, Write(o, added[o].coin));
          batch := batch + [Write(o, added[o].coin)];
        }
        done := done + {o};
      }
      assert done == added.Keys;
    }

    /** The second loop: erase operations for the removed outpoints. */
    method EraseRemoved(before: seq<BatchOp>, removed: set<OutPoint>) returns (batch: seq<BatchOp>)
      ensures Execute(coins, batch) == Execute(coins, before) - removed
    {
      batch := before;
      var gone := removed;
      while gone != {}
        invariant gone <= removed
        invariant Execute(coins, batch) == Execute(coins, before) - (removed - gone)
        decreases gone
      {
        var o :| o in gone;
        ExecuteOneMore(coins, batch, Erase(o));
        batch := batch + [Erase(o)];
        ghost var put, later := Execute(coins, before), gone - {o};
        assert put - (removed - gone) - {o} == put - (removed - later);
        gone := gone - {o};
      }
      assert removed - {} == removed;
    }
  }

  // ----- the view

  class CoinView {
    const db: CoinDB
    var bestBlockHash: nat
    var bestBlockHeight: int
    var added: map<OutPoint, CoinEntry>
    var removed: set<OutPoint>

    ghost function State(): Overlay
      reads this, db
    {
      Overlay(db.coins, db.bestBlock, added, removed, bestBlockHash)
    }

    /** Nothing known here was created above the best block. */
    ghost predicate HeightsBelowBest()
      reads this, db
    {
      && 0 <= bestBlockHeight
      && (forall o :: o in added ==> added[o].coin.height <= bestBlockHeight)
      && (forall o :: o in db.coins ==> db.coins[o].height <= bestBlockHeight)
    }

    ghost predicate Valid()
      reads this, db
    {
      Sound(State()) && HeightsBelowBest()
    }

    constructor (db: CoinDB)
      requires db.coins == map[]
      ensures Valid() && Consistent(State()) && this.db == db && View(State()) == map[]
    {
      this.db := db;
      bestBlockHash, bestBlockHeight, added, removed := 0, 0, map[], {};
    }

    method SetBestBlock(hash: nat, height: int)
      requires Valid() && bestBlockHeight <= height
      modifies this
      ensures Valid() && State() == old(State()).(best := hash) && bestBlockHeight == height
    {
      bestBlockHash, bestBlockHeight := hash, height;
    }

    /**
     * None for a coin spent since the last flush; otherwise the cached entry, which is the
     * null coin when there is none. `ok` says that the assertions hold.
     */
    method FetchCoin(o: OutPoint) returns (coin: Option<Coin>, ok: bool)
      requires Valid()
      modifies this
      ensures Valid() && State() == AfterFetch(old(State()), o) && View(State()) == old(View(State()))
      ensures bestBlockHeight == old(bestBlockHeight)
      ensures ok
      ensures coin == if o in removed then None else Some(added[o].coin)
      ensures o in View(State()) <==> coin.Some? && coin.value.output.value > 0
      ensures o in View(State()) ==> View(State())[o] == coin.value
    {
      FetchKeepsView(State(), o);
      if o in removed {
        return None, true;
      }
      if o in added {
        return Some(added[o].coin), true;
      }
      added := added[o := CoinEntry(NULL_COIN, false)];
      var stored := db.ReadCoin(o);
      if stored.None? {
        return Some(added[o].coin), true;
      }
      ok := stored.value.output.value > 0 && (stored.value.height <= bestBlockHeight || bestBlockHeight == 0);
      added := added[o := CoinEntry(stored.value, false)];
      coin := Some(added[o].coin);
      assert State() == AfterFetch(old(State()), o);
    }

    method HasCoin(o: OutPoint) returns (r: bool)
      requires Valid()
      modifies this
      ensures Valid() && State() == AfterFetch(old(State()), o) && View(State()) == old(View(State()))
      ensures bestBlockHeight == old(bestBlockHeight)
      ensures r <==> o in View(State())
    {
      var coin, ok := FetchCoin(o);
      return coin.Some? && coin.value.output.value > 0;
    }

    method AddCoin(o: OutPoint, coin: Coin) returns (ok: bool)
      modifies this
      ensures ok <==> coin.height <= bestBlockHeight
      ensures bestBlockHash == old(bestBlockHash) && bestBlockHeight == old(bestBlockHeight)
      ensures State() == if ok then AfterAdd(old(State()), o, coin) else old(State())
    {
      if coin.height > bestBlockHeight {
        return false;
      }
      added := added[o := CoinEntry(coin, true)];
      return true;
    }

    method RemoveCoin(o: OutPoint)
      modifies this
      ensures bestBlockHash == old(bestBlockHash) && bestBlockHeight == old(bestBlockHeight)
      ensures State() == AfterRemove(old(State()), o) && (old(Valid()) ==> Valid())
    {
      if Valid() {
        RemoveTakesOff(State(), o);
      }
      added := added - {o};
      removed := removed + {o};
    }

    /** The first loop of a transfer: take the inputs off, unless one is missing or their sum overflows. */
    method SpendInputs(inputs: seq<OutPoint>) returns (verdict: Verdict, inputVal: int64)
      requires Valid()
      modifies this
      ensures Valid() && bestBlockHash == old(bestBlockHash) && bestBlockHeight == old(bestBlockHeight)
      ensures verdict == VerdictOfSpending(SpendFrom(old(View(State())), inputs, 0, 0))
      ensures verdict == Passes ==> State() == AfterSpending(old(State()), inputs, 0)
      ensures verdict == Passes ==> inputVal == SpendFrom(old(View(State())), inputs, 0, 0).total
    {
      ghost var start := State();
      inputVal := 0;
      var i := 0;
      while i < |inputs|
        invariant i <= |inputs| && Valid() && SpentSoFar(start, inputs, State(), i, inputVal)
        invariant bestBlockHash == old(bestBlockHash) && bestBlockHeight == old(bestBlockHeight)
      {
        verdict, inputVal := SpendNext(inputs, i, start, inputVal);
        if verdict != Passes {
          return verdict, inputVal;
        }
        i := i + 1;
      }
      verdict := Passes;
    }

    /** One round of it. */
    method SpendNext(inputs: seq<OutPoint>, i: nat, ghost start: Overlay, total: int64) returns (verdict: Verdict, next: int64)
      requires Valid() && i < |inputs| && SpentSoFar(start, inputs, State(), i, total)
      modifies this
      ensures Valid() && bestBlockHash == old(bestBlockHash) && bestBlockHeight == old(bestBlockHeight)
      ensures verdict == Passes ==> SpentSoFar(start, inputs, State(), i + 1, next)
      ensures verdict != Passes ==> verdict == VerdictOfSpending(SpendFrom(View(start), inputs, 0, 0))
    {
      NextSpending(start, inputs, State(), i, total);
      var coin, fetched := FetchCoin(inputs[i]);
      if !fetched || coin.None? || coin.value.output.value <= 0 {
        return AssertionFails, 0;
      }
      if !Fits(total + coin.value.output.value) {
        return Overflows, 0;
      }
      RemoveCoin(inputs[i]);
      return Passes, total + coin.value.output.value;
    }

    /**
     * Apply one transaction. Whether an assertion fails or a sum overflows first is decided by the
     * plain ledger, and by the height once the inputs are spent.
     */
    method Transfer(tx: Transaction, height: int) returns (verdict: Verdict)
      requires Valid() && 0 <= height
      modifies this
      ensures verdict == if height <= bestBlockHeight || tx.outputs == [] then Utxo.Transfer(old(View(State())), tx, height).Verdict()
                         else if SpendFrom(old(View(State())), InputsOf(tx), 0, 0).TooMuch? then Overflows else AssertionFails
      ensures bestBlockHash == old(bestBlockHash) && bestBlockHeight == old(bestBlockHeight)
      ensures verdict == Passes ==> State() == AfterTransfer(old(State()), tx, height) && Valid()
    {
      var inputVal: int64 := 0;
      if !tx.IsCoinBase() {
        verdict, inputVal := SpendInputs(tx.inputs);
        if verdict != Passes {
          return verdict;
        }
      }
      var outputVal: int64;
      verdict, outputVal := CreateOutputs(tx, height);
      if verdict == Passes && !tx.IsCoinBase() && inputVal < outputVal {
        return AssertionFails;
      }
    }

    /** The second loop: add up and create the outputs. */
    method CreateOutputs(tx: Transaction, height: int) returns (verdict: Verdict, outputVal: int64)
      requires Valid() && 0 <= height
      modifies this
      ensures verdict == if height > bestBlockHeight && tx.outputs != [] then AssertionFails
                         else if OutputsFit(tx.outputs) then Passes else Overflows
      ensures bestBlockHash == old(bestBlockHash) && bestBlockHeight == old(bestBlockHeight)
      ensures verdict == Passes ==>
                Valid() && State() == AfterCreating(old(State()), tx, height, 0) && outputVal == OutputTotal(tx.outputs, |tx.outputs|)
    {
      ghost var spent := State();
      CreatingKeepsSound(spent, tx, height);
      outputVal := 0;
      var i := 0;
      while i < |tx.outputs|
        invariant i <= |tx.outputs| && HeightsBelowBest()
        invariant bestBlockHash == old(bestBlockHash) && bestBlockHeight == old(bestBlockHeight)
        invariant outputVal == OutputTotal(tx.outputs, i)
        invariant forall k {:trigger OutputTotal(tx.outputs, k)} :: 0 <= k <= i ==> Fits(OutputTotal(tx.outputs, k))
        invariant i > 0 ==> height <= bestBlockHeight
        invariant AfterCreating(spent, tx, height, 0) == AfterCreating(State(), tx, height, i)
      {
        if !Fits(outputVal + tx.outputs[i].value) {
          assert OutputTotal(tx.outputs, i + 1) == outputVal + tx.outputs[i].value;
          return Overflows, 0;
        }
        outputVal := outputVal + tx.outputs[i].value;
        var ok := AddCoin(OutPoint(tx.hash, i), Coin(tx.outputs[i], height, tx.IsCoinBase()));
        if !ok {
          return AssertionFails, 0;
        }
        i := i + 1;
      }
      verdict := Passes;
    }

    /**
     * Write the cache back; on failure of the storage engine nothing changes. What is stored is the
     * denoted ledger exactly when the cache is consistent.
     */
    method Flush(success: bool) returns (ok: bool)
      requires Valid()
      modifies this, db
      ensures ok == success && Valid()
      ensures State() == if ok then AfterFlush(old(State())) else old(State())
      ensures ok ==> Consistent(State()) && (db.coins == old(View(State())) <==> old(Consistent(State())))
      ensures ok ==> View(State()) == db.coins
      ensures bestBlockHeight == old(bestBlockHeight)
    {
      ghost var start := State();
      StoredIffConsistent(start);
      FlushStores(start);
      FlushKeepsHeights(start, bestBlockHeight);
      ok := db.WriteCoins(added, removed, bestBlockHash, success);
      if !ok {
        return false;
      }
      added, removed := map[], {};
      assert State() == AfterFlush(start);
    }

    /**
     * Connect a verified block that extends the best block: the best block moves first, then each
     * transaction is applied. For an admissible block this is the block on the plain ledger.
     */
    method UpdateCoins(block: Block) returns (verdict: Verdict)
      requires Valid() && bestBlockHeight <= block.height
      modifies this
      ensures verdict == VerdictOn(old(State()).(best := block.hash), block.transactions, block.height)
      ensures verdict == Passes ==> Valid() && State() == AfterBlock(old(State()), block)
      ensures old(Consistent(State())) && AdmissibleBlock(old(State()), block) ==>
                var r := TransferAll(old(View(State())), block.transactions, block.height);
                && verdict == r.Verdict()
                && (verdict == Passes ==> Consistent(State()) && View(State()) == r.ledger)
      ensures bestBlockHeight == block.height
    {
      ghost var start := State();
      if Consistent(start) && AdmissibleBlock(start, block) {
        BlockRefines(start, block);
      }
      SetBestBlock(block.hash, block.height);
      ghost var moved := State();
      assert block.transactions[0..] == block.transactions;
      var i := 0;
      while i < |block.transactions|
        invariant i <= |block.transactions| && Valid() && bestBlockHeight == block.height
        invariant Connecting(moved, block, State(), i)
      {
        verdict := TransferNext(block, i, moved);
        if verdict != Passes {
          return verdict;
        }
        i := i + 1;
      }
      assert block.transactions[|block.transactions|..] == [];
      return Passes;
    }

    /** One round of the loop. */
    method TransferNext(block: Block, i: nat, ghost moved: Overlay) returns (verdict: Verdict)
      requires i < |block.transactions| && Valid() && 0 <= bestBlockHeight == block.height
      requires Connecting(moved, block, State(), i)
      modifies this
      ensures bestBlockHeight == old(bestBlockHeight)
      ensures verdict == Passes ==> Valid() && Connecting(moved, block, State(), i + 1)
      ensures verdict != Passes ==> verdict == VerdictOn(moved, block.transactions, block.height)
    {
      NextConnecting(moved, block, State(), i);
      verdict := Transfer(block.transactions[i], block.height);
    }

    /**
     * The check before a block is connected: unless it is one of two exceptions, none of the outpoints
     * it creates may be unspent. Looking them up leaves the ledger, and what the cache can take, alone.
     */
    method CheckDuplicateTransaction(block: Block) returns (ok: bool)
      requires Valid()
      modifies this
      ensures ok <==> !ForbidDuplicateTransaction(block.height, block.hash) || NoneUnspent(old(View(State())), block.transactions)
      ensures Valid() && OnlyLookedUp(old(State()), State()) && bestBlockHeight == old(bestBlockHeight)
    {
      ghost var start := State();
      if !ForbidDuplicateTransaction(block.height, block.hash) {
        return true;
      }
      for j := 0 to |block.transactions|
        invariant Valid() && OnlyLookedUp(start, State()) && bestBlockHeight == old(bestBlockHeight)
        invariant NoneUnspent(View(start), block.transactions[..j])
      {
        ok := CheckTransaction(block.transactions[j], start);
        if !ok {
          return false;
        }
        assert block.transactions[..j + 1] == block.transactions[..j] + [block.transactions[j]];
      }
      assert block.transactions[..|block.transactions|] == block.transactions;
      return true;
    }

    /** The inner loop. */
    method CheckTransaction(tx: Transaction, ghost start: Overlay) returns (ok: bool)
      requires Valid() && OnlyLookedUp(start, State())
      modifies this
      ensures ok <==> forall k :: 0 <= k < |tx.outputs| ==> OutPoint(tx.hash, k) !in View(start)
      ensures Valid() && OnlyLookedUp(start, State()) && bestBlockHeight == old(bestBlockHeight)
    {
      for i := 0 to |tx.outputs|
        invariant Valid() && OnlyLookedUp(start, State()) && bestBlockHeight == old(bestBlockHeight)
        invariant forall k :: 0 <= k < i ==> OutPoint(tx.hash, k) !in View(start)
      {
        FetchKeepsView(State(), OutPoint(tx.hash, i));
        var found := HasCoin(OutPoint(tx.hash, i));
        if found {
          return false;
        }
      }
      return true;
    }
  }

  /** Blocks 91842 and 91880 of the main chain may repeat a coinbase. */
  predicate ForbidDuplicateTransaction(height: int, hash: nat) {
    && (height != 91842 || hash != 0x00000000000a4d0a398161ffc163c503763b1f4360639393e0e4c8e300e0caec)
    && (height != 91880 || hash != 0x00000000000743f190a18c5577a3c2d2a1f610ae9601ac046a38084ccb7cd721)
  }

  /** Exactly one block at each of two heights is excepted. */
  lemma TwoExceptions(height: int, hash: nat)
    ensures ForbidDuplicateTransaction(91842, hash) <==> hash != 0xa4d0a398161ffc163c503763b1f4360639393e0e4c8e300e0caec
    ensures ForbidDuplicateTransaction(91880, hash) <==> hash != 0x743f190a18c5577a3c2d2a1f610ae9601ac046a38084ccb7cd721
    ensures height != 91842 && height != 91880 ==> ForbidDuplicateTransaction(height, hash)
  {
  }

  /** `t` is `s` after any number of lookups. */
  predicate OnlyLookedUp(s: Overlay, t: Overlay) {
    && View(t) == View(s) && (Consistent(s) ==> Consistent(t))
    && t.db == s.db && t.dbBest == s.dbBest && t.removed == s.removed && t.best == s.best
  }

  function VerdictOfSpending(r: Spending): Verdict {
    match r
    case Spent(_, _) => Passes
    case Missing(_) => AssertionFails
    case TooMuch => Overflows
  }

  /** `s` is the cache after the first `i` inputs have been spent, worth `total`. */
  predicate SpentSoFar(start: Overlay, inputs: seq<OutPoint>, s: Overlay, i: nat, total: int) {
    && i <= |inputs|
    && AfterSpending(start, inputs, 0) == AfterSpending(s, inputs, i)
    && SpendFrom(View(start), inputs, 0, 0) == SpendFrom(View(s), inputs, i, total)
  }

  lemma NextSpending(start: Overlay, inputs: seq<OutPoint>, s: Overlay, i: nat, total: int)
    requires Sound(s) && SpentSoFar(start, inputs, s, i, total) && i < |inputs|
    ensures var o, u := inputs[i], View(s);
            if o !in u then SpendFrom(View(start), inputs, 0, 0).Missing?
            else if !Fits(total + u[o].output.value) then SpendFrom(View(start), inputs, 0, 0).TooMuch?
            else SpentSoFar(start, inputs, AfterRemove(AfterFetch(s, o), o), i + 1, total + u[o].output.value)
  {
    FetchKeepsView(s, inputs[i]);
    RemoveTakesOff(AfterFetch(s, inputs[i]), inputs[i]);
  }

  /** `s` is the cache after the first `i` transactions of a block, `moved` the one before them. */
  predicate Connecting(moved: Overlay, block: Block, s: Overlay, i: nat) {
    && i <= |block.transactions|
    && AfterTransfers(moved, block.transactions, block.height) == AfterTransfers(s, block.transactions[i..], block.height)
    && VerdictOn(moved, block.transactions, block.height) == VerdictOn(s, block.transactions[i..], block.height)
  }

  lemma NextConnecting(moved: Overlay, block: Block, s: Overlay, i: nat)
    requires Connecting(moved, block, s, i) && i < |block.transactions|
    ensures var tx := block.transactions[i];
            if Utxo.Transfer(View(s), tx, block.height).Applied?
            then Connecting(moved, block, AfterTransfer(s, tx, block.height), i + 1)
            else VerdictOn(moved, block.transactions, block.height) == Utxo.Transfer(View(s), tx, block.height).Verdict()
  {
    var rest := block.transactions[i..];
    assert rest[0] == block.transactions[i] && rest[1..] == block.transactions[i + 1..];
  }

  /** What is stored was in the cache or in the database before. */
  lemma FlushKeepsHeights(s: Overlay, height: int)
    requires forall o :: o in s.added ==> s.added[o].coin.height <= height
    requires forall o :: o in s.db ==> s.db[o].height <= height
    ensures forall o :: o in Written(s) ==> Written(s)[o].height <= height
  {
    forall o | o in Written(s) ensures Written(s)[o].height <= height {
      WrittenAt(s, o);
    }
  }

  /** What is read after a write: nothing at removed outpoints, else the new coin, else what was there. */
  method ReadAfterWrite(db: CoinDB, added: map<OutPoint, CoinEntry>, removed: set<OutPoint>, best: nat, o: OutPoint)
    returns (coin: Option<Coin>)
    modifies db
    ensures o in removed ==> coin == None
    ensures o !in removed && o in added && added[o].dirty && added[o].coin.output.value > 0 ==> coin == Some(added[o].coin)
    ensures o !in removed && (o !in added || !added[o].dirty || added[o].coin.output.value <= 0) ==>
              coin == if o in old(db.coins) then Some(old(db.coins)[o]) else None
  {
    WrittenAt(Overlay(db.coins, 0, added, removed, 0), o);
    var ok := db.WriteCoins(added, removed, best, true);
    coin := db.ReadCoin(o);
  }
}
