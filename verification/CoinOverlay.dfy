/** The write-back cache over the coin database as a value, and the ledger it stands for. */
module CoinOverlay {
  import opened Utxo

  datatype CoinEntry = CoinEntry(coin: Coin, dirty: bool)

  const NULL_COIN := Coin(TxOut(0, ""), 0, false)

  /** The database with its best block, and the cache in front of it with the best block to store next. */
  datatype Overlay = Overlay(db: Ledger, dbBest: nat, added: map<OutPoint, CoinEntry>, removed: set<OutPoint>, best: nat)

  predicate Live(s: Overlay, o: OutPoint) {
    o !in s.removed && if o in s.added then s.added[o].coin.output.value > 0 else o in s.db
  }

  /** The ledger that the database and the cache denote together. */
  function View(s: Overlay): Ledger {
    map o | o in s.db.Keys + s.added.Keys && Live(s, o) :: if o in s.added then s.added[o].coin else s.db[o]
  }

  /** What every operation keeps: the database holds coins with a value only, and clean entries repeat it. */
  predicate Sound(s: Overlay) {
    && Positive(s.db)
    && (forall o :: o in s.added && !s.added[o].dirty ==>
          if s.added[o].coin.output.value > 0 then o in s.db && s.db[o] == s.added[o].coin else o !in s.db)
  }

  /** The cache would be written back as it is read: no valueless entry hides a stored coin. */
  predicate Consistent(s: Overlay) {
    && Sound(s)
    && (forall o :: o in s.added && o !in s.removed && s.added[o].coin.output.value <= 0 ==> o !in s.db)
  }

  // ----- the operations

  function AfterFetch(s: Overlay, o: OutPoint): Overlay {
    if o in s.removed || o in s.added then s
    else s.(added := s.added[o := CoinEntry(if o in s.db then s.db[o] else NULL_COIN, false)])
  }

  function AfterRemove(s: Overlay, o: OutPoint): Overlay {
    s.(added := s.added - {o}, removed := s.removed + {o})
  }

  function AfterAdd(s: Overlay, o: OutPoint, c: Coin): Overlay {
    s.(added := s.added[o := CoinEntry(c, true)])
  }

  /** What the write batch leaves in the database: dirty coins put, then removed outpoints erased. */
  function Written(s: Overlay): Ledger {
    s.db + (map o | o in s.added && s.added[o].coin.output.value > 0 && s.added[o].dirty :: s.added[o].coin) - s.removed
  }

  function AfterFlush(s: Overlay): Overlay {
    Overlay(Written(s), s.best, map[], {}, s.best)
  }

  lemma FetchKeepsView(s: Overlay, o: OutPoint)
    requires Sound(s)
    ensures Sound(AfterFetch(s, o)) && View(AfterFetch(s, o)) == View(s)
    ensures Consistent(s) ==> Consistent(AfterFetch(s, o))
    ensures o in s.removed ==> o !in View(s)
    ensures o !in s.removed ==>
              var e := AfterFetch(s, o).added;
              && o in e
              && (o in View(s) <==> e[o].coin.output.value > 0)
              && (o in View(s) ==> View(s)[o] == e[o].coin)
  {
    if o !in s.removed {
      FetchedAt(s, o);
    }
    var v, w := View(s), View(AfterFetch(s, o));
    forall p ensures (p in w <==> p in v) && (p in w ==> w[p] == v[p]) {
    }
    assert w.Keys == v.Keys;
  }

  /** The entry that is there after looking up. */
  lemma FetchedAt(s: Overlay, o: OutPoint)
    requires Sound(s) && o !in s.removed
    ensures var e := AfterFetch(s, o).added;
            && o in e && (o in View(s) <==> e[o].coin.output.value > 0) && (o in View(s) ==> View(s)[o] == e[o].coin)
  {
  }

  lemma RemoveTakesOff(s: Overlay, o: OutPoint)
    requires Sound(s)
    ensures Sound(AfterRemove(s, o)) && View(AfterRemove(s, o)) == View(s) - {o}
    ensures Consistent(s) ==> Consistent(AfterRemove(s, o))
  {
    assert View(AfterRemove(s, o)).Keys == View(s).Keys - {o};
  }

  /**
   * Adding a coin puts it on the ledger except in one case: `removed` is not cleared, so a
   * coin with a value at an outpoint spent since the last flush stays invisible.
   */
  lemma AddPutsExactlyUnlessRemoved(s: Overlay, o: OutPoint, c: Coin)
    ensures View(AfterAdd(s, o, c)) == Put(View(s), o, c) <==> o !in s.removed || c.output.value <= 0
  {
    var t := AfterAdd(s, o, c);
    forall p | p != o ensures p in View(t) <==> p in View(s) {
    }
    if o in s.removed {
      assert o !in View(t) && o !in View(s);
      if c.output.value > 0 {
        assert o in Put(View(s), o, c);
      } else {
        assert View(t).Keys == View(s).Keys;
        assert View(t) == Put(View(s), o, c);
      }
    } else {
      assert View(t).Keys == Put(View(s), o, c).Keys;
      assert View(t) == Put(View(s), o, c);
    }
  }

  /** What survives the next flush: a valueless coin does not even hide a stored one. */
  lemma AddSurvivesFlushExactly(s: Overlay, o: OutPoint, c: Coin)
    requires Consistent(s)
    ensures Written(AfterAdd(s, o, c)) == Put(View(s), o, c) <==>
            if c.output.value > 0 then o !in s.removed else o !in s.db || o in s.removed
  {
    StoredIffConsistent(s);
    WrittenAfterAdd(s, o, c);
    PutAlone(View(s), o, c);
    SameIfSameAt(Written(AfterAdd(s, o, c)), Put(View(s), o, c), o);
  }

  lemma PutAlone(u: Ledger, o: OutPoint, c: Coin)
    ensures Put(u, o, c) - {o} == u - {o}
  {
  }

  lemma WrittenAfterAdd(s: Overlay, o: OutPoint, c: Coin)
    ensures var w := Written(AfterAdd(s, o, c));
            && w - {o} == Written(s) - {o}
            && (o in w <==> o !in s.removed && (c.output.value > 0 || o in s.db))
            && (o in w ==> w[o] == if c.output.value > 0 then c else s.db[o])
  {
    var t := AfterAdd(s, o, c);
    WrittenAt(t, o);
    forall p | p != o
      ensures p in Written(t) <==> p in Written(s)
      ensures p in Written(t) ==> Written(t)[p] == Written(s)[p]
    {
      WrittenAt(s, p);
      WrittenAt(t, p);
    }
  }

  lemma SameIfSameAt(w: Ledger, v: Ledger, o: OutPoint)
    requires w - {o} == v - {o}
    ensures w == v <==> (o in w <==> o in v) && (o in w && o in v ==> w[o] == v[o])
  {
    forall p | p != o
      ensures p in w <==> p in v
      ensures p in w ==> w[p] == v[p]
    {
      assert p in w <==> p in w - {o};
      assert p in v <==> p in v - {o};
      assert p in w ==> (w - {o})[p] == w[p];
      assert p in v ==> (v - {o})[p] == v[p];
    }
  }

  /** The case itself: spend a coin, create it again before a flush, and it is gone. */
  lemma RecreatedCoinIsLost(o: OutPoint, c: Coin)
    requires c.output.value > 0
    ensures var s := AfterAdd(AfterRemove(Overlay(map[o := c], 0, map[], {}, 0), o), o, c);
            View(s) == map[] && Written(s) == map[]
  {
    var s := AfterAdd(AfterRemove(Overlay(map[o := c], 0, map[], {}, 0), o), o, c);
    assert o !in View(s);
    assert View(s).Keys == {};
  }

  /** What a flush leaves at each outpoint: removed ones nothing, dirty ones with a value their coin, others what was there. */
  lemma WrittenAt(s: Overlay, o: OutPoint)
    ensures var dirty := o in s.added && s.added[o].coin.output.value > 0 && s.added[o].dirty;
            && (o in Written(s) <==> o !in s.removed && (dirty || o in s.db))
            && (o in Written(s) ==> Written(s)[o] == if dirty then s.added[o].coin else s.db[o])
  {
  }

  /** A flush stores the denoted ledger if and only if the cache is consistent. */
  lemma StoredIffConsistent(s: Overlay)
    requires Sound(s)
    ensures Written(s) == View(s) <==> Consistent(s)
  {
    if Consistent(s) {
      forall o ensures o in Written(s) <==> o in View(s) {
        WrittenAt(s, o);
      }
      assert Written(s).Keys == View(s).Keys;
    } else {
      var o :| o in s.added && o !in s.removed && s.added[o].coin.output.value <= 0 && o in s.db;
      WrittenAt(s, o);
      assert o !in View(s);
    }
  }

  /** After a flush the cache is empty, so it is consistent, and denotes what was stored. */
  lemma FlushStores(s: Overlay)
    requires Sound(s)
    ensures Consistent(AfterFlush(s)) && View(AfterFlush(s)) == Written(s)
    ensures Consistent(s) ==> View(AfterFlush(s)) == View(s)
  {
    assert View(AfterFlush(s)).Keys == Written(s).Keys;
    StoredIffConsistent(s);
  }

  // ----- transactions and blocks on the cache

  function AfterSpending(s: Overlay, inputs: seq<OutPoint>, i: nat): Overlay
    requires i <= |inputs|
    decreases |inputs| - i
  {
    if i == |inputs| then s else AfterSpending(AfterRemove(AfterFetch(s, inputs[i]), inputs[i]), inputs, i + 1)
  }

  function AfterCreating(s: Overlay, tx: Transaction, height: int, i: nat): Overlay
    requires i <= |tx.outputs|
    decreases |tx.outputs| - i
  {
    if i == |tx.outputs| then s
    else AfterCreating(AfterAdd(s, OutPoint(tx.hash, i), Coin(tx.outputs[i], height, tx.IsCoinBase())), tx, height, i + 1)
  }

  function AfterTransfer(s: Overlay, tx: Transaction, height: int): Overlay {
    AfterCreating(AfterSpending(s, InputsOf(tx), 0), tx, height, 0)
  }

  function AfterTransfers(s: Overlay, txs: seq<Transaction>, height: int): Overlay
    decreases |txs|
  {
    if txs == [] then s else AfterTransfers(AfterTransfer(s, txs[0], height), txs[1..], height)
  }

  /** Connecting a block: the best block moves first, then the transactions are applied. */
  function AfterBlock(s: Overlay, b: Block): Overlay {
    AfterTransfers(s.(best := b.hash), b.transactions, b.height)
  }

  lemma {:induction false} SpendingKeepsConsistent(s: Overlay, inputs: seq<OutPoint>, i: nat)
    requires Sound(s) && i <= |inputs|
    ensures Sound(AfterSpending(s, inputs, i)) && (Consistent(s) ==> Consistent(AfterSpending(s, inputs, i)))
    decreases |inputs| - i
  {
    if i < |inputs| {
      FetchKeepsView(s, inputs[i]);
      RemoveTakesOff(AfterFetch(s, inputs[i]), inputs[i]);
      SpendingKeepsConsistent(AfterRemove(AfterFetch(s, inputs[i]), inputs[i]), inputs, i + 1);
    }
  }

  /** Spending moves the inputs to the removed outpoints and leaves the database alone. */
  lemma {:induction false} SpendingFrame(s: Overlay, inputs: seq<OutPoint>, i: nat)
    requires i <= |inputs|
    ensures var t := AfterSpending(s, inputs, i);
            && (forall o :: o in t.removed <==> o in s.removed || o in inputs[i..])
            && t.db == s.db && t.dbBest == s.dbBest && t.best == s.best
    decreases |inputs| - i
  {
    if i < |inputs| {
      SpendingFrame(AfterRemove(AfterFetch(s, inputs[i]), inputs[i]), inputs, i + 1);
      assert inputs[i..] == [inputs[i]] + inputs[i + 1..];
    }
  }

  lemma {:induction false} SpendingRefines(s: Overlay, inputs: seq<OutPoint>, i: nat, total: int)
    requires Sound(s) && i <= |inputs| && SpendFrom(View(s), inputs, i, total).Spent?
    ensures View(AfterSpending(s, inputs, i)) == SpendFrom(View(s), inputs, i, total).ledger
    decreases |inputs| - i
  {
    if i < |inputs| {
      var o := inputs[i];
      FetchKeepsView(s, o);
      RemoveTakesOff(AfterFetch(s, o), o);
      SpendingRefines(AfterRemove(AfterFetch(s, o), o), inputs, i + 1, total + View(s)[o].output.value);
    }
  }

  /** Creating outputs touches only their own entries. */
  lemma {:induction false} CreatingFrame(s: Overlay, tx: Transaction, height: int, i: nat)
    requires i <= |tx.outputs|
    ensures var t := AfterCreating(s, tx, height, i);
            && t.removed == s.removed && t.db == s.db && t.dbBest == s.dbBest && t.best == s.best
            && (forall o :: !tx.Creates(o) || o.index < i ==> (o in t.added <==> o in s.added))
            && (forall o :: o in t.added && (!tx.Creates(o) || o.index < i) ==> t.added[o] == s.added[o])
            && (forall o :: tx.Creates(o) && i <= o.index ==>
                  o in t.added && t.added[o] == CoinEntry(Coin(tx.outputs[o.index], height, tx.IsCoinBase()), true))
    decreases |tx.outputs| - i
  {
    if i < |tx.outputs| {
      CreatingFrame(AfterAdd(s, OutPoint(tx.hash, i), Coin(tx.outputs[i], height, tx.IsCoinBase())), tx, height, i + 1);
    }
  }

  /** Created outpoints that adding handles: with a value not among the removed, without one not in the database. */
  predicate Admissible(m: Overlay, tx: Transaction) {
    AdmissibleAt(m.db, m.removed, tx)
  }

  predicate AdmissibleAt(db: Ledger, removed: set<OutPoint>, tx: Transaction) {
    forall k :: 0 <= k < |tx.outputs| ==> Addable(db, removed, OutPoint(tx.hash, k), tx.outputs[k].value)
  }

  predicate Addable(db: Ledger, removed: set<OutPoint>, o: OutPoint, value: int) {
    if value > 0 then o !in removed else o in removed || o !in db
  }

  /** The cache when the inputs are spent and the outputs not yet created. */
  function Midway(s: Overlay, tx: Transaction): Overlay {
    AfterSpending(s, InputsOf(tx), 0)
  }

  /** Reading and writing back both give `u`. */
  predicate Mirrors(s: Overlay, u: Ledger) {
    View(s) == u && Written(s) == u
  }

  lemma CreatingKeepsSound(m: Overlay, tx: Transaction, height: int)
    requires Sound(m)
    ensures Sound(AfterCreating(m, tx, height, 0))
    ensures Consistent(m) && Admissible(m, tx) ==> Consistent(AfterCreating(m, tx, height, 0))
  {
    var t := AfterCreating(m, tx, height, 0);
    CreatingFrame(m, tx, height, 0);
    if Consistent(m) && Admissible(m, tx) {
      forall o | o in t.added && o !in t.removed && t.added[o].coin.output.value <= 0 ensures o !in t.db {
        if tx.Creates(o) {
          assert o == OutPoint(tx.hash, o.index);
        }
      }
    }
  }

  /** The view after creating, against the plain ledger, outpoint by outpoint. */
  lemma CreatedViewAt(m: Overlay, tx: Transaction, height: int, o: OutPoint)
    ensures var t, v := View(AfterCreating(m, tx, height, 0)), CreateFrom(View(m), tx, height, 0);
            if tx.Creates(o) && tx.outputs[o.index].value > 0 && o in m.removed then o !in t && o in v
            else (o in t <==> o in v) && (o in t ==> t[o] == v[o])
  {
    CreatingFrame(m, tx, height, 0);
    CreateFromFrame(View(m), tx, height, 0);
    if tx.Creates(o) {
      assert o == OutPoint(tx.hash, o.index);
    }
  }

  lemma CreatedViewIff(m: Overlay, tx: Transaction, height: int)
    ensures View(AfterCreating(m, tx, height, 0)) == CreateFrom(View(m), tx, height, 0) <==>
            forall k :: 0 <= k < |tx.outputs| && tx.outputs[k].value > 0 ==> OutPoint(tx.hash, k) !in m.removed
  {
    var t, v := View(AfterCreating(m, tx, height, 0)), CreateFrom(View(m), tx, height, 0);
    if k :| 0 <= k < |tx.outputs| && tx.outputs[k].value > 0 && OutPoint(tx.hash, k) in m.removed {
      CreatedViewAt(m, tx, height, OutPoint(tx.hash, k));
    } else {
      forall o ensures (o in t <==> o in v) && (o in t ==> t[o] == v[o]) {
        CreatedViewAt(m, tx, height, o);
        if tx.Creates(o) {
          assert o == OutPoint(tx.hash, o.index);
        }
      }
      assert t.Keys == v.Keys;
    }
  }

  lemma AdmissibleIfMirrored(m: Overlay, tx: Transaction, height: int)
    requires Consistent(m) && Mirrors(AfterCreating(m, tx, height, 0), CreateFrom(View(m), tx, height, 0))
    ensures Admissible(m, tx)
  {
    var t := AfterCreating(m, tx, height, 0);
    CreatedViewIff(m, tx, height);
    CreatingKeepsSound(m, tx, height);
    CreatingFrame(m, tx, height, 0);
    StoredIffConsistent(t);
    forall k | 0 <= k < |tx.outputs| ensures Addable(m.db, m.removed, OutPoint(tx.hash, k), tx.outputs[k].value) {
      assert tx.Creates(OutPoint(tx.hash, k));
      assert OutPoint(tx.hash, k) in t.added;
    }
  }

  /**
   * A transaction on the cache reads as the transaction on the plain ledger if and only if no output
   * with a value lies at a removed outpoint, and is also written back as such if and only if it is admissible.
   */
  lemma TransferRefines(s: Overlay, tx: Transaction, height: int)
    requires Consistent(s) && Transfer(View(s), tx, height).Applied?
    ensures var m, t, v := Midway(s, tx), AfterTransfer(s, tx, height), Transfer(View(s), tx, height).ledger;
            && Sound(t) && t.db == s.db && t.dbBest == s.dbBest && t.best == s.best
            && (View(t) == v <==> forall k :: 0 <= k < |tx.outputs| && tx.outputs[k].value > 0 ==> OutPoint(tx.hash, k) !in m.removed)
            && (Mirrors(t, v) <==> Admissible(m, tx))
            && (Admissible(m, tx) ==> Consistent(t))
  {
    var m := Midway(s, tx);
    SpendingKeepsConsistent(s, InputsOf(tx), 0);
    SpendingFrame(s, InputsOf(tx), 0);
    SpendingRefines(s, InputsOf(tx), 0, 0);
    CreatedViewIff(m, tx, height);
    CreatingKeepsSound(m, tx, height);
    CreatingFrame(m, tx, height, 0);
    if Admissible(m, tx) {
      assert forall k :: 0 <= k < |tx.outputs| ==> Addable(m.db, m.removed, OutPoint(tx.hash, k), tx.outputs[k].value);
      StoredIffConsistent(AfterTransfer(s, tx, height));
    } else if Mirrors(AfterTransfer(s, tx, height), Transfer(View(s), tx, height).ledger) {
      AdmissibleIfMirrored(m, tx, height);
    }
  }

  /** The outpoints that are removed halfway: those removed before, and the inputs. */
  lemma RemovedMidway(s: Overlay, tx: Transaction)
    ensures Midway(s, tx).db == s.db
    ensures Midway(s, tx).removed == s.removed + InputsUpTo([tx], 1)
  {
    SpendingFrame(s, InputsOf(tx), 0);
    assert InputsOf(tx)[0..] == InputsOf(tx);
    InputsOfFirst([tx], 0);
  }

  /** New outpoints, of a hash never used or not at these positions, are admissible. */
  lemma FreshIsAdmissible(s: Overlay, tx: Transaction, height: int)
    requires Consistent(s) && Transfer(View(s), tx, height).Applied?
    requires forall k :: 0 <= k < |tx.outputs| ==> OutPoint(tx.hash, k) !in View(s) && OutPoint(tx.hash, k) !in s.removed
    ensures Admissible(Midway(s, tx), tx)
  {
    RemovedMidway(s, tx);
    InputsOfFirst([tx], 0);
    SpendFromFrame(View(s), InputsOf(tx), 0, 0);
    StoredIffConsistent(s);
    forall k | 0 <= k < |tx.outputs| ensures Addable(Midway(s, tx).db, Midway(s, tx).removed, OutPoint(tx.hash, k), tx.outputs[k].value) {
      WrittenAt(s, OutPoint(tx.hash, k));
    }
  }

  /**
   * The coinbases of blocks 91842 and 91880 repeat earlier ones. While those are unspent, or when
   * they were spent before the last flush, the repetition is handled as on the plain ledger.
   */
  lemma RepeatedCoinbaseIsHandled(s: Overlay, tx: Transaction, height: int)
    requires Consistent(s) && tx.IsCoinBase() && forall k :: 0 <= k < |tx.outputs| ==> tx.outputs[k].value > 0
    requires s.removed == {} || forall k :: 0 <= k < |tx.outputs| ==> OutPoint(tx.hash, k) in View(s)
    ensures Admissible(Midway(s, tx), tx) && (Transfer(View(s), tx, height).Applied? <==> OutputsFit(tx.outputs))
    ensures OutputsFit(tx.outputs) ==> Mirrors(AfterTransfer(s, tx, height), Transfer(View(s), tx, height).ledger)
  {
    forall k | 0 <= k < |tx.outputs| ensures Addable(Midway(s, tx).db, Midway(s, tx).removed, OutPoint(tx.hash, k), tx.outputs[k].value) {
      assert OutPoint(tx.hash, k) !in s.removed;
    }
    if OutputsFit(tx.outputs) {
      TransferRefines(s, tx, height);
    }
  }

  /** Every transaction is admissible where its turn comes. */
  predicate AdmissibleAll(s: Overlay, txs: seq<Transaction>, height: int)
    decreases |txs|
  {
    txs == [] || (Transfer(View(s), txs[0], height).Applied? ==>
      Admissible(Midway(s, txs[0]), txs[0]) && AdmissibleAll(AfterTransfer(s, txs[0], height), txs[1..], height))
  }

  /** The cache mirrors the plain ledger now and after each transaction. */
  predicate KeepsUp(s: Overlay, u: Ledger, txs: seq<Transaction>, height: int)
    decreases |txs|
  {
    Mirrors(s, u) && (txs == [] || (Transfer(u, txs[0], height).Applied? ==>
      KeepsUp(AfterTransfer(s, txs[0], height), Transfer(u, txs[0], height).ledger, txs[1..], height)))
  }

  lemma {:induction false} KeepsUpIffAdmissible(s: Overlay, txs: seq<Transaction>, height: int)
    requires Consistent(s)
    ensures KeepsUp(s, View(s), txs, height) <==> AdmissibleAll(s, txs, height)
    decreases |txs|
  {
    StoredIffConsistent(s);
    if txs != [] && Transfer(View(s), txs[0], height).Applied? {
      TransferRefines(s, txs[0], height);
      if Admissible(Midway(s, txs[0]), txs[0]) {
        KeepsUpIffAdmissible(AfterTransfer(s, txs[0], height), txs[1..], height);
      }
    }
  }

  function InputSet(tx: Transaction): set<OutPoint> {
    var inputs := InputsOf(tx);
    set o | o in inputs
  }

  /** The inputs of the first `n` transactions. */
  function InputsUpTo(txs: seq<Transaction>, n: nat): set<OutPoint>
    requires n <= |txs|
  {
    if n == 0 then {} else InputsUpTo(txs, n - 1) + InputSet(txs[n - 1])
  }

  lemma {:induction false} InputsOfFirst(txs: seq<Transaction>, n: nat)
    requires n < |txs|
    ensures InputsUpTo(txs, n + 1) == InputSet(txs[0]) + InputsUpTo(txs[1..], n)
  {
    if n > 0 {
      InputsOfFirst(txs, n - 1);
    }
  }

  /**
   * The condition for a block, without running the cache: each created outpoint is held against those
   * removed before and the inputs of its own and of earlier transactions.
   */
  predicate ClearOf(db: Ledger, removed: set<OutPoint>, txs: seq<Transaction>) {
    forall j {:trigger txs[j]} :: 0 <= j < |txs| ==> AdmissibleAt(db, removed + InputsUpTo(txs, j + 1), txs[j])
  }

  lemma ClearOfFirst(db: Ledger, removed: set<OutPoint>, txs: seq<Transaction>)
    requires txs != []
    ensures var later := removed + InputsUpTo(txs, 1);
            ClearOf(db, removed, txs) <==> AdmissibleAt(db, later, txs[0]) && ClearOf(db, later, txs[1..])
  {
    var later := removed + InputsUpTo(txs, 1);
    InputsOfFirst(txs, 0);
    forall j: nat {:trigger txs[j]} | 0 < j < |txs|
      ensures removed + InputsUpTo(txs, j + 1) == later + InputsUpTo(txs[1..], j) && txs[j] == txs[1..][j - 1]
    {
      InputsOfFirst(txs, j);
    }
  }

  /** A block that goes through on the plain ledger meets the condition step by step if and only if it meets it as a whole. */
  lemma {:induction false} AdmissibleAllIff(s: Overlay, txs: seq<Transaction>, height: int)
    requires Consistent(s) && TransferAll(View(s), txs, height).Applied?
    ensures AdmissibleAll(s, txs, height) <==> ClearOf(s.db, s.removed, txs)
    decreases |txs|
  {
    if txs != [] {
      RemovedMidway(s, txs[0]);
      InputsOfFirst(txs, 0);
      InputsOfFirst([txs[0]], 0);
      ClearOfFirst(s.db, s.removed, txs);
      TransferRefines(s, txs[0], height);
      CreatingFrame(Midway(s, txs[0]), txs[0], height, 0);
      if Admissible(Midway(s, txs[0]), txs[0]) {
        AdmissibleAllIff(AfterTransfer(s, txs[0], height), txs[1..], height);
      }
    }
  }

  lemma {:induction false} RemovedByTransfers(s: Overlay, txs: seq<Transaction>, height: int)
    ensures AfterTransfers(s, txs, height).db == s.db
    ensures AfterTransfers(s, txs, height).removed == s.removed + InputsUpTo(txs, |txs|)
    decreases |txs|
  {
    if txs != [] {
      RemovedMidway(s, txs[0]);
      InputsOfFirst([txs[0]], 0);
      InputsOfFirst(txs, |txs| - 1);
      CreatingFrame(Midway(s, txs[0]), txs[0], height, 0);
      RemovedByTransfers(AfterTransfer(s, txs[0], height), txs[1..], height);
    }
  }

  /** What the cache itself says of a block: the first verdict against one of its transactions. */
  function VerdictOn(s: Overlay, txs: seq<Transaction>, height: int): Verdict
    decreases |txs|
  {
    if txs == [] then Passes
    else match Transfer(View(s), txs[0], height).Verdict()
      case Passes => VerdictOn(AfterTransfer(s, txs[0], height), txs[1..], height)
      case failure => failure
  }

  lemma {:induction false} TransfersRefine(s: Overlay, txs: seq<Transaction>, height: int)
    requires Consistent(s) && AdmissibleAll(s, txs, height)
    ensures VerdictOn(s, txs, height) == TransferAll(View(s), txs, height).Verdict()
    ensures var t, r := AfterTransfers(s, txs, height), TransferAll(View(s), txs, height);
            r.Applied? ==> Consistent(t) && View(t) == r.ledger && t.db == s.db && t.dbBest == s.dbBest && t.best == s.best
    decreases |txs|
  {
    if txs != [] && Transfer(View(s), txs[0], height).Applied? {
      TransferRefines(s, txs[0], height);
      TransfersRefine(AfterTransfer(s, txs[0], height), txs[1..], height);
    }
  }

  // ----- whole runs

  datatype Step = Fetch(outPoint: OutPoint) | Connect(block: Block) | Flush

  function Apply(s: Overlay, step: Step): Overlay {
    match step
    case Fetch(o) => AfterFetch(s, o)
    case Connect(b) => AfterBlock(s, b)
    case Flush => AfterFlush(s)
  }

  function Run(s: Overlay, steps: seq<Step>): Overlay
    decreases |steps|
  {
    if steps == [] then s else Run(Apply(s, steps[0]), steps[1..])
  }

  function Connected(steps: seq<Step>): seq<Block> {
    if steps == [] then []
    else (if steps[0].Connect? then [steps[0].block] else []) + Connected(steps[1..])
  }

  predicate AdmissibleBlock(s: Overlay, b: Block) {
    AdmissibleAll(s.(best := b.hash), b.transactions, b.height)
  }

  lemma BlockRefines(s: Overlay, b: Block)
    requires Consistent(s) && AdmissibleBlock(s, b)
    ensures VerdictOn(s.(best := b.hash), b.transactions, b.height) == TransferAll(View(s), b.transactions, b.height).Verdict()
    ensures var t, r := AfterBlock(s, b), TransferAll(View(s), b.transactions, b.height);
            r.Applied? ==> Consistent(t) && View(t) == r.ledger && t.db == s.db && t.dbBest == s.dbBest && t.best == b.hash
  {
    var t := s.(best := b.hash);
    assert View(t) == View(s);
    TransfersRefine(t, b.transactions, b.height);
  }

  lemma FirstStep(steps: seq<Step>)
    requires steps != []
    ensures !steps[0].Connect? ==> Connected(steps) == Connected(steps[1..])
    ensures steps[0].Connect? ==> Connected(steps) == [steps[0].block] + Connected(steps[1..])
    ensures steps[0].Connect? ==> Connected(steps)[1..] == Connected(steps[1..])
  {
  }

  /** Every block of the run is admissible where its turn comes. */
  predicate AdmissibleRun(s: Overlay, steps: seq<Step>)
    decreases |steps|
  {
    steps == [] || ((steps[0].Connect? ==> AdmissibleBlock(s, steps[0].block)) && AdmissibleRun(Apply(s, steps[0]), steps[1..]))
  }

  /**
   * The condition for a run, on the plain ledger `u` alone: what was spent since the last flush stays
   * removed, and a flush makes the ledger the database.
   */
  predicate ClearRun(db: Ledger, removed: set<OutPoint>, u: Ledger, steps: seq<Step>)
    decreases |steps|
  {
    steps == [] ||
    match steps[0]
    case Fetch(_) => ClearRun(db, removed, u, steps[1..])
    case Flush => ClearRun(u, {}, u, steps[1..])
    case Connect(b) =>
      var r := TransferAll(u, b.transactions, b.height);
      && ClearOf(db, removed, b.transactions)
      && (r.Applied? ==> ClearRun(db, removed + InputsUpTo(b.transactions, |b.transactions|), r.ledger, steps[1..]))
  }

  /** A run that goes through on the plain ledger meets the condition step by step if and only if it meets it there. */
  lemma {:induction false} AdmissibleRunIff(s: Overlay, steps: seq<Step>)
    requires Consistent(s) && Replay(View(s), Connected(steps)).Applied?
    ensures AdmissibleRun(s, steps) <==> ClearRun(s.db, s.removed, View(s), steps)
    decreases |steps|
  {
    if steps != [] {
      FirstStep(steps);
      if steps[0].Connect? {
        var b := steps[0].block;
        MovedIsTheSame(s, b.hash);
        AdmissibleAllIff(s.(best := b.hash), b.transactions, b.height);
        RemovedByTransfers(s.(best := b.hash), b.transactions, b.height);
      }
      if steps[0].Flush? {
        StoredIffConsistent(s);
      }
      if steps[0].Connect? ==> AdmissibleBlock(s, steps[0].block) {
        StepRefines(s, steps);
        AdmissibleRunIff(Apply(s, steps[0]), steps[1..]);
      }
    }
  }

  /** The cache mirrors the plain ledger at each step of a run and after each transaction. */
  predicate RunKeepsUp(s: Overlay, u: Ledger, steps: seq<Step>)
    requires Replay(u, Connected(steps)).Applied?
    decreases |steps|
  {
    Mirrors(s, u) && (steps == [] ||
      if !steps[0].Connect? then FirstStep(steps); RunKeepsUp(Apply(s, steps[0]), u, steps[1..])
      else
        FirstStep(steps);
        var b := steps[0].block;
        && KeepsUp(s.(best := b.hash), u, b.transactions, b.height)
        && RunKeepsUp(Apply(s, steps[0]), TransferAll(u, b.transactions, b.height).ledger, steps[1..]))
  }

  lemma StepRefines(s: Overlay, steps: seq<Step>)
    requires steps != [] && Consistent(s) && (steps[0].Connect? ==> AdmissibleBlock(s, steps[0].block))
    requires Replay(View(s), Connected(steps)).Applied?
    ensures Consistent(Apply(s, steps[0]))
    ensures Replay(View(Apply(s, steps[0])), Connected(steps[1..])) == Replay(View(s), Connected(steps))
    ensures View(Apply(s, steps[0])) == if !steps[0].Connect? then View(s) else
              TransferAll(View(s), steps[0].block.transactions, steps[0].block.height).ledger
  {
    FirstStep(steps);
    match steps[0]
    case Fetch(o) =>
      FetchKeepsView(s, o);
    case Flush =>
      FlushStores(s);
    case Connect(b) =>
      BlockRefines(s, b);
  }

  /**
   * Over every run of fetches, admissible blocks and flushes, the cache and the database together
   * denote the replay of the connected blocks on the starting ledger.
   */
  lemma {:induction false} RunRefines(s: Overlay, steps: seq<Step>)
    requires Consistent(s) && AdmissibleRun(s, steps)
    requires Replay(View(s), Connected(steps)).Applied?
    ensures Consistent(Run(s, steps)) && Replay(View(s), Connected(steps)) == Applied(View(Run(s, steps)))
    decreases |steps|
  {
    if steps != [] {
      StepRefines(s, steps);
      RunRefines(Apply(s, steps[0]), steps[1..]);
    }
  }

  /** The cache keeps up with the plain ledger throughout a run if and only if every block of it is admissible. */
  lemma {:induction false} RunKeepsUpIffAdmissible(s: Overlay, steps: seq<Step>)
    requires Consistent(s) && Replay(View(s), Connected(steps)).Applied?
    ensures RunKeepsUp(s, View(s), steps) <==> AdmissibleRun(s, steps)
    decreases |steps|
  {
    StoredIffConsistent(s);
    if steps != [] {
      if steps[0].Connect? {
        MovedIsTheSame(s, steps[0].block.hash);
        KeepsUpIffAdmissible(s.(best := steps[0].block.hash), steps[0].block.transactions, steps[0].block.height);
      }
      if steps[0].Connect? ==> AdmissibleBlock(s, steps[0].block) {
        StepRefines(s, steps);
        RunKeepsUpIffAdmissible(Apply(s, steps[0]), steps[1..]);
      }
    }
  }

  lemma MovedIsTheSame(s: Overlay, best: nat)
    ensures View(s.(best := best)) == View(s) && (Consistent(s) ==> Consistent(s.(best := best)))
  {
  }

  /** The best block recorded after the first `k` blocks of a run that started at `start`. */
  function BestAfter(start: nat, blocks: seq<Block>, k: nat): nat
    requires k <= |blocks|
  {
    if k == 0 then start else blocks[k - 1].hash
  }

  lemma {:induction false} ReplayOneMore(u: Ledger, blocks: seq<Block>, b: Block)
    requires Replay(u, blocks).Applied?
    ensures Replay(u, blocks + [b]) == TransferAll(Replay(u, blocks).ledger, b.transactions, b.height)
    decreases |blocks|
  {
    if blocks == [] {
      assert (blocks + [b])[1..] == [];
    } else {
      ReplayOneMore(TransferAll(u, blocks[0].transactions, blocks[0].height).ledger, blocks[1..], b);
      assert (blocks + [b])[1..] == blocks[1..] + [b];
    }
  }

  /**
   * `s` is a state of a run that started on ledger `u` with best block `start` and has
   * connected the blocks `done`; the database holds the replay of the first `stored` of them.
   */
  predicate Tracks(s: Overlay, u: Ledger, start: nat, done: seq<Block>, stored: nat) {
    && stored <= |done|
    && Replay(u, done) == Applied(View(s)) && s.best == BestAfter(start, done, |done|)
    && Replay(u, done[..stored]) == Applied(s.db) && s.dbBest == BestAfter(start, done, stored)
  }

  lemma FetchTracks(s: Overlay, u: Ledger, start: nat, done: seq<Block>, stored: nat, o: OutPoint)
    requires Consistent(s) && Tracks(s, u, start, done, stored)
    ensures Tracks(AfterFetch(s, o), u, start, done, stored)
  {
    FetchKeepsView(s, o);
  }

  lemma FlushTracks(s: Overlay, u: Ledger, start: nat, done: seq<Block>, stored: nat)
    requires Consistent(s) && Tracks(s, u, start, done, stored)
    ensures Tracks(AfterFlush(s), u, start, done, |done|)
  {
    FlushStores(s);
    assert done[..|done|] == done;
  }

  lemma ConnectTracks(s: Overlay, u: Ledger, start: nat, done: seq<Block>, stored: nat, b: Block)
    requires Consistent(s) && AdmissibleBlock(s, b)
    requires Tracks(s, u, start, done, stored) && TransferAll(View(s), b.transactions, b.height).Applied?
    ensures Tracks(AfterBlock(s, b), u, start, done + [b], stored)
  {
    BlockRefines(s, b);
    ReplayOneMore(u, done, b);
    assert (done + [b])[..stored] == done[..stored];
  }

  /** One step keeps track. */
  lemma StepTracks(s: Overlay, u: Ledger, start: nat, done: seq<Block>, stored: nat, steps: seq<Step>)
    returns (done': seq<Block>, stored': nat)
    requires steps != [] && Consistent(s) && (steps[0].Connect? ==> AdmissibleBlock(s, steps[0].block))
    requires Tracks(s, u, start, done, stored) && Replay(View(s), Connected(steps)).Applied?
    ensures Tracks(Apply(s, steps[0]), u, start, done', stored') && stored <= stored'
    ensures done' + Connected(steps[1..]) == done + Connected(steps)
  {
    done', stored' := done, stored;
    FirstStep(steps);
    match steps[0]
    case Fetch(o) =>
      FetchTracks(s, u, start, done, stored, o);
    case Flush =>
      FlushTracks(s, u, start, done, stored);
      stored' := |done|;
    case Connect(b) =>
      ConnectTracks(s, u, start, done, stored, b);
      done' := done + [b];
      assert done + [b] + Connected(steps[1..]) == done + ([b] + Connected(steps[1..]));
  }

  /**
   * At every moment, whatever was cached, the database alone is the replay of the blocks up
   * to the best block stored in it: a node that stops here restarts on a ledger some block
   * ended with.
   */
  lemma {:induction false} DatabaseIsAReplay(s: Overlay, u: Ledger, start: nat, done: seq<Block>, stored: nat, steps: seq<Step>)
    returns (k: nat)
    requires Consistent(s) && AdmissibleRun(s, steps)
    requires Tracks(s, u, start, done, stored) && Replay(View(s), Connected(steps)).Applied?
    ensures stored <= k && Tracks(Run(s, steps), u, start, done + Connected(steps), k)
    decreases |steps|
  {
    if steps == [] {
      k := stored;
      assert done + Connected(steps) == done;
    } else {
      var done', stored' := StepTracks(s, u, start, done, stored, steps);
      StepRefines(s, steps);
      k := DatabaseIsAReplay(Apply(s, steps[0]), u, start, done', stored', steps[1..]);
    }
  }
}
