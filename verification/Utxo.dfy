/** Coins, transactions and the plain ledger: a map from outpoints to unspent coins. */
module Utxo {

  /** Values and their sums are kept in signed 64-bit integers. */
  predicate Fits(x: int) {
    -0x8000_0000_0000_0000 <= x < 0x8000_0000_0000_0000
  }

  type int64 = x: int | Fits(x)

  datatype OutPoint = OutPoint(hash: nat, index: nat)

  datatype TxOut = TxOut(value: int64, script: string)

  datatype Coin = Coin(output: TxOut, height: int, isCoinBase: bool)

  /** `inputs` are the previous outputs being spent. */
  datatype Transaction = Transaction(hash: nat, inputs: seq<OutPoint>, outputs: seq<TxOut>) {
    predicate IsCoinBase() {
      |inputs| == 1 && inputs[0].hash == 0
    }

    predicate Creates(o: OutPoint) {
      o.hash == hash && o.index < |outputs|
    }
  }

  type Ledger = map<OutPoint, Coin>

  predicate Positive(u: Ledger) {
    forall o :: o in u ==> u[o].output.value > 0
  }

  /** Coins without value count as absent. */
  function Put(u: Ledger, o: OutPoint, c: Coin): Ledger {
    if c.output.value > 0 then u[o := c] else u - {o}
  }

  datatype Spending = Spent(ledger: Ledger, total: int) | Missing(outPoint: OutPoint) | TooMuch

  /** Take inputs `i` and later off the ledger one by one, adding up what they were worth as long as that fits. */
  function SpendFrom(u: Ledger, inputs: seq<OutPoint>, i: nat, total: int): Spending
    requires i <= |inputs|
    decreases |inputs| - i
  {
    if i == |inputs| then Spent(u, total)
    else if inputs[i] !in u then Missing(inputs[i])
    else if !Fits(total + u[inputs[i]].output.value) then TooMuch
    else SpendFrom(u - {inputs[i]}, inputs, i + 1, total + u[inputs[i]].output.value)
  }

  function CreateFrom(u: Ledger, tx: Transaction, height: int, i: nat): Ledger
    requires i <= |tx.outputs|
    decreases |tx.outputs| - i
  {
    if i == |tx.outputs| then u
    else CreateFrom(Put(u, OutPoint(tx.hash, i), Coin(tx.outputs[i], height, tx.IsCoinBase())), tx, height, i + 1)
  }

  function OutputTotal(outputs: seq<TxOut>, i: nat): int
    requires i <= |outputs|
  {
    if i == 0 then 0 else OutputTotal(outputs, i - 1) + outputs[i - 1].value
  }

  function InputsOf(tx: Transaction): seq<OutPoint> {
    if tx.IsCoinBase() then [] else tx.inputs
  }

  /** No sum on the way through the outputs leaves its 64 bits. */
  predicate OutputsFit(outputs: seq<TxOut>) {
    forall i {:trigger OutputTotal(outputs, i)} :: 0 <= i <= |outputs| ==> Fits(OutputTotal(outputs, i))
  }

  /** What the code says of a transaction: it goes through, trips an assertion, or overflows a sum, which C++ leaves undefined. */
  datatype Verdict = Passes | AssertionFails | Overflows

  datatype Outcome = Applied(ledger: Ledger) | Refused | Overflowed {
    function Verdict(): (v: Verdict)
      ensures (v == Passes <==> Applied?) && (v == Overflows <==> Overflowed?) && (v == AssertionFails <==> Refused?)
    {
      match this
      case Applied(_) => Passes
      case Refused => AssertionFails
      case Overflowed => Overflows
    }
  }

  /** One transaction on the plain ledger; refused when an input is missing or they are worth less than the outputs. */
  function Transfer(u: Ledger, tx: Transaction, height: int): Outcome {
    match SpendFrom(u, InputsOf(tx), 0, 0)
    case Missing(_) => Refused
    case TooMuch => Overflowed
    case Spent(v, total) =>
      if !OutputsFit(tx.outputs) then Overflowed
      else if !tx.IsCoinBase() && total < OutputTotal(tx.outputs, |tx.outputs|) then Refused
      else Applied(CreateFrom(v, tx, height, 0))
  }

  function TransferAll(u: Ledger, txs: seq<Transaction>, height: int): Outcome
    decreases |txs|
  {
    if txs == [] then Applied(u)
    else match Transfer(u, txs[0], height)
      case Applied(v) => TransferAll(v, txs[1..], height)
      case failure => failure
  }

  datatype Block = Block(hash: nat, height: int, transactions: seq<Transaction>)

  function Replay(u: Ledger, blocks: seq<Block>): Outcome
    decreases |blocks|
  {
    if blocks == [] then Applied(u)
    else match TransferAll(u, blocks[0].transactions, blocks[0].height)
      case Applied(v) => Replay(v, blocks[1..])
      case failure => failure
  }

  // ----- what one transaction does

  lemma {:induction false} SpendFromFrame(u: Ledger, inputs: seq<OutPoint>, i: nat, total: int)
    requires i <= |inputs|
    ensures var r := SpendFrom(u, inputs, i, total);
            r.Spent? ==>
              && r.ledger == u - (set j | i <= j < |inputs| :: inputs[j])
              && (forall j :: i <= j < |inputs| ==> inputs[j] in u)
              && (forall j, k :: i <= j < k < |inputs| ==> inputs[j] != inputs[k])
    decreases |inputs| - i
  {
    if i < |inputs| && inputs[i] in u && Fits(total + u[inputs[i]].output.value) {
      SpendFromFrame(u - {inputs[i]}, inputs, i + 1, total + u[inputs[i]].output.value);
      assert (set j | i <= j < |inputs| :: inputs[j]) == {inputs[i]} + (set j | i + 1 <= j < |inputs| :: inputs[j]);
    }
  }

  lemma {:induction false} CreateFromFrame(u: Ledger, tx: Transaction, height: int, i: nat)
    requires i <= |tx.outputs|
    ensures var r := CreateFrom(u, tx, height, i);
            && (forall o :: !tx.Creates(o) || o.index < i ==> (o in r <==> o in u))
            && (forall o :: o in r && (!tx.Creates(o) || o.index < i) ==> r[o] == u[o])
            && (forall k :: i <= k < |tx.outputs| ==>
                  (OutPoint(tx.hash, k) in r <==> tx.outputs[k].value > 0))
            && (forall k :: i <= k < |tx.outputs| && tx.outputs[k].value > 0 ==>
                  r[OutPoint(tx.hash, k)] == Coin(tx.outputs[k], height, tx.IsCoinBase()))
    decreases |tx.outputs| - i
  {
    if i < |tx.outputs| {
      CreateFromFrame(Put(u, OutPoint(tx.hash, i), Coin(tx.outputs[i], height, tx.IsCoinBase())), tx, height, i + 1);
    }
  }

  /**
   * The ledger after a transaction: the inputs are gone, the outputs with a value are
   * there, everything else is untouched; no input is named twice and each was unspent.
   */
  lemma TransferEffect(u: Ledger, tx: Transaction, height: int)
    requires Transfer(u, tx, height).Applied?
    ensures var v, inputs := Transfer(u, tx, height).ledger, InputsOf(tx);
            && (forall j :: 0 <= j < |inputs| ==> inputs[j] in u)
            && (forall j, k :: 0 <= j < k < |inputs| ==> inputs[j] != inputs[k])
            && (forall o :: o in v <==> if tx.Creates(o) then tx.outputs[o.index].value > 0 else o in u && o !in inputs)
            && (forall o :: o in v ==>
                  v[o] == if tx.Creates(o) then Coin(tx.outputs[o.index], height, tx.IsCoinBase()) else u[o])
  {
    var inputs := InputsOf(tx);
    SpendFromFrame(u, inputs, 0, 0);
    var spent := SpendFrom(u, inputs, 0, 0).ledger;
    CreateFromFrame(spent, tx, height, 0);
    var v := Transfer(u, tx, height).ledger;
    forall o | tx.Creates(o)
      ensures o in v <==> tx.outputs[o.index].value > 0
      ensures o in v ==> v[o] == Coin(tx.outputs[o.index], height, tx.IsCoinBase())
    {
      assert o == OutPoint(tx.hash, o.index);
    }
  }

  /** A transaction with one input, which names the null hash, spends nothing and can only overflow; its coins are marked. */
  lemma CoinBaseApplies(u: Ledger, tx: Transaction, height: int)
    requires |tx.inputs| == 1 && tx.inputs[0].hash == 0 && OutputsFit(tx.outputs)
    ensures Transfer(u, tx, height) == Applied(CreateFrom(u, tx, height, 0))
    ensures var v := Transfer(u, tx, height).ledger;
            && (forall o :: o in u && o.hash != tx.hash ==> o in v && v[o] == u[o])
            && (forall k :: 0 <= k < |tx.outputs| && tx.outputs[k].value > 0 ==>
                  OutPoint(tx.hash, k) in v && v[OutPoint(tx.hash, k)] == Coin(tx.outputs[k], height, true))
  {
    TransferEffect(u, tx, height);
    forall k | 0 <= k < |tx.outputs| && tx.outputs[k].value > 0
      ensures OutPoint(tx.hash, k) in Transfer(u, tx, height).ledger
    {
      assert tx.Creates(OutPoint(tx.hash, k));
    }
  }

  /** Any other transaction that goes through spends each of its inputs, and its coins are not marked. */
  lemma OrdinarySpendsAll(u: Ledger, tx: Transaction, height: int)
    requires (|tx.inputs| != 1 || tx.inputs[0].hash != 0) && Transfer(u, tx, height).Applied?
    ensures var v := Transfer(u, tx, height).ledger;
            && (forall j :: 0 <= j < |tx.inputs| ==>
                  tx.inputs[j] in u && (tx.inputs[j] in v ==> tx.inputs[j].hash == tx.hash && tx.inputs[j].index < |tx.outputs|))
            && (forall i, j :: 0 <= i < j < |tx.inputs| ==> tx.inputs[i] != tx.inputs[j])
            && (forall k :: 0 <= k < |tx.outputs| && tx.outputs[k].value > 0 ==>
                  OutPoint(tx.hash, k) in v && v[OutPoint(tx.hash, k)] == Coin(tx.outputs[k], height, false))
  {
    TransferEffect(u, tx, height);
    forall k | 0 <= k < |tx.outputs| && tx.outputs[k].value > 0
      ensures OutPoint(tx.hash, k) in Transfer(u, tx, height).ledger
    {
      assert tx.Creates(OutPoint(tx.hash, k));
    }
  }

  lemma TransferKeepsPositive(u: Ledger, tx: Transaction, height: int)
    requires Positive(u) && Transfer(u, tx, height).Applied?
    ensures Positive(Transfer(u, tx, height).ledger)
  {
    TransferEffect(u, tx, height);
  }

  lemma {:induction false} TransferAllKeepsPositive(u: Ledger, txs: seq<Transaction>, height: int)
    requires Positive(u) && TransferAll(u, txs, height).Applied?
    ensures Positive(TransferAll(u, txs, height).ledger)
    decreases |txs|
  {
    if txs != [] {
      TransferKeepsPositive(u, txs[0], height);
      TransferAllKeepsPositive(Transfer(u, txs[0], height).ledger, txs[1..], height);
    }
  }
}
