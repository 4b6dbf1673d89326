/** What transactions and blocks do to the value and to the number of unspent coins, whatever their outputs are. */
module Conservation {
  import opened Utxo

  // ----- value

  /** The value of all unspent coins. */
  ghost function Total(u: Ledger): int
    decreases |u|
  {
    if u == map[] then 0 else
      var o :| o in u;
      u[o].output.value + Total(u - {o})
  }

  lemma {:induction false} TotalWithout(u: Ledger, o: OutPoint)
    requires o in u
    ensures Total(u) == u[o].output.value + Total(u - {o})
    decreases |u|
  {
    var p :| p in u && Total(u) == u[p].output.value + Total(u - {p});
    if p != o {
      TotalWithout(u - {p}, o);
      TotalWithout(u - {o}, p);
      assert u - {p} - {o} == u - {o} - {p};
    }
  }

  function ValueAt(u: Ledger, o: OutPoint): int {
    if o in u then u[o].output.value else 0
  }

  lemma TotalOfPut(u: Ledger, o: OutPoint, c: Coin)
    ensures Total(Put(u, o, c)) == Total(u) - ValueAt(u, o) + if c.output.value > 0 then c.output.value else 0
  {
    var rest := u - {o};
    if o in u {
      TotalWithout(u, o);
    } else {
      assert rest == u;
    }
    if c.output.value > 0 {
      TotalWithout(u[o := c], o);
      assert u[o := c] - {o} == rest;
    }
  }

  lemma {:induction false} SpendingTotal(u: Ledger, inputs: seq<OutPoint>, i: nat, total: int)
    requires i <= |inputs|
    ensures var r := SpendFrom(u, inputs, i, total);
            r.Spent? ==> Total(r.ledger) + r.total == Total(u) + total
    decreases |inputs| - i
  {
    if i < |inputs| && inputs[i] in u && Fits(total + u[inputs[i]].output.value) {
      TotalWithout(u, inputs[i]);
      SpendingTotal(u - {inputs[i]}, inputs, i + 1, total + u[inputs[i]].output.value);
    }
  }

  function Deficit(value: int): nat {
    if value < 0 then -value else 0
  }

  /** By how much the outputs from `i` on exceed their own sum, because only those with a value count. */
  function MintedFrom(outputs: seq<TxOut>, i: nat): (n: nat)
    requires i <= |outputs|
    ensures n == 0 <==> forall k :: i <= k < |outputs| ==> outputs[k].value >= 0
    decreases |outputs| - i
  {
    if i == |outputs| then 0
    else Deficit(outputs[i].value) + MintedFrom(outputs, i + 1)
  }

  /** The unspent value that outputs `i` and later replace: a created outpoint may hold a coin already. */
  function OverwrittenFrom(u: Ledger, tx: Transaction, i: nat): int
    requires i <= |tx.outputs|
    decreases |tx.outputs| - i
  {
    if i == |tx.outputs| then 0 else ValueAt(u, OutPoint(tx.hash, i)) + OverwrittenFrom(u, tx, i + 1)
  }

  lemma {:induction false} OverwrittenSame(u: Ledger, v: Ledger, tx: Transaction, i: nat)
    requires i <= |tx.outputs|
    requires forall k :: i <= k < |tx.outputs| ==> ValueAt(u, OutPoint(tx.hash, k)) == ValueAt(v, OutPoint(tx.hash, k))
    ensures OverwrittenFrom(u, tx, i) == OverwrittenFrom(v, tx, i)
    decreases |tx.outputs| - i
  {
    if i < |tx.outputs| {
      OverwrittenSame(u, v, tx, i + 1);
    }
  }

  lemma {:induction false} OverwrittenIsPositive(u: Ledger, tx: Transaction, i: nat)
    requires Positive(u) && i <= |tx.outputs|
    ensures OverwrittenFrom(u, tx, i) >= 0
    ensures OverwrittenFrom(u, tx, i) == 0 <==> forall k :: i <= k < |tx.outputs| ==> OutPoint(tx.hash, k) !in u
    decreases |tx.outputs| - i
  {
    if i < |tx.outputs| {
      OverwrittenIsPositive(u, tx, i + 1);
    }
  }

  lemma {:induction false} CreatingTotal(u: Ledger, tx: Transaction, height: int, i: nat)
    requires i <= |tx.outputs|
    ensures Total(CreateFrom(u, tx, height, i)) + OutputTotal(tx.outputs, i)
            == Total(u) + OutputTotal(tx.outputs, |tx.outputs|) + MintedFrom(tx.outputs, i) - OverwrittenFrom(u, tx, i)
    decreases |tx.outputs| - i
  {
    if i < |tx.outputs| {
      var o, c := OutPoint(tx.hash, i), Coin(tx.outputs[i], height, tx.IsCoinBase());
      TotalOfPut(u, o, c);
      CreatingTotal(Put(u, o, c), tx, height, i + 1);
      OverwrittenSame(u, Put(u, o, c), tx, i + 1);
    }
  }

  function SpentValue(u: Ledger, tx: Transaction): int {
    match SpendFrom(u, InputsOf(tx), 0, 0)
    case Spent(_, total) => total
    case _ => 0
  }

  /** The ledger between the two halves of a transaction. */
  function AfterInputs(u: Ledger, tx: Transaction): Ledger {
    match SpendFrom(u, InputsOf(tx), 0, 0)
    case Spent(v, _) => v
    case _ => u
  }

  function Minted(tx: Transaction): nat {
    MintedFrom(tx.outputs, 0)
  }

  function Overwritten(u: Ledger, tx: Transaction): int {
    OverwrittenFrom(AfterInputs(u, tx), tx, 0)
  }

  /**
   * The whole account of a transaction: what its inputs held leaves, the sum of its outputs enters;
   * negative outputs count in that sum but not on the ledger, and coins at created outpoints are replaced.
   */
  lemma TransferConserves(u: Ledger, tx: Transaction, height: int)
    requires Transfer(u, tx, height).Applied?
    ensures Total(Transfer(u, tx, height).ledger)
            == Total(u) - SpentValue(u, tx) + OutputTotal(tx.outputs, |tx.outputs|) + Minted(tx) - Overwritten(u, tx)
    ensures if tx.IsCoinBase() then SpentValue(u, tx) == 0 else SpentValue(u, tx) >= OutputTotal(tx.outputs, |tx.outputs|)
    ensures Minted(tx) == 0 <==> forall k :: 0 <= k < |tx.outputs| ==> tx.outputs[k].value >= 0
    ensures Positive(u) ==> Overwritten(u, tx) >= 0
  {
    SpendingTotal(u, InputsOf(tx), 0, 0);
    SpendFromFrame(u, InputsOf(tx), 0, 0);
    CreatingTotal(AfterInputs(u, tx), tx, height, 0);
    if Positive(u) {
      OverwrittenIsPositive(AfterInputs(u, tx), tx, 0);
    }
  }

  /** One coin of value 1, spent into outputs of 1000 and -999, leaves 1000: no check stands against it. */
  lemma NegativeOutputMints(o: OutPoint, c: Coin, tx: Transaction, height: int)
    requires c.output.value == 1 && o.hash != 0 && tx.inputs == [o]
    requires |tx.outputs| == 2 && tx.outputs[0].value == 1000 && tx.outputs[1].value == -999
    ensures var u: Ledger := map[o := c];
            && Transfer(u, tx, height).Applied?
            && Total(u) == 1 && Total(Transfer(u, tx, height).ledger) == 1000
  {
    var u: Ledger := map[o := c];
    TotalWithout(u, o);
    var none := u - {o};
    assert |none| == 0;
    assert SpendFrom(none, tx.inputs, 1, 1) == Spent(none, 1);
    assert SpendFrom(u, tx.inputs, 0, 0) == SpendFrom(none, tx.inputs, 1, 1);
    TwoOutputs(tx.outputs);
    TransferConserves(u, tx, height);
    OverwrittenIsPositive(AfterInputs(u, tx), tx, 0);
  }

  lemma TwoOutputs(outputs: seq<TxOut>)
    requires |outputs| == 2
    ensures OutputTotal(outputs, 2) == outputs[0].value + outputs[1].value
    ensures MintedFrom(outputs, 0) == Deficit(outputs[0].value) + Deficit(outputs[1].value)
  {
    var i: nat := 1;
    assert OutputTotal(outputs, i) == OutputTotal(outputs, i - 1) + outputs[i - 1].value;
    assert MintedFrom(outputs, i + 1) == 0;
    assert MintedFrom(outputs, i) == Deficit(outputs[i].value) + MintedFrom(outputs, i + 1);
  }

  // ----- sums that leave 64 bits

  /** The sum of the first `i` inputs. */
  function InputTotal(u: Ledger, inputs: seq<OutPoint>, i: nat): int
    requires i <= |inputs|
  {
    if i == 0 then 0 else InputTotal(u, inputs, i - 1) + ValueAt(u, inputs[i - 1])
  }

  /** The first `i` inputs are unspent, each named once. */
  predicate FirstThere(u: Ledger, inputs: seq<OutPoint>, i: nat)
    requires i <= |inputs|
  {
    && (forall j :: 0 <= j < i ==> inputs[j] in u)
    && (forall j, k :: 0 <= j < k < i ==> inputs[j] != inputs[k])
  }

  /** No sum on the way through the inputs, as far as they are there, leaves its 64 bits. */
  predicate InputsFit(u: Ledger, inputs: seq<OutPoint>) {
    forall i: nat {:trigger InputTotal(u, inputs, i)} ::
      i <= |inputs| && FirstThere(u, inputs, i) ==> Fits(InputTotal(u, inputs, i))
  }

  /** Neither sum of a transaction leaves its 64 bits; outputs are added up only once all inputs have been found. */
  predicate SumsFit(u: Ledger, tx: Transaction) {
    && InputsFit(u, InputsOf(tx))
    && (FirstThere(u, InputsOf(tx), |InputsOf(tx)|) ==> OutputsFit(tx.outputs))
  }

  /** The first `i` inputs as a set. */
  function Named(inputs: seq<OutPoint>, i: nat): set<OutPoint>
    requires i <= |inputs|
  {
    set o | o in inputs[..i]
  }

  lemma NamedOneMore(inputs: seq<OutPoint>, i: nat)
    requires i < |inputs|
    ensures Named(inputs, 0) == {} && Named(inputs, i + 1) == Named(inputs, i) + {inputs[i]}
    ensures inputs[i] in Named(inputs, i) <==> exists j :: 0 <= j < i && inputs[j] == inputs[i]
  {
    assert inputs[..i + 1] == inputs[..i] + [inputs[i]];
  }

  /** Where the loop over the inputs stands after `i` of them. */
  ghost predicate SpentUpTo(u: Ledger, inputs: seq<OutPoint>, i: nat, w: Ledger, total: int) {
    && i <= |inputs| && FirstThere(u, inputs, i) && total == InputTotal(u, inputs, i)
    && w == u - Named(inputs, i)
  }

  lemma SpendOneMore(u: Ledger, inputs: seq<OutPoint>, i: nat, w: Ledger, total: int)
    requires SpentUpTo(u, inputs, i, w, total) && i < |inputs|
    ensures inputs[i] in w <==> FirstThere(u, inputs, i + 1)
    ensures inputs[i] in w ==> SpentUpTo(u, inputs, i + 1, w - {inputs[i]}, total + w[inputs[i]].output.value)
  {
    NamedOneMore(inputs, i);
    assert w - {inputs[i]} == u - Named(inputs, i + 1);
  }

  /** The loop goes through exactly when all inputs are there and all sums fit, and overflows at the first that does not. */
  lemma {:induction false} SpendingFits(u: Ledger, inputs: seq<OutPoint>, i: nat, w: Ledger, total: int)
    requires SpentUpTo(u, inputs, i, w, total)
    requires forall k: nat {:trigger InputTotal(u, inputs, k)} :: k <= i ==> Fits(InputTotal(u, inputs, k))
    ensures SpendFrom(w, inputs, i, total).TooMuch? <==> !InputsFit(u, inputs)
    ensures SpendFrom(w, inputs, i, total).Spent? <==> FirstThere(u, inputs, |inputs|) && InputsFit(u, inputs)
    decreases |inputs| - i
  {
    if i < |inputs| {
      SpendOneMore(u, inputs, i, w, total);
      if inputs[i] in w {
        var next := total + w[inputs[i]].output.value;
        assert next == InputTotal(u, inputs, i + 1);
        if Fits(next) {
          SpendingFits(u, inputs, i + 1, w - {inputs[i]}, next);
        }
      } else {
        NotBeyond(u, inputs, i);
      }
    }
  }

  lemma NotBeyond(u: Ledger, inputs: seq<OutPoint>, i: nat)
    requires i < |inputs| && !FirstThere(u, inputs, i + 1)
    ensures forall k: nat :: i < k <= |inputs| ==> !FirstThere(u, inputs, k)
  {
  }

  /** A transaction overflows if and only if one of its prefix sums does not fit. */
  lemma {:induction false} OverflowIff(u: Ledger, tx: Transaction, height: int)
    ensures Transfer(u, tx, height).Overflowed? <==> !SumsFit(u, tx)
  {
    var inputs := InputsOf(tx);
    assert u - Named(inputs, 0) == u;
    SpendingFits(u, inputs, 0, u, 0);
  }

  /**
   * When a transaction goes through: its sums fit, and it is a coinbase, or its inputs are all unspent,
   * distinct, and worth at least its outputs.
   */
  lemma {:induction false} AppliedIff(u: Ledger, tx: Transaction, height: int)
    ensures Transfer(u, tx, height).Applied? <==>
            if |tx.inputs| == 1 && tx.inputs[0].hash == 0 then OutputsFit(tx.outputs)
            else && FirstThere(u, tx.inputs, |tx.inputs|) && InputsFit(u, tx.inputs) && OutputsFit(tx.outputs)
                 && InputTotal(u, tx.inputs, |tx.inputs|) >= OutputTotal(tx.outputs, |tx.outputs|)
  {
    var inputs := InputsOf(tx);
    assert u - Named(inputs, 0) == u;
    SpendingFits(u, inputs, 0, u, 0);
    if SpendFrom(u, inputs, 0, 0).Spent? {
      SpendingGives(u, inputs, 0, u, 0);
    }
  }

  /** No transaction overflows where its turn comes. */
  predicate AllSumsFit(u: Ledger, txs: seq<Transaction>, height: int)
    decreases |txs|
  {
    txs == [] || (
      && SumsFit(u, txs[0])
      && (Transfer(u, txs[0], height).Applied? ==> AllSumsFit(Transfer(u, txs[0], height).ledger, txs[1..], height))
    )
  }

  predicate AllSumsFitInBlocks(u: Ledger, blocks: seq<Block>)
    decreases |blocks|
  {
    blocks == [] || (
      var r := TransferAll(u, blocks[0].transactions, blocks[0].height);
      && AllSumsFit(u, blocks[0].transactions, blocks[0].height)
      && (r.Applied? ==> AllSumsFitInBlocks(r.ledger, blocks[1..]))
    )
  }

  lemma {:induction false} TransactionsOverflowIff(u: Ledger, txs: seq<Transaction>, height: int)
    ensures TransferAll(u, txs, height).Overflowed? <==> !AllSumsFit(u, txs, height)
    decreases |txs|
  {
    if txs != [] {
      OverflowIff(u, txs[0], height);
      if Transfer(u, txs[0], height).Applied? {
        TransactionsOverflowIff(Transfer(u, txs[0], height).ledger, txs[1..], height);
      }
    }
  }

  /** A run overflows if and only if a prefix sum of one of its transactions does not fit where its turn comes. */
  lemma {:induction false} BlocksOverflowIff(u: Ledger, blocks: seq<Block>)
    ensures Replay(u, blocks).Overflowed? <==> !AllSumsFitInBlocks(u, blocks)
    decreases |blocks|
  {
    if blocks != [] {
      var r := TransferAll(u, blocks[0].transactions, blocks[0].height);
      TransactionsOverflowIff(u, blocks[0].transactions, blocks[0].height);
      if r.Applied? {
        BlocksOverflowIff(r.ledger, blocks[1..]);
      }
    }
  }

  /** What is left in 64 bits of a sum that does not fit, where signed addition wraps. */
  function Wrapped(x: int): int {
    (x + 0x8000_0000_0000_0000) % 0x1_0000_0000_0000_0000 - 0x8000_0000_0000_0000
  }

  /** The code where signed addition wraps: it compares what is left of the two sums. */
  function WrappingTransfer(u: Ledger, tx: Transaction, height: int): Outcome {
    var inputs := InputsOf(tx);
    if !FirstThere(u, inputs, |inputs|) then Refused
    else if !tx.IsCoinBase() && Wrapped(InputTotal(u, inputs, |inputs|)) < Wrapped(OutputTotal(tx.outputs, |tx.outputs|)) then Refused
    else Applied(CreateFrom(u - Named(inputs, |inputs|), tx, height, 0))
  }

  lemma {:induction false} SpendingGives(u: Ledger, inputs: seq<OutPoint>, i: nat, w: Ledger, total: int)
    requires SpentUpTo(u, inputs, i, w, total) && SpendFrom(w, inputs, i, total).Spent?
    ensures var r := SpendFrom(w, inputs, i, total);
            SpentUpTo(u, inputs, |inputs|, r.ledger, r.total)
    decreases |inputs| - i
  {
    if i < |inputs| {
      SpendOneMore(u, inputs, i, w, total);
      SpendingGives(u, inputs, i + 1, w - {inputs[i]}, total + w[inputs[i]].output.value);
    }
  }

  /** As long as the sums fit, wrapping makes no difference. */
  lemma {:induction false} WrappingIsTransfer(u: Ledger, tx: Transaction, height: int)
    requires SumsFit(u, tx)
    ensures WrappingTransfer(u, tx, height) == Transfer(u, tx, height)
  {
    var inputs := InputsOf(tx);
    assert u - Named(inputs, 0) == u;
    SpendingFits(u, inputs, 0, u, 0);
    if FirstThere(u, inputs, |inputs|) {
      SpendingGives(u, inputs, 0, u, 0);
      WrapNothing(InputTotal(u, inputs, |inputs|));
      WrapNothing(OutputTotal(tx.outputs, |tx.outputs|));
    }
  }

  lemma WrapNothing(x: int)
    requires Fits(x)
    ensures Wrapped(x) == x
  {
  }

  /**
   * One coin of value 1, spent into outputs of 2^63 - 1 and 2, neither negative: the sum of the outputs
   * overflows, and where it wraps, the transaction is accepted and leaves 2^63 + 1.
   */
  lemma OverflowMints(o: OutPoint, c: Coin, tx: Transaction, height: int)
    requires c.output.value == 1 && o.hash != 0 && tx.inputs == [o]
    requires |tx.outputs| == 2 && tx.outputs[0].value == 0x7FFF_FFFF_FFFF_FFFF && tx.outputs[1].value == 2
    ensures var u: Ledger := map[o := c];
            && Minted(tx) == 0 && Transfer(u, tx, height) == Overflowed && WrappingTransfer(u, tx, height).Applied?
            && Total(u) == 1 && Total(WrappingTransfer(u, tx, height).ledger) == 0x8000_0000_0000_0001
  {
    var u: Ledger := map[o := c];
    TwoOutputs(tx.outputs);
    assert !Fits(OutputTotal(tx.outputs, 2));
    OneInput(u, o);
    OverflowIff(u, tx, height);
    OneCoinReplaced(o, c, tx, height);
  }

  /** Putting the outputs of a transaction in the place of the only coin. */
  lemma OneCoinReplaced(o: OutPoint, c: Coin, tx: Transaction, height: int)
    ensures var u: Ledger := map[o := c];
            && Total(u) == c.output.value
            && Total(CreateFrom(u - {o}, tx, height, 0)) == OutputTotal(tx.outputs, |tx.outputs|) + Minted(tx)
  {
    var u: Ledger := map[o := c];
    TotalWithout(u, o);
    var none := u - {o};
    assert |none| == 0;
    CreatingTotal(none, tx, height, 0);
    OverwrittenIsPositive(none, tx, 0);
  }

  lemma OneInput(u: Ledger, o: OutPoint)
    requires o in u
    ensures FirstThere(u, [o], 1) && InputTotal(u, [o], 1) == u[o].output.value && Named([o], 1) == {o}
  {
    var i: nat := 1;
    assert InputTotal(u, [o], i) == InputTotal(u, [o], i - 1) + ValueAt(u, [o][i - 1]);
  }

  /**
   * Where no coin is replaced, a transaction that is not refused takes from the ledger its fee or adds
   * what it issues, and nothing else, if and only if its sums fit and no output is negative.
   */
  lemma {:induction false} TransferConservesIff(u: Ledger, tx: Transaction, height: int)
    requires Positive(u) && !Transfer(u, tx, height).Refused?
    requires forall k :: 0 <= k < |tx.outputs| ==> OutPoint(tx.hash, k) !in AfterInputs(u, tx)
    ensures var r, a := Transfer(u, tx, height), AccountOf(u, tx);
            r.Applied? && Total(r.ledger) == Total(u) + a.issued - a.fees <==>
            SumsFit(u, tx) && forall k :: 0 <= k < |tx.outputs| ==> tx.outputs[k].value >= 0
  {
    OverflowIff(u, tx, height);
    if Transfer(u, tx, height).Applied? {
      TransferConserves(u, tx, height);
      InputsKeepPositive(u, tx);
      OverwrittenIsPositive(AfterInputs(u, tx), tx, 0);
    }
  }

  // ----- value over whole runs

  /** What the transactions of a block do to the total, by cause. */
  datatype Account = Account(issued: int, fees: int, minted: int, overwritten: int) {
    function Plus(other: Account): Account {
      Account(issued + other.issued, fees + other.fees, minted + other.minted, overwritten + other.overwritten)
    }

    function Change(): int {
      issued - fees + minted - overwritten
    }
  }

  const NOTHING := Account(0, 0, 0, 0)

  /** Coinbase outputs are issued; what others leave of their inputs is a fee. */
  function AccountOf(u: Ledger, tx: Transaction): Account {
    var outputs := OutputTotal(tx.outputs, |tx.outputs|);
    Account(if tx.IsCoinBase() then outputs else 0, if tx.IsCoinBase() then 0 else SpentValue(u, tx) - outputs,
            Minted(tx), Overwritten(u, tx))
  }

  function AccountOfAll(u: Ledger, txs: seq<Transaction>, height: int): Account
    decreases |txs|
  {
    if txs == [] || !Transfer(u, txs[0], height).Applied? then NOTHING
    else AccountOf(u, txs[0]).Plus(AccountOfAll(Transfer(u, txs[0], height).ledger, txs[1..], height))
  }

  function AccountOfBlocks(u: Ledger, blocks: seq<Block>): Account
    decreases |blocks|
  {
    if blocks == [] || !TransferAll(u, blocks[0].transactions, blocks[0].height).Applied? then NOTHING
    else AccountOfAll(u, blocks[0].transactions, blocks[0].height).Plus(
           AccountOfBlocks(TransferAll(u, blocks[0].transactions, blocks[0].height).ledger, blocks[1..]))
  }

  predicate NoNegativeOutput(txs: seq<Transaction>) {
    txs == [] || ((forall k :: 0 <= k < |txs[0].outputs| ==> txs[0].outputs[k].value >= 0) && NoNegativeOutput(txs[1..]))
  }

  predicate NoNegativeOutputs(blocks: seq<Block>) {
    blocks == [] || (NoNegativeOutput(blocks[0].transactions) && NoNegativeOutputs(blocks[1..]))
  }

  /** No transaction creates an outpoint that holds an unspent coin. */
  predicate NothingOverwritten(u: Ledger, txs: seq<Transaction>, height: int)
    decreases |txs|
  {
    txs == [] || !Transfer(u, txs[0], height).Applied? || (
      && (forall k :: 0 <= k < |txs[0].outputs| ==> OutPoint(txs[0].hash, k) !in AfterInputs(u, txs[0]))
      && NothingOverwritten(Transfer(u, txs[0], height).ledger, txs[1..], height)
    )
  }

  predicate NothingOverwrittenInBlocks(u: Ledger, blocks: seq<Block>)
    decreases |blocks|
  {
    blocks == [] || !TransferAll(u, blocks[0].transactions, blocks[0].height).Applied? || (
      && NothingOverwritten(u, blocks[0].transactions, blocks[0].height)
      && NothingOverwrittenInBlocks(TransferAll(u, blocks[0].transactions, blocks[0].height).ledger, blocks[1..])
    )
  }

  lemma {:induction false} TransactionsConserve(u: Ledger, txs: seq<Transaction>, height: int)
    requires TransferAll(u, txs, height).Applied?
    ensures Total(TransferAll(u, txs, height).ledger) == Total(u) + AccountOfAll(u, txs, height).Change()
    ensures AccountOfAll(u, txs, height).fees >= 0
    decreases |txs|
  {
    if txs != [] {
      TransferConserves(u, txs[0], height);
      TransactionsConserve(Transfer(u, txs[0], height).ledger, txs[1..], height);
    }
  }

  lemma {:induction false} MintedIfNegative(u: Ledger, txs: seq<Transaction>, height: int)
    requires TransferAll(u, txs, height).Applied?
    ensures AccountOfAll(u, txs, height).minted >= 0
    ensures AccountOfAll(u, txs, height).minted == 0 <==> NoNegativeOutput(txs)
    decreases |txs|
  {
    if txs != [] {
      MintedIfNegative(Transfer(u, txs[0], height).ledger, txs[1..], height);
    }
  }

  lemma {:induction false} LostIfOverwritten(u: Ledger, txs: seq<Transaction>, height: int)
    requires Positive(u) && TransferAll(u, txs, height).Applied?
    ensures AccountOfAll(u, txs, height).overwritten >= 0
    ensures AccountOfAll(u, txs, height).overwritten == 0 <==> NothingOverwritten(u, txs, height)
    decreases |txs|
  {
    if txs != [] {
      TransferKeepsPositive(u, txs[0], height);
      InputsKeepPositive(u, txs[0]);
      OverwrittenIsPositive(AfterInputs(u, txs[0]), txs[0], 0);
      LostIfOverwritten(Transfer(u, txs[0], height).ledger, txs[1..], height);
    }
  }

  lemma InputsKeepPositive(u: Ledger, tx: Transaction)
    requires Positive(u)
    ensures Positive(AfterInputs(u, tx))
  {
    SpendFromFrame(u, InputsOf(tx), 0, 0);
  }

  /**
   * After any sequence of blocks the unspent value is what it was, plus all coinbase outputs, minus
   * all fees, plus what negative outputs let in, minus what recreated outpoints lost.
   */
  lemma {:induction false} BlocksConserve(u: Ledger, blocks: seq<Block>)
    requires Replay(u, blocks).Applied?
    ensures Total(Replay(u, blocks).ledger) == Total(u) + AccountOfBlocks(u, blocks).Change()
    ensures AccountOfBlocks(u, blocks).fees >= 0
    decreases |blocks|
  {
    if blocks != [] {
      TransactionsConserve(u, blocks[0].transactions, blocks[0].height);
      BlocksConserve(TransferAll(u, blocks[0].transactions, blocks[0].height).ledger, blocks[1..]);
    }
  }

  /** Value is let in exactly by negative outputs. */
  lemma {:induction false} BlocksMintIfNegative(u: Ledger, blocks: seq<Block>)
    requires Replay(u, blocks).Applied?
    ensures AccountOfBlocks(u, blocks).minted >= 0
    ensures AccountOfBlocks(u, blocks).minted == 0 <==> NoNegativeOutputs(blocks)
    decreases |blocks|
  {
    if blocks != [] {
      MintedIfNegative(u, blocks[0].transactions, blocks[0].height);
      BlocksMintIfNegative(TransferAll(u, blocks[0].transactions, blocks[0].height).ledger, blocks[1..]);
    }
  }

  /** Value is lost exactly where an unspent outpoint is created again. */
  lemma {:induction false} BlocksLoseIfOverwritten(u: Ledger, blocks: seq<Block>)
    requires Positive(u) && Replay(u, blocks).Applied?
    ensures AccountOfBlocks(u, blocks).overwritten >= 0
    ensures AccountOfBlocks(u, blocks).overwritten == 0 <==> NothingOverwrittenInBlocks(u, blocks)
    decreases |blocks|
  {
    if blocks != [] {
      LostIfOverwritten(u, blocks[0].transactions, blocks[0].height);
      TransferAllKeepsPositive(u, blocks[0].transactions, blocks[0].height);
      BlocksLoseIfOverwritten(TransferAll(u, blocks[0].transactions, blocks[0].height).ledger, blocks[1..]);
    }
  }

  /** A run goes through, and the unspent value changes by coinbase outputs and fees only. */
  ghost predicate Conserved(u: Ledger, blocks: seq<Block>) {
    && Replay(u, blocks).Applied?
    && Total(Replay(u, blocks).ledger) == Total(u) + AccountOfBlocks(u, blocks).issued - AccountOfBlocks(u, blocks).fees
  }

  /**
   * A run in which no assertion fails and nothing unspent is overwritten conserves value if and only if
   * all sums fit and no output is negative; and then value never grows by more than the coinbase outputs.
   */
  lemma {:induction false} ConservedIff(u: Ledger, blocks: seq<Block>)
    requires Positive(u) && !Replay(u, blocks).Refused? && NothingOverwrittenInBlocks(u, blocks)
    ensures Conserved(u, blocks) <==> AllSumsFitInBlocks(u, blocks) && NoNegativeOutputs(blocks)
    ensures Conserved(u, blocks) ==> Total(Replay(u, blocks).ledger) <= Total(u) + AccountOfBlocks(u, blocks).issued
  {
    BlocksOverflowIff(u, blocks);
    if Replay(u, blocks).Applied? {
      AppliedConservesIff(u, blocks);
    }
  }

  lemma {:induction false} AppliedConservesIff(u: Ledger, blocks: seq<Block>)
    requires Positive(u) && Replay(u, blocks).Applied? && NothingOverwrittenInBlocks(u, blocks)
    ensures var a, v := AccountOfBlocks(u, blocks), Replay(u, blocks).ledger;
            && (Total(v) == Total(u) + a.issued - a.fees <==> NoNegativeOutputs(blocks))
            && (NoNegativeOutputs(blocks) ==> Total(v) <= Total(u) + a.issued)
  {
    BlocksConserve(u, blocks);
    BlocksMintIfNegative(u, blocks);
    BlocksLoseIfOverwritten(u, blocks);
  }

  // ----- checks before the transfer

  /** The duplicate check: none of the outpoints to be created is unspent. */
  predicate NoneUnspent(u: Ledger, txs: seq<Transaction>) {
    forall j, k :: 0 <= j < |txs| && 0 <= k < |txs[j].outputs| ==> OutPoint(txs[j].hash, k) !in u
  }

  predicate DistinctHashes(txs: seq<Transaction>) {
    forall i, j :: 0 <= i < j < |txs| ==> txs[i].hash != txs[j].hash
  }

  /** A block that passes the check overwrites nothing, unless two of its own transactions share a hash. */
  lemma {:induction false} CheckedOverwritesNothing(u: Ledger, txs: seq<Transaction>, height: int)
    requires NoneUnspent(u, txs) && DistinctHashes(txs)
    ensures NothingOverwritten(u, txs, height)
    decreases |txs|
  {
    if txs != [] && Transfer(u, txs[0], height).Applied? {
      SpendFromFrame(u, InputsOf(txs[0]), 0, 0);
      TransferEffect(u, txs[0], height);
      CheckedOverwritesNothing(Transfer(u, txs[0], height).ledger, txs[1..], height);
    }
  }

  predicate AllChecked(u: Ledger, blocks: seq<Block>)
    decreases |blocks|
  {
    blocks == [] || (
      var r := TransferAll(u, blocks[0].transactions, blocks[0].height);
      && NoneUnspent(u, blocks[0].transactions) && DistinctHashes(blocks[0].transactions)
      && (r.Applied? ==> AllChecked(r.ledger, blocks[1..]))
    )
  }

  lemma {:induction false} CheckedBlocksOverwriteNothing(u: Ledger, blocks: seq<Block>)
    requires AllChecked(u, blocks)
    ensures NothingOverwrittenInBlocks(u, blocks)
    decreases |blocks|
  {
    if blocks != [] && TransferAll(u, blocks[0].transactions, blocks[0].height).Applied? {
      CheckedOverwritesNothing(u, blocks[0].transactions, blocks[0].height);
      CheckedBlocksOverwriteNothing(TransferAll(u, blocks[0].transactions, blocks[0].height).ledger, blocks[1..]);
    }
  }

  // ----- which sums can overflow at all

  lemma {:induction false} TotalNotNegative(u: Ledger)
    requires Positive(u)
    ensures Total(u) >= 0
    decreases |u|
  {
    if u != map[] {
      var o :| o in u;
      TotalWithout(u, o);
      TotalNotNegative(u - {o});
    }
  }

  /** Inputs are distinct unspent coins, so their sum is no larger than the unspent value. */
  lemma {:induction false} InputsFitIfTotalDoes(u: Ledger, inputs: seq<OutPoint>, i: nat, total: int)
    requires Positive(u) && i <= |inputs| && 0 <= total && Fits(total + Total(u))
    ensures !SpendFrom(u, inputs, i, total).TooMuch?
    decreases |inputs| - i
  {
    if i < |inputs| && inputs[i] in u {
      TotalWithout(u, inputs[i]);
      TotalNotNegative(u - {inputs[i]});
      InputsFitIfTotalDoes(u - {inputs[i]}, inputs, i + 1, total + u[inputs[i]].output.value);
    }
  }

  /** The sum of all coinbase outputs. */
  function Issued(txs: seq<Transaction>): int {
    if txs == [] then 0
    else (if txs[0].IsCoinBase() then OutputTotal(txs[0].outputs, |txs[0].outputs|) else 0) + Issued(txs[1..])
  }

  function IssuedByBlocks(blocks: seq<Block>): int {
    if blocks == [] then 0 else Issued(blocks[0].transactions) + IssuedByBlocks(blocks[1..])
  }

  predicate EachOutputsFit(txs: seq<Transaction>) {
    txs == [] || (OutputsFit(txs[0].outputs) && EachOutputsFit(txs[1..]))
  }

  predicate EachOutputsFitInBlocks(blocks: seq<Block>) {
    blocks == [] || (EachOutputsFit(blocks[0].transactions) && EachOutputsFitInBlocks(blocks[1..]))
  }

  lemma {:induction false} OutputTotalNotNegative(outputs: seq<TxOut>, i: nat)
    requires i <= |outputs| && forall k :: 0 <= k < |outputs| ==> outputs[k].value >= 0
    ensures OutputTotal(outputs, i) >= 0
  {
    if i > 0 {
      OutputTotalNotNegative(outputs, i - 1);
    }
  }

  lemma {:induction false} IssuedNotNegative(txs: seq<Transaction>)
    requires NoNegativeOutput(txs)
    ensures Issued(txs) >= 0
  {
    if txs != [] {
      OutputTotalNotNegative(txs[0].outputs, |txs[0].outputs|);
      IssuedNotNegative(txs[1..]);
    }
  }

  lemma {:induction false} IssuedByBlocksNotNegative(blocks: seq<Block>)
    requires NoNegativeOutputs(blocks)
    ensures IssuedByBlocks(blocks) >= 0
  {
    if blocks != [] {
      IssuedNotNegative(blocks[0].transactions);
      IssuedByBlocksNotNegative(blocks[1..]);
    }
  }

  /** One transaction without negative outputs on a ledger whose value fits. */
  lemma OneFits(u: Ledger, tx: Transaction, height: int)
    requires Positive(u) && Fits(Total(u)) && forall k :: 0 <= k < |tx.outputs| ==> tx.outputs[k].value >= 0
    ensures var r := Transfer(u, tx, height);
            && (r.Overflowed? ==> !OutputsFit(tx.outputs))
            && (r.Applied? ==> OutputsFit(tx.outputs) && Positive(r.ledger)
                               && Total(r.ledger) <= Total(u) + Issued([tx]))
  {
    InputsFitIfTotalDoes(u, InputsOf(tx), 0, 0);
    if Transfer(u, tx, height).Applied? {
      TransferConserves(u, tx, height);
      TransferKeepsPositive(u, tx, height);
      assert Issued([tx][1..]) == 0;
    }
  }

  lemma {:induction false} AllFit(u: Ledger, txs: seq<Transaction>, height: int)
    requires Positive(u) && NoNegativeOutput(txs) && Fits(Total(u) + Issued(txs))
    ensures var r := TransferAll(u, txs, height);
            && (r.Overflowed? ==> !EachOutputsFit(txs))
            && (r.Applied? ==> EachOutputsFit(txs) && Positive(r.ledger) && Total(r.ledger) <= Total(u) + Issued(txs))
    decreases |txs|
  {
    if txs != [] {
      TotalNotNegative(u);
      IssuedNotNegative(txs);
      IssuedNotNegative(txs[1..]);
      OneFits(u, txs[0], height);
      assert Issued([txs[0]][1..]) == 0;
      if Transfer(u, txs[0], height).Applied? {
        TotalNotNegative(Transfer(u, txs[0], height).ledger);
        AllFit(Transfer(u, txs[0], height).ledger, txs[1..], height);
      }
    }
  }

  /**
   * Without negative outputs, and as long as the unspent value at first and all coinbase outputs together
   * fit, no sum of inputs ever overflows: the run overflows only at outputs whose own sum does not fit.
   */
  lemma {:induction false} OnlyOutputsOverflow(u: Ledger, blocks: seq<Block>)
    requires Positive(u) && NoNegativeOutputs(blocks) && Fits(Total(u) + IssuedByBlocks(blocks))
    requires !Replay(u, blocks).Refused?
    ensures Replay(u, blocks).Overflowed? <==> !EachOutputsFitInBlocks(blocks)
    decreases |blocks|
  {
    if blocks != [] {
      var b := blocks[0];
      TotalNotNegative(u);
      IssuedNotNegative(b.transactions);
      IssuedByBlocksNotNegative(blocks[1..]);
      AllFit(u, b.transactions, b.height);
      if TransferAll(u, b.transactions, b.height).Applied? {
        TotalNotNegative(TransferAll(u, b.transactions, b.height).ledger);
        OnlyOutputsOverflow(TransferAll(u, b.transactions, b.height).ledger, blocks[1..]);
      }
    }
  }

  // ----- the number of coins

  function Holds(u: Ledger, o: OutPoint): nat {
    if o in u then 1 else 0
  }

  function SpentBy(txs: seq<Transaction>): seq<OutPoint> {
    if txs == [] then [] else InputsOf(txs[0]) + SpentBy(txs[1..])
  }

  function SpentByBlocks(blocks: seq<Block>): seq<OutPoint> {
    if blocks == [] then [] else SpentBy(blocks[0].transactions) + SpentByBlocks(blocks[1..])
  }

  /** Whether a transaction puts a coin at `o`, and whether it takes one away to do so. */
  function CoinsMade(tx: Transaction, o: OutPoint): nat {
    if tx.Creates(o) && tx.outputs[o.index].value > 0 then 1 else 0
  }

  function CoinsReplaced(u: Ledger, tx: Transaction, o: OutPoint): nat {
    if tx.Creates(o) then Holds(AfterInputs(u, tx), o) else 0
  }

  function CoinsMadeBy(txs: seq<Transaction>, o: OutPoint): nat {
    if txs == [] then 0 else CoinsMade(txs[0], o) + CoinsMadeBy(txs[1..], o)
  }

  function CoinsReplacedBy(u: Ledger, txs: seq<Transaction>, height: int, o: OutPoint): nat
    decreases |txs|
  {
    if txs == [] || !Transfer(u, txs[0], height).Applied? then 0
    else CoinsReplaced(u, txs[0], o) + CoinsReplacedBy(Transfer(u, txs[0], height).ledger, txs[1..], height, o)
  }

  function CoinsMadeByBlocks(blocks: seq<Block>, o: OutPoint): nat {
    if blocks == [] then 0 else CoinsMadeBy(blocks[0].transactions, o) + CoinsMadeByBlocks(blocks[1..], o)
  }

  function CoinsReplacedByBlocks(u: Ledger, blocks: seq<Block>, o: OutPoint): nat
    decreases |blocks|
  {
    if blocks == [] || !TransferAll(u, blocks[0].transactions, blocks[0].height).Applied? then 0
    else CoinsReplacedBy(u, blocks[0].transactions, blocks[0].height, o)
         + CoinsReplacedByBlocks(TransferAll(u, blocks[0].transactions, blocks[0].height).ledger, blocks[1..], o)
  }

  lemma {:induction false} SpendingCoins(u: Ledger, inputs: seq<OutPoint>, i: nat, total: int, o: OutPoint)
    requires i <= |inputs| && SpendFrom(u, inputs, i, total).Spent?
    ensures multiset(inputs[i..])[o] + Holds(SpendFrom(u, inputs, i, total).ledger, o) == Holds(u, o)
    decreases |inputs| - i
  {
    if i < |inputs| {
      SpendingCoins(u - {inputs[i]}, inputs, i + 1, total + u[inputs[i]].output.value, o);
      assert inputs[i..] == [inputs[i]] + inputs[i + 1..];
    }
  }

  lemma TransferCoins(u: Ledger, tx: Transaction, height: int, o: OutPoint)
    requires Transfer(u, tx, height).Applied?
    ensures multiset(InputsOf(tx))[o] + Holds(Transfer(u, tx, height).ledger, o) + CoinsReplaced(u, tx, o)
            == Holds(u, o) + CoinsMade(tx, o)
  {
    SpendingCoins(u, InputsOf(tx), 0, 0, o);
    assert InputsOf(tx)[0..] == InputsOf(tx);
    CreateFromFrame(AfterInputs(u, tx), tx, height, 0);
    if tx.Creates(o) {
      assert o == OutPoint(tx.hash, o.index);
    }
  }

  lemma {:induction false} TransactionsCoins(u: Ledger, txs: seq<Transaction>, height: int, o: OutPoint)
    requires TransferAll(u, txs, height).Applied?
    ensures multiset(SpentBy(txs))[o] + Holds(TransferAll(u, txs, height).ledger, o) + CoinsReplacedBy(u, txs, height, o)
            == Holds(u, o) + CoinsMadeBy(txs, o)
    decreases |txs|
  {
    if txs != [] {
      TransferCoins(u, txs[0], height, o);
      TransactionsCoins(Transfer(u, txs[0], height).ledger, txs[1..], height, o);
    }
  }

  /**
   * Every coin is accounted for: at each outpoint, the coins there were at first and those made since
   * are the coins spent, the coins replaced, and the coin left, if any.
   */
  lemma {:induction false} EveryCoinAccountedFor(u: Ledger, blocks: seq<Block>, o: OutPoint)
    requires Replay(u, blocks).Applied?
    ensures multiset(SpentByBlocks(blocks))[o] + Holds(Replay(u, blocks).ledger, o) + CoinsReplacedByBlocks(u, blocks, o)
            == Holds(u, o) + CoinsMadeByBlocks(blocks, o)
    decreases |blocks|
  {
    if blocks != [] {
      var b := blocks[0];
      TransactionsCoins(u, b.transactions, b.height, o);
      EveryCoinAccountedFor(TransferAll(u, b.transactions, b.height).ledger, blocks[1..], o);
    }
  }

  /** No coin is spent twice: an outpoint is named twice only if it held two coins, one after the other. */
  lemma SpentOnce(u: Ledger, blocks: seq<Block>, i: nat, j: nat)
    requires Replay(u, blocks).Applied? && i < j < |SpentByBlocks(blocks)|
    requires SpentByBlocks(blocks)[i] == SpentByBlocks(blocks)[j]
    ensures Holds(u, SpentByBlocks(blocks)[i]) + CoinsMadeByBlocks(blocks, SpentByBlocks(blocks)[i]) >= 2
  {
    EveryCoinAccountedFor(u, blocks, SpentByBlocks(blocks)[i]);
    NamedTwice(SpentByBlocks(blocks), i, j);
  }

  lemma NamedTwice<T>(s: seq<T>, i: nat, j: nat)
    requires i < j < |s| && s[i] == s[j]
    ensures multiset(s)[s[i]] >= 2
  {
    var head, tail := s[..j], s[j..];
    assert head[i] == s[i] && tail[0] == s[i];
    assert s[i] in multiset(head) && s[i] in multiset(tail);
    assert s == head + tail;
  }
}
