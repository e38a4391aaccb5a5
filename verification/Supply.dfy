/** The total of the UTXO set over whole runs: what the genesis and the rewards create, minus what is burned. */
module Supply {
  import opened Ledger
  import opened UtxoSet

  function OutputSum(outputs: seq<TxOutput>): nat {
    if outputs == [] then 0 else OutputSum(outputs[..|outputs| - 1]) + outputs[|outputs| - 1].value
  }

  function InputSum(utxos: Utxos, inputs: seq<TxInput>): nat
    requires forall input | input in inputs :: input.previous in utxos
  {
    if inputs == [] then 0
    else
      var n := |inputs| - 1;
      InputSum(utxos, inputs[..n]) + utxos[inputs[n].previous].value
  }

  // ----- the effect of one transaction -----

  /** No entry of the set carries the identifier yet. */
  ghost predicate Fresh(utxos: Utxos, id: TxId) {
    forall op | op in utxos :: op.txid != id
  }

  ghost predicate DistinctInputs(tx: Transaction) {
    forall i, j | 0 <= i < j < |tx.inputs| :: tx.inputs[i].previous != tx.inputs[j].previous
  }

  /** An ordinary transaction spends distinct present entries worth at least its outputs. */
  ghost predicate Ordinary(utxos: Utxos, tx: Transaction) {
    && DistinctInputs(tx)
    && (forall input | input in tx.inputs :: input.previous in utxos)
    && InputSum(utxos, tx.inputs) >= OutputSum(tx.outputs)
  }

  /** A reward spends nothing: its input names an entry that neither exists nor is created by it. */
  ghost predicate Reward(utxos: Utxos, tx: Transaction) {
    forall op | op in Inputs(tx) :: op !in utxos && op.txid != tx.id
  }

  lemma OutputSumStep(outputs: seq<TxOutput>, n: nat)
    requires 0 < n <= |outputs|
    ensures OutputSum(outputs[..n]) == OutputSum(outputs[..n - 1]) + outputs[n - 1].value
  {
    assert outputs[..n][..n - 1] == outputs[..n - 1];
  }

  lemma {:induction false} TotalPlusOutputs(utxos: Utxos, tx: Transaction, n: nat)
    requires n <= |tx.outputs| && Fresh(utxos, tx.id)
    ensures Total(utxos + OutputsUpTo(tx, n)) == Total(utxos) + OutputSum(tx.outputs[..n])
  {
    hide Total, OutputsUpTo;
    if n == 0 {
      NoOutputs(utxos, tx);
    } else {
      var op := OutPoint(tx.id, n - 1);
      TotalPlusOutputs(utxos, tx, n - 1);
      OutputsStep(tx, n - 1);
      AddOutputStep(utxos, tx, n - 1);
      var before := utxos + OutputsUpTo(tx, n - 1);
      TotalInsert(before, op, OutputData(tx, n - 1));
      OutputSumStep(tx.outputs, n);
    }
  }

  lemma {:induction false} TotalMinusInputs(utxos: Utxos, tx: Transaction, n: nat)
    requires n <= |tx.inputs| && DistinctInputs(tx)
    requires forall input | input in tx.inputs :: input.previous in utxos
    ensures Total(utxos - InputsUpTo(tx, n)) + InputSum(utxos, tx.inputs[..n]) == Total(utxos)
  {
    if n == 0 {
      assert utxos - InputsUpTo(tx, 0) == utxos;
    } else {
      var op := tx.inputs[n - 1].previous;
      TotalMinusInputs(utxos, tx, n - 1);
      InputsStep(tx, n - 1);
      var before := utxos - InputsUpTo(tx, n - 1);
      assert tx.inputs[n - 1] in tx.inputs;
      assert op in before;
      TotalRemove(before, op);
      assert utxos - InputsUpTo(tx, n) == before - {op};
      assert tx.inputs[..n][..n - 1] == tx.inputs[..n - 1];
    }
  }

  lemma {:induction false} InputSumExtended(utxos: Utxos, more: Utxos, inputs: seq<TxInput>)
    requires forall input | input in inputs :: input.previous in utxos && input.previous !in more
    ensures InputSum(utxos + more, inputs) == InputSum(utxos, inputs)
  {
    if inputs != [] {
      InputSumExtended(utxos, more, inputs[..|inputs| - 1]);
    }
  }

  /** An ordinary transaction burns exactly the difference of its two sides. */
  lemma OrdinaryTotal(utxos: Utxos, tx: Transaction)
    requires Fresh(utxos, tx.id) && Ordinary(utxos, tx)
    ensures Total(Spend(utxos, tx)) + InputSum(utxos, tx.inputs) == Total(utxos) + OutputSum(tx.outputs)
  {
    TotalPlusOutputs(utxos, tx, |tx.outputs|);
    TotalMinusInputs(utxos + Outputs(tx), tx, |tx.inputs|);
    InputSumExtended(utxos, Outputs(tx), tx.inputs);
    assert tx.outputs[..|tx.outputs|] == tx.outputs && tx.inputs[..|tx.inputs|] == tx.inputs;
  }

  /** A reward adds its outputs. */
  lemma RewardTotal(utxos: Utxos, tx: Transaction)
    requires Fresh(utxos, tx.id) && Reward(utxos, tx)
    ensures Total(Spend(utxos, tx)) == Total(utxos) + OutputSum(tx.outputs)
  {
    TotalPlusOutputs(utxos, tx, |tx.outputs|);
    assert tx.outputs[..|tx.outputs|] == tx.outputs;
    assert Spend(utxos, tx) == utxos + Outputs(tx);
  }

  // ----- runs -----

  /** Transactions of a run, each marked as a reward or as ordinary. */
  datatype Entry = Entry(tx: Transaction, reward: bool)

  function Transactions(run: seq<Entry>): (txs: seq<Transaction>)
    ensures |txs| == |run|
  {
    if run == [] then [] else [run[0].tx] + Transactions(run[1..])
  }

  /** Every transaction of the run is conforming where it is applied. */
  ghost predicate Conforming(utxos: Utxos, run: seq<Entry>)
    decreases run
  {
    run == [] ||
    var tx := run[0].tx;
    && Fresh(utxos, tx.id)
    && (if run[0].reward then Reward(utxos, tx) else Ordinary(utxos, tx))
    && Conforming(Spend(utxos, tx), run[1..])
  }

  function Created(run: seq<Entry>): nat {
    if run == [] then 0
    else (if run[0].reward then OutputSum(run[0].tx.outputs) else 0) + Created(run[1..])
  }

  /** What the ordinary transactions of a conforming run leave unclaimed. */
  ghost function Burned(utxos: Utxos, run: seq<Entry>): nat
    requires Conforming(utxos, run)
    decreases run
  {
    if run == [] then 0
    else
      var tx := run[0].tx;
      (if run[0].reward then 0 else InputSum(utxos, tx.inputs) - OutputSum(tx.outputs))
      + Burned(Spend(utxos, tx), run[1..])
  }

  /** Conservation: over every conforming run, rewards are the only source and unclaimed inputs the only sink. */
  lemma {:induction false} Conservation(utxos: Utxos, run: seq<Entry>)
    requires Conforming(utxos, run)
    ensures Total(SpendAll(utxos, Transactions(run))) + Burned(utxos, run) == Total(utxos) + Created(run)
    decreases run
  {
    if run != [] {
      var tx := run[0].tx;
      if run[0].reward {
        RewardTotal(utxos, tx);
      } else {
        OrdinaryTotal(utxos, tx);
      }
      Conservation(Spend(utxos, tx), run[1..]);
      assert Transactions(run)[1..] == Transactions(run[1..]);
    }
  }

  /** Outputs equal to inputs, as the wallet builds them. */
  ghost predicate Balanced(utxos: Utxos, run: seq<Entry>)
    requires Conforming(utxos, run)
    decreases run
  {
    run == [] ||
    var tx := run[0].tx;
    && (!run[0].reward ==> InputSum(utxos, tx.inputs) == OutputSum(tx.outputs))
    && Balanced(Spend(utxos, tx), run[1..])
  }

  lemma {:induction false} BalancedBurnsNothing(utxos: Utxos, run: seq<Entry>)
    requires Conforming(utxos, run)
    ensures Burned(utxos, run) == 0 <==> Balanced(utxos, run)
    decreases run
  {
    if run != [] {
      BalancedBurnsNothing(Spend(utxos, run[0].tx), run[1..]);
    }
  }

  // ----- the genesis -----

  const COINBASE := OutPoint("00000000c017ba5e00000000c017ba5e", 0)

  /** Five rewards of 20, 40, 60, 80 and 100 to the creator; the identifiers and the time come from outside. */
  function GenesisRun(ids: seq<TxId>, timestamp: int, script: Script, i: nat): (run: seq<Entry>)
    requires |ids| == 5 && i <= 5
    decreases 5 - i
  {
    if i == 5 then []
    else [Entry(Transaction(ids[i], timestamp, [TxInput(COINBASE, "Coinbase Coinbase")],
                            [TxOutput((i + 1) * 20, script)]), true)]
         + GenesisRun(ids, timestamp, script, i + 1)
  }

  lemma {:induction false} GenesisConforms(utxos: Utxos, ids: seq<TxId>, timestamp: int, script: Script, i: nat)
    requires |ids| == 5 && i <= 5 && COINBASE.txid !in ids
    requires forall j, k | 0 <= j < k < 5 :: ids[j] != ids[k]
    requires forall op | op in utxos :: op.txid in ids[..i]
    ensures Conforming(utxos, GenesisRun(ids, timestamp, script, i))
    ensures Balanced(utxos, GenesisRun(ids, timestamp, script, i))
    ensures Created(GenesisRun(ids, timestamp, script, i)) == 300 - 10 * i * (i + 1)
    decreases 5 - i
  {
    hide Spend, Fresh, Reward, Inputs, OutputSum;
    if i < 5 {
      var run := GenesisRun(ids, timestamp, script, i);
      var tx := run[0].tx;
      GenesisStep(utxos, ids, tx, i);
      GenesisConforms(Spend(utxos, tx), ids, timestamp, script, i + 1);
      assert run[1..] == GenesisRun(ids, timestamp, script, i + 1);
      assert 10 * (i + 1) * (i + 2) == 10 * i * (i + 1) + 20 * (i + 1);
    }
  }

  /** One transaction of the genesis is a fresh reward. */
  lemma GenesisStep(utxos: Utxos, ids: seq<TxId>, tx: Transaction, i: nat)
    requires |ids| == 5 && i < 5 && COINBASE.txid !in ids
    requires forall j, k | 0 <= j < k < 5 :: ids[j] != ids[k]
    requires forall op | op in utxos :: op.txid in ids[..i]
    requires tx.id == ids[i] && |tx.inputs| == 1 && tx.inputs[0].previous == COINBASE
    requires |tx.outputs| == 1 && tx.outputs[0].value == (i + 1) * 20
    ensures Fresh(utxos, tx.id) && Reward(utxos, tx) && OutputSum(tx.outputs) == (i + 1) * 20
    ensures forall op | op in Spend(utxos, tx) :: op.txid in ids[..i + 1]
  {
    assert Inputs(tx) == {COINBASE};
    assert tx.outputs[..0] == [];
    assert ids[i] in ids && ids[..i + 1] == ids[..i] + [ids[i]];
    assert forall op | op in utxos :: op.txid in ids;
  }

  /**
   * From the genesis on: after any conforming run the set holds 300 plus the rewards, less what was burned,
   * and exactly 300 plus the rewards when every ordinary transaction balances.
   */
  lemma SupplyFromGenesis(ids: seq<TxId>, timestamp: int, script: Script, run: seq<Entry>)
    requires |ids| == 5 && COINBASE.txid !in ids && forall j, k | 0 <= j < k < 5 :: ids[j] != ids[k]
    requires Conforming(SpendAll(map[], Transactions(GenesisRun(ids, timestamp, script, 0))), run)
    ensures var start := SpendAll(map[], Transactions(GenesisRun(ids, timestamp, script, 0)));
            && Total(start) == 300
            && Total(SpendAll(start, Transactions(run))) + Burned(start, run) == 300 + Created(run)
            && (Total(SpendAll(start, Transactions(run))) == 300 + Created(run) <==> Balanced(start, run))
  {
    var genesis := GenesisRun(ids, timestamp, script, 0);
    GenesisConforms(map[], ids, timestamp, script, 0);
    Conservation(map[], genesis);
    BalancedBurnsNothing(map[], genesis);
    var start := SpendAll(map[], Transactions(genesis));
    Conservation(start, run);
    BalancedBurnsNothing(start, run);
  }
}
