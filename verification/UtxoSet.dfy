/** The global UTXO set, and how a block's transactions change it. */
module UtxoSet {
  import opened Ledger

  /** A transaction first adds its outputs, then removes what it spends. */
  function Spend(utxos: Utxos, tx: Transaction): Utxos {
    utxos + Outputs(tx) - Inputs(tx)
  }

  function SpendAll(utxos: Utxos, txs: seq<Transaction>): Utxos
    decreases txs
  {
    if txs == [] then utxos else SpendAll(Spend(utxos, txs[0]), txs[1..])
  }

  lemma {:induction false} SpendAllConcat(utxos: Utxos, a: seq<Transaction>, b: seq<Transaction>)
    ensures SpendAll(utxos, a + b) == SpendAll(SpendAll(utxos, a), b)
    decreases a
  {
    hide Spend;
    if a == [] {
      assert a + b == b;
    } else {
      assert (a + b)[1..] == a[1..] + b;
      SpendAllConcat(Spend(utxos, a[0]), a[1..], b);
    }
  }

  class UTXOSet {
    var utxoSet: Utxos

    constructor ()
      ensures utxoSet == map[]
    {
      utxoSet := map[];
    }

    method AddUTXO(outpoint: OutPoint, data: UtxoData)
      modifies this
      ensures utxoSet == old(utxoSet)[outpoint := data]
    {
      utxoSet := utxoSet[outpoint := data];
    }

    method RemoveUTXO(outpoint: OutPoint)
      modifies this
      ensures utxoSet == old(utxoSet) - {outpoint}
    {
      if outpoint in utxoSet {
        utxoSet := utxoSet - {outpoint};
      }
    }

    /** The loop over a block's transactions: outputs first, then inputs, one transaction after the other. */
    method AddBlock(transactions: seq<Transaction>)
      modifies this
      ensures utxoSet == SpendAll(old(utxoSet), transactions)
    {
      for t := 0 to |transactions|
        invariant SpendAll(utxoSet, transactions[t..]) == SpendAll(old(utxoSet), transactions)
      {
        var tx := transactions[t];
        AddTransaction(tx);
        assert transactions[t..][1..] == transactions[t + 1..];
      }
    }

    method AddTransaction(tx: Transaction)
      modifies this
      ensures utxoSet == Spend(old(utxoSet), tx)
    {
      AddOutputs(tx);
      RemoveInputs(tx);
    }

    method AddOutputs(tx: Transaction)
      modifies this
      ensures utxoSet == old(utxoSet) + Outputs(tx)
    {
      hide OutputsUpTo;
      NoOutputs(utxoSet, tx);
      for i := 0 to |tx.outputs|
        invariant utxoSet == old(utxoSet) + OutputsUpTo(tx, i)
      {
        AddOutputStep(old(utxoSet), tx, i);
        AddUTXO(OutPoint(tx.id, i), OutputData(tx, i));
      }
    }

    method RemoveInputs(tx: Transaction)
      modifies this
      ensures utxoSet == old(utxoSet) - Inputs(tx)
    {
      for i := 0 to |tx.inputs|
        invariant utxoSet == old(utxoSet) - InputsUpTo(tx, i)
      {
        RemoveUTXO(tx.inputs[i].previous);
        InputsStep(tx, i);
      }
    }
  }
}
