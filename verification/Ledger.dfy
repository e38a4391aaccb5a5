/** Transactions, outpoints and totals: what the UTXO set, the wallet and the mempool share. */
module Ledger {

  type TxId = string

  datatype OutPoint = OutPoint(txid: TxId, index: nat)

  /** A locking script: two characters of type, then the hash of the owner's public key. */
  type Script = s: string | |s| >= 2 witness "10"

  function PublicKeyHash(script: Script): string {
    script[2..]
  }

  datatype UtxoData = UtxoData(value: nat, script: Script)

  datatype TxInput = TxInput(previous: OutPoint, scriptSig: string)

  datatype TxOutput = TxOutput(value: nat, script: Script)

  datatype Transaction = Transaction(id: TxId, timestamp: int, inputs: seq<TxInput>, outputs: seq<TxOutput>)

  const ERROR_TRANSACTION_ID: TxId := "-1"

  type Utxos = map<OutPoint, UtxoData>

  /** The entry that output i of a transaction adds to a UTXO map. */
  function OutputData(tx: Transaction, i: nat): UtxoData
    requires i < |tx.outputs|
  {
    UtxoData(tx.outputs[i].value, tx.outputs[i].script)
  }

  /** The entries of the first n outputs. */
  function OutputsUpTo(tx: Transaction, n: nat): Utxos
    requires n <= |tx.outputs|
  {
    map i | 0 <= i < n :: OutPoint(tx.id, i) := OutputData(tx, i)
  }

  function Outputs(tx: Transaction): Utxos {
    OutputsUpTo(tx, |tx.outputs|)
  }

  /** The outpoints of the first n inputs. */
  function InputsUpTo(tx: Transaction, n: nat): set<OutPoint>
    requires n <= |tx.inputs|
  {
    set i | 0 <= i < n :: tx.inputs[i].previous
  }

  function Inputs(tx: Transaction): set<OutPoint> {
    InputsUpTo(tx, |tx.inputs|)
  }

  lemma OutputsStep(tx: Transaction, i: nat)
    requires i < |tx.outputs|
    ensures OutputsUpTo(tx, i + 1) == OutputsUpTo(tx, i)[OutPoint(tx.id, i) := OutputData(tx, i)]
    ensures OutPoint(tx.id, i) !in OutputsUpTo(tx, i)
  {
  }

  /** Adding one more output to any map. */
  lemma AddOutputStep(utxos: Utxos, tx: Transaction, i: nat)
    requires i < |tx.outputs|
    ensures utxos + OutputsUpTo(tx, i + 1) == (utxos + OutputsUpTo(tx, i))[OutPoint(tx.id, i) := OutputData(tx, i)]
  {
    hide OutputsUpTo;
    OutputsStep(tx, i);
  }

  lemma NoOutputs(utxos: Utxos, tx: Transaction)
    ensures utxos + OutputsUpTo(tx, 0) == utxos
  {
  }

  lemma InputsStep(tx: Transaction, i: nat)
    requires i < |tx.inputs|
    ensures InputsUpTo(tx, i + 1) == InputsUpTo(tx, i) + {tx.inputs[i].previous}
  {
  }

  // ----- totals -----

  ghost function Total(utxos: Utxos): nat {
    if utxos == map[] then 0
    else
      var op :| op in utxos;
      utxos[op].value + Total(utxos - {op})
  }

  lemma TotalEmpty()
    ensures Total(map[]) == 0
  {
  }

  /** The total does not depend on the order in which entries are taken out. */
  lemma {:induction false} TotalRemove(utxos: Utxos, op: OutPoint)
    requires op in utxos
    ensures Total(utxos) == utxos[op].value + Total(utxos - {op})
    decreases |utxos|
  {
    var first :| first in utxos && Total(utxos) == utxos[first].value + Total(utxos - {first});
    if first != op {
      TotalRemove(utxos - {first}, op);
      TotalRemove(utxos - {op}, first);
      assert utxos - {first} - {op} == utxos - {op} - {first};
    }
  }

  lemma TotalInsert(utxos: Utxos, op: OutPoint, data: UtxoData)
    requires op !in utxos
    ensures Total(utxos[op := data]) == Total(utxos) + data.value
  {
    TotalRemove(utxos[op := data], op);
    assert utxos[op := data] - {op} == utxos;
  }
}
