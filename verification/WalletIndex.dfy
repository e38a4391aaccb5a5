/**
 * The wallet's own map of unspent outputs, and when it stays the restriction of the global UTXO set to the
 * wallet's key although the two apply a transaction in opposite orders.
 */
module WalletIndex {
  import opened Ledger
  import opened UtxoSet

  predicate PaysTo(tx: Transaction, i: nat, owner: string)
    requires i < |tx.outputs|
  {
    PublicKeyHash(tx.outputs[i].script) == owner
  }

  function OwnOutputsUpTo(tx: Transaction, n: nat, owner: string): Utxos
    requires n <= |tx.outputs|
  {
    map i | 0 <= i < n && PaysTo(tx, i, owner) :: OutPoint(tx.id, i) := OutputData(tx, i)
  }

  function OwnOutputs(tx: Transaction, owner: string): Utxos {
    OwnOutputsUpTo(tx, |tx.outputs|, owner)
  }

  /** The wallet first removes what the transaction spends, then inserts its own outputs under unused keys. */
  function Update(mine: Utxos, tx: Transaction, owner: string): Utxos {
    OwnOutputs(tx, owner) + (mine - Inputs(tx))
  }

  function UpdateAll(mine: Utxos, txs: seq<Transaction>, owner: string): Utxos
    decreases txs
  {
    if txs == [] then mine else UpdateAll(Update(mine, txs[0], owner), txs[1..], owner)
  }

  lemma OwnOutputsStep(tx: Transaction, i: nat, owner: string)
    requires i < |tx.outputs|
    ensures OwnOutputsUpTo(tx, i + 1, owner) ==
            if PaysTo(tx, i, owner) then OwnOutputsUpTo(tx, i, owner)[OutPoint(tx.id, i) := OutputData(tx, i)]
            else OwnOutputsUpTo(tx, i, owner)
  {
  }

  /** Inserting one more own output under an unused key. */
  lemma InsertOwnStep(mine: Utxos, tx: Transaction, i: nat, owner: string)
    requires i < |tx.outputs|
    ensures var before, after := OwnOutputsUpTo(tx, i, owner) + mine, OwnOutputsUpTo(tx, i + 1, owner) + mine;
            var op := OutPoint(tx.id, i);
            after == if PaysTo(tx, i, owner) && op !in before then before[op := OutputData(tx, i)] else before
  {
    OwnOutputsStep(tx, i, owner);
    assert OutPoint(tx.id, i) !in OwnOutputsUpTo(tx, i, owner);
    hide *;
  }

  lemma NoOwnOutputs(mine: Utxos, tx: Transaction, owner: string)
    ensures OwnOutputsUpTo(tx, 0, owner) + mine == mine
  {
  }

  // ----- agreement with the global set -----

  /** The entries of the global set that the owner can spend. */
  function Owned(utxos: Utxos, owner: string): Utxos {
    map op | op in utxos && PublicKeyHash(utxos[op].script) == owner :: utxos[op]
  }

  /**
   * What the wallet can check before it applies a transaction: no own output is spent by the transaction
   * itself, and an output under an outpoint the wallet already holds (and keeps) is the same entry.
   */
  predicate KeepsAgreement(mine: Utxos, tx: Transaction, owner: string) {
    forall i | 0 <= i < |tx.outputs| ::
      var op := OutPoint(tx.id, i);
      if op in Inputs(tx) then !PaysTo(tx, i, owner)
      else op in mine ==> mine[op] == OutputData(tx, i)
  }

  lemma OwnOutputsAt(tx: Transaction, owner: string, op: OutPoint)
    ensures op in OwnOutputs(tx, owner) <==>
            op in Outputs(tx) && PublicKeyHash(Outputs(tx)[op].script) == owner
    ensures op in OwnOutputs(tx, owner) ==> OwnOutputs(tx, owner)[op] == Outputs(tx)[op]
  {
  }

  lemma KeepsAgreementAt(mine: Utxos, tx: Transaction, owner: string, op: OutPoint)
    requires KeepsAgreement(mine, tx, owner) && op in Outputs(tx)
    ensures if op in Inputs(tx) then op !in OwnOutputs(tx, owner)
            else op in mine ==> mine[op] == Outputs(tx)[op]
  {
    var i :| 0 <= i < |tx.outputs| && op == OutPoint(tx.id, i);
  }

  lemma AgreementAt(utxos: Utxos, tx: Transaction, owner: string, op: OutPoint)
    requires KeepsAgreement(Owned(utxos, owner), tx, owner)
    ensures op in Update(Owned(utxos, owner), tx, owner) <==> op in Owned(Spend(utxos, tx), owner)
    ensures op in Owned(Spend(utxos, tx), owner) ==>
              Update(Owned(utxos, owner), tx, owner)[op] == Owned(Spend(utxos, tx), owner)[op]
  {
    hide Outputs, Inputs, OwnOutputs, KeepsAgreement;
    OwnOutputsAt(tx, owner, op);
    if op in Outputs(tx) {
      KeepsAgreementAt(Owned(utxos, owner), tx, owner, op);
    }
  }

  lemma AgreementKept(utxos: Utxos, tx: Transaction, owner: string)
    requires KeepsAgreement(Owned(utxos, owner), tx, owner)
    ensures Update(Owned(utxos, owner), tx, owner) == Owned(Spend(utxos, tx), owner)
  {
    var mine := Owned(utxos, owner);
    var w, g := Update(mine, tx, owner), Owned(Spend(utxos, tx), owner);
    forall op
      ensures op in w <==> op in g
      ensures op in w ==> w[op] == g[op]
    {
      hide *;
      AgreementAt(utxos, tx, owner, op);
    }
  }

  lemma AgreementLost(utxos: Utxos, tx: Transaction, owner: string)
    requires !KeepsAgreement(Owned(utxos, owner), tx, owner)
    ensures Update(Owned(utxos, owner), tx, owner) != Owned(Spend(utxos, tx), owner)
  {
    var mine := Owned(utxos, owner);
    var w, g := Update(mine, tx, owner), Owned(Spend(utxos, tx), owner);
    var i :| 0 <= i < |tx.outputs| &&
             var op := OutPoint(tx.id, i);
             !(if op in Inputs(tx) then !PaysTo(tx, i, owner) else op in mine ==> mine[op] == OutputData(tx, i));
    var op := OutPoint(tx.id, i);
    assert op in Outputs(tx);
    if op in Inputs(tx) {
      assert op in OwnOutputs(tx, owner);
      assert op in w && op !in g;
    } else {
      assert op in w && w[op] == mine[op];
      assert op in Spend(utxos, tx) && Spend(utxos, tx)[op] == OutputData(tx, i);
      assert op !in g || g[op] != w[op];
    }
  }

  /** The two orders of application agree on a transaction exactly when the wallet's check holds. */
  lemma AgreementIff(utxos: Utxos, tx: Transaction, owner: string)
    ensures Update(Owned(utxos, owner), tx, owner) == Owned(Spend(utxos, tx), owner)
       <==> KeepsAgreement(Owned(utxos, owner), tx, owner)
  {
    if KeepsAgreement(Owned(utxos, owner), tx, owner) {
      AgreementKept(utxos, tx, owner);
    } else {
      AgreementLost(utxos, tx, owner);
    }
  }

  /** Identifiers determine outputs: every transaction and every entry matches one table. */
  ghost predicate Recorded(utxos: Utxos, table: map<TxId, seq<TxOutput>>) {
    forall op | op in utxos :: op.txid in table && op.index < |table[op.txid]| &&
      utxos[op] == UtxoData(table[op.txid][op.index].value, table[op.txid][op.index].script)
  }

  ghost predicate Regular(tx: Transaction, table: map<TxId, seq<TxOutput>>) {
    && tx.id in table && table[tx.id] == tx.outputs
    && forall op | op in Inputs(tx) :: op.txid != tx.id
  }

  lemma RegularStep(utxos: Utxos, tx: Transaction, owner: string, table: map<TxId, seq<TxOutput>>)
    requires Recorded(utxos, table) && Regular(tx, table)
    ensures Recorded(Spend(utxos, tx), table)
    ensures Update(Owned(utxos, owner), tx, owner) == Owned(Spend(utxos, tx), owner)
  {
    forall op | op in Spend(utxos, tx)
      ensures op.txid in table && op.index < |table[op.txid]|
      ensures Spend(utxos, tx)[op] == UtxoData(table[op.txid][op.index].value, table[op.txid][op.index].script)
    {
      if op in Outputs(tx) {
        var i :| 0 <= i < |tx.outputs| && op == OutPoint(tx.id, i);
      }
    }
    assert KeepsAgreement(Owned(utxos, owner), tx, owner);
    AgreementKept(utxos, tx, owner);
  }

  /** Over any run of regular transactions the wallet's map stays exactly the owner's part of the global set. */
  lemma {:induction false} AgreementOverRuns(utxos: Utxos, txs: seq<Transaction>, owner: string,
                                             table: map<TxId, seq<TxOutput>>)
    requires Recorded(utxos, table) && forall tx | tx in txs :: Regular(tx, table)
    ensures UpdateAll(Owned(utxos, owner), txs, owner) == Owned(SpendAll(utxos, txs), owner)
    ensures Recorded(SpendAll(utxos, txs), table)
    decreases txs
  {
    if txs != [] {
      RegularStep(utxos, txs[0], owner, table);
      assert forall tx | tx in txs[1..] :: tx in txs;
      AgreementOverRuns(Spend(utxos, txs[0]), txs[1..], owner, table);
    }
  }
}
