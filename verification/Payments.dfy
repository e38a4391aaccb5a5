/** A payment on its way through the node: made by the wallet, verified, and kept in the mempool. */
module Payments {
  import opened Ledger
  import opened MempoolState
  import opened Supply
  import opened TextStreams
  import opened TransactionVerification
  import opened UtxoSet
  import opened WalletIndex
  import opened WalletModule

  /** The entries of a wallet that no pending transaction spends. */
  function Unreserved(mine: Utxos, pool: Pool): Utxos {
    map op | op in mine && op !in pool.reserved :: mine[op]
  }

  /** Every input carries the signature and the key. */
  ghost predicate SignedWith(c: Checks, tx: Transaction, signature: string, publicKey: string) {
    && IsWord(signature) && IsWord(publicKey) && publicKey != "Coinbase"
    && c.signed(tx, signature, publicKey)
    && forall i | 0 <= i < |tx.inputs| :: tx.inputs[i].scriptSig == signature + " " + publicKey
  }

  /**
   * A payment out of the unreserved entries of a wallet that agrees with the global set, signed with the wallet's
   * key, passes verification whatever its amount.
   */
  lemma PaymentVerified(c: Checks, utxos: Utxos, mine: Utxos, pool: Pool, tx: Transaction, toHash: string, amount: nat,
                        ownHash: string, signature: string, publicKey: string)
    requires mine == Owned(utxos, ownHash) && c.hash(publicKey) == ownHash
    requires Payment(Unreserved(mine, pool), tx, toHash, amount, ownHash)
    requires SignedWith(c, tx, signature, publicKey) && tx.id != ""
    ensures Accepted(c, utxos, tx)
  {
    hide InputSum, OutputSum, Accepted;
    PaymentAccepted(utxos, mine, pool, tx, toHash, amount, ownHash);
    forall i | 0 <= i < |tx.inputs|
      ensures tx.inputs[i].previous in utxos
      ensures SignedFor(c, utxos[tx.inputs[i].previous], tx, tx.inputs[i])
    {
      SignatureAndKey(tx.inputs[i], signature, publicKey);
      assert tx.inputs[i] in tx.inputs;
    }
    AcceptedIff(c, utxos, tx);
  }

  /** With a new identifier it is then kept, its inputs are reserved under it, and the index stays exact. */
  lemma PaymentKept(c: Checks, utxos: Utxos, mine: Utxos, pool: Pool, tx: Transaction, toHash: string, amount: nat,
                    ownHash: string, signature: string, publicKey: string)
    requires mine == Owned(utxos, ownHash) && c.hash(publicKey) == ownHash
    requires Payment(Unreserved(mine, pool), tx, toHash, amount, ownHash)
    requires SignedWith(c, tx, signature, publicKey) && tx.id != ""
    requires Exact(pool) && tx.id != ERROR_TRANSACTION_ID && tx.id !in pool.pending
    ensures var after := Receive(pool, tx, Accepted(c, utxos, tx));
            && Exact(after) && after.pending == pool.pending[tx.id := tx]
            && (forall op | op in Inputs(tx) :: op in mine && op in after.reserved && after.reserved[op] == tx.id)
            && Unreserved(mine, after) == Unreserved(mine, pool) - Inputs(tx)
  {
    hide InputSum, OutputSum, Accepted, Payment, Exact, InputsUpTo;
    PaymentVerified(c, utxos, mine, pool, tx, toHash, amount, ownHash, signature, publicKey);
    PaymentAccepted(utxos, mine, pool, tx, toHash, amount, ownHash);
    PaymentInputs(Unreserved(mine, pool), tx, toHash, amount, ownHash);
    forall id | id in pool.pending
      ensures Inputs(pool.pending[id]) !! Inputs(tx)
    {
      PendingReserved(pool, id);
    }
    ReceivedKeptIff(pool, tx, true);
    ReceiveExact(pool, tx, true);
  }

  lemma PaymentInputs(free: Utxos, tx: Transaction, toHash: string, amount: nat, ownHash: string)
    requires Payment(free, tx, toHash, amount, ownHash)
    ensures Inputs(tx) <= free.Keys
  {
  }

  lemma PendingReserved(pool: Pool, id: TxId)
    requires Exact(pool) && id in pool.pending
    ensures Inputs(pool.pending[id]) <= pool.reserved.Keys
  {
  }

  // ----- what a payment moves -----

  /** The entries of one owner after a transaction: the outputs to him are added and the inputs taken out. */
  lemma OwnedAfter(utxos: Utxos, tx: Transaction, owner: string)
    requires Inputs(tx) <= utxos.Keys && Fresh(utxos, tx.id)
    ensures Owned(Spend(utxos, tx), owner) == Owned(utxos, owner) + OwnOutputs(tx, owner) - Inputs(tx)
  {
    hide InputsUpTo;
    forall op
      ensures op in Owned(Spend(utxos, tx), owner) <==> op in Owned(utxos, owner) + OwnOutputs(tx, owner) - Inputs(tx)
      ensures op in Owned(Spend(utxos, tx), owner) ==>
                Owned(Spend(utxos, tx), owner)[op] == (Owned(utxos, owner) + OwnOutputs(tx, owner))[op]
    {
      if op in Outputs(tx) {
        var i :| 0 <= i < |tx.outputs| && op == OutPoint(tx.id, i);
        assert op !in utxos;
      }
    }
  }

  /** A payment to someone else moves exactly its amount from the one total to the other. */
  lemma PaymentMoves(utxos: Utxos, mine: Utxos, pool: Pool, tx: Transaction, toHash: string, amount: nat, ownHash: string)
    requires mine == Owned(utxos, ownHash) && toHash != ownHash && Fresh(utxos, tx.id)
    requires Payment(Unreserved(mine, pool), tx, toHash, amount, ownHash)
    ensures Total(Owned(Spend(utxos, tx), toHash)) == Total(Owned(utxos, toHash)) + amount
    ensures Total(Owned(Spend(utxos, tx), ownHash)) + amount == Total(Owned(utxos, ownHash))
  {
    hide Total, InputSum, Owned, Spend, InputsUpTo;
    PaymentInputs(Unreserved(mine, pool), tx, toHash, amount, ownHash);
    OwnedInputs(utxos, Inputs(tx), toHash, ownHash);
    OwnedAfter(utxos, tx, toHash);
    OwnedAfter(utxos, tx, ownHash);
    Received(utxos, tx, toHash, amount, ownHash);
    Spent(utxos, tx, toHash, amount, ownHash, Unreserved(mine, pool));
  }

  lemma OwnedInputs(utxos: Utxos, ops: set<OutPoint>, toHash: string, ownHash: string)
    requires ops <= Owned(utxos, ownHash).Keys && toHash != ownHash
    ensures ops <= utxos.Keys && ops !! Owned(utxos, toHash).Keys
  {
  }

  lemma NoneOwned(utxos: Utxos, id: TxId, i: nat, owner: string)
    requires Fresh(utxos, id)
    ensures OutPoint(id, i) !in Owned(utxos, owner)
  {
  }

  lemma Received(utxos: Utxos, tx: Transaction, toHash: string, amount: nat, ownHash: string)
    requires toHash != ownHash && Fresh(utxos, tx.id) && Inputs(tx) !! Owned(utxos, toHash).Keys
    requires 1 <= |tx.outputs| <= 2 && tx.outputs[0] == TxOutput(amount, "10" + toHash)
    requires |tx.outputs| == 2 ==> PublicKeyHash(tx.outputs[1].script) == ownHash
    requires Inputs(tx) <= utxos.Keys
    ensures Total(Owned(utxos, toHash) + OwnOutputs(tx, toHash) - Inputs(tx)) == Total(Owned(utxos, toHash)) + amount
  {
    hide Total, InputsUpTo, Owned;
    var op := OutPoint(tx.id, 0);
    NoneOwned(utxos, tx.id, 0, toHash);
    assert op !in utxos;
    assert PublicKeyHash("10" + toHash) == toHash;
    assert OwnOutputs(tx, toHash) == map[op := OutputData(tx, 0)];
    TotalInsert(Owned(utxos, toHash), op, OutputData(tx, 0));
    assert Owned(utxos, toHash) + OwnOutputs(tx, toHash) - Inputs(tx) == Owned(utxos, toHash)[op := OutputData(tx, 0)];
  }

  lemma ChangeOutput(tx: Transaction, toHash: string, amount: nat, ownHash: string)
    requires toHash != ownHash
    requires 1 <= |tx.outputs| <= 2 && tx.outputs[0] == TxOutput(amount, "10" + toHash)
    requires |tx.outputs| == 2 ==> PublicKeyHash(tx.outputs[1].script) == ownHash
    ensures OwnOutputs(tx, ownHash) == if |tx.outputs| == 1 then map[] else map[OutPoint(tx.id, 1) := OutputData(tx, 1)]
    ensures OutputSum(tx.outputs) == amount + if |tx.outputs| == 1 then 0 else tx.outputs[1].value
  {
    assert PublicKeyHash("10" + toHash) == toHash;
    assert tx.outputs[..1] == [tx.outputs[0]] && [tx.outputs[0]][..0] == [];
    assert OutputSum([tx.outputs[0]]) == amount;
    assert |tx.outputs| == 1 ==> tx.outputs == [tx.outputs[0]];
  }

  lemma Spent(utxos: Utxos, tx: Transaction, toHash: string, amount: nat, ownHash: string, free: Utxos)
    requires toHash != ownHash && Fresh(utxos, tx.id) && Payment(free, tx, toHash, amount, ownHash)
    requires forall op | op in free :: op in Owned(utxos, ownHash) && free[op] == Owned(utxos, ownHash)[op]
    ensures Total(Owned(utxos, ownHash) + OwnOutputs(tx, ownHash) - Inputs(tx)) + amount == Total(Owned(utxos, ownHash))
  {
    hide Total, InputSum, Owned, InputsUpTo, OutputSum, OwnOutputsUpTo;
    var own, all := Owned(utxos, ownHash), Owned(utxos, ownHash) + OwnOutputs(tx, ownHash);
    ChangeOutput(tx, toHash, amount, ownHash);
    NoneOwned(utxos, tx.id, 1, ownHash);
    if |tx.outputs| == 2 {
      TotalInsert(own, OutPoint(tx.id, 1), OutputData(tx, 1));
      assert all == own[OutPoint(tx.id, 1) := OutputData(tx, 1)];
    } else {
      assert all == own;
    }
    SameInputSum(free, all, tx.inputs);
    TotalMinusInputs(all, tx, |tx.inputs|);
    assert tx.inputs[..|tx.inputs|] == tx.inputs;
  }
}
