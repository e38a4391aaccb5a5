/** Pending transactions and the index of the outpoints they reserve. */
module MempoolState {
  import opened Ledger

  datatype Pool = Pool(pending: map<TxId, Transaction>, reserved: map<OutPoint, TxId>)

  const EMPTY_POOL := Pool(map[], map[])

  function Reservations(tx: Transaction, n: nat): map<OutPoint, TxId>
    requires n <= |tx.inputs|
  {
    map op | op in InputsUpTo(tx, n) :: tx.id
  }

  /** Reserving one more input in any index. */
  lemma ReserveStep(reserved: map<OutPoint, TxId>, tx: Transaction, i: nat)
    requires i < |tx.inputs|
    ensures reserved + Reservations(tx, i + 1) == (reserved + Reservations(tx, i))[tx.inputs[i].previous := tx.id]
  {
    hide InputsUpTo;
    InputsStep(tx, i);
  }

  lemma NoReservations(reserved: map<OutPoint, TxId>, tx: Transaction)
    ensures reserved + Reservations(tx, 0) == reserved
  {
  }

  function Add(pool: Pool, tx: Transaction): Pool {
    Pool(pool.pending[tx.id := tx], pool.reserved + Reservations(tx, |tx.inputs|))
  }

  function Remove(pool: Pool, id: TxId): Pool {
    if id !in pool.pending then pool
    else Pool(pool.pending - {id}, pool.reserved - Inputs(pool.pending[id]))
  }

  function RemoveAll(pool: Pool, txs: seq<Transaction>): Pool
    decreases txs
  {
    if txs == [] then pool else RemoveAll(Remove(pool, txs[0].id), txs[1..])
  }

  /** The index is exactly "input of a pending transaction, to its identifier". */
  ghost predicate Exact(pool: Pool) {
    && (forall id | id in pool.pending :: pool.pending[id].id == id)
    && (forall op | op in pool.reserved :: pool.reserved[op] in pool.pending
                                       && op in Inputs(pool.pending[pool.reserved[op]]))
    && (forall id, op | id in pool.pending && op in Inputs(pool.pending[id]) ::
          op in pool.reserved && pool.reserved[op] == id)
  }

  /** No two pending transactions spend the same outpoint. */
  lemma PendingDisjoint(pool: Pool, id: TxId, id': TxId)
    requires Exact(pool) && id in pool.pending && id' in pool.pending && id != id'
    ensures Inputs(pool.pending[id]) !! Inputs(pool.pending[id'])
  {
    forall op | op in Inputs(pool.pending[id])
      ensures op !in Inputs(pool.pending[id'])
    {
      assert pool.reserved[op] == id;
    }
  }

  /**
   * Adding keeps the index exact precisely when every input is free or already reserved under the same
   * identifier, and a replaced transaction keeps all its inputs.
   */
  ghost predicate AddKeepsExact(pool: Pool, tx: Transaction) {
    && (forall op | op in Inputs(tx) :: op in pool.reserved ==> pool.reserved[op] == tx.id)
    && (tx.id in pool.pending ==> Inputs(pool.pending[tx.id]) <= Inputs(tx))
  }

  lemma AddExactIff(pool: Pool, tx: Transaction)
    requires Exact(pool)
    ensures Exact(Add(pool, tx)) <==> AddKeepsExact(pool, tx)
  {
    hide InputsUpTo;
    var after := Add(pool, tx);
    if AddKeepsExact(pool, tx) {
      AddExact(pool, tx);
    } else if exists op :: op in Inputs(tx) && op in pool.reserved && pool.reserved[op] != tx.id {
      var op :| op in Inputs(tx) && op in pool.reserved && pool.reserved[op] != tx.id;
      var id := pool.reserved[op];
      assert id in after.pending && op in Inputs(after.pending[id]);
      assert after.reserved[op] == tx.id;
    } else {
      var op :| op in Inputs(pool.pending[tx.id]) && op !in Inputs(tx);
      assert pool.reserved[op] == tx.id;
      assert op in after.reserved && after.reserved[op] == tx.id;
      assert op !in Inputs(after.pending[tx.id]);
    }
  }

  lemma AddExact(pool: Pool, tx: Transaction)
    requires Exact(pool) && AddKeepsExact(pool, tx)
    ensures Exact(Add(pool, tx))
  {
    hide InputsUpTo;
    var after := Add(pool, tx);
    forall op | op in after.reserved
      ensures after.reserved[op] in after.pending && op in Inputs(after.pending[after.reserved[op]])
    {
      if op !in Inputs(tx) {
        assert pool.reserved[op] in pool.pending;
      }
    }
  }

  /** Removing keeps the index exact, always. */
  lemma RemoveExact(pool: Pool, id: TxId)
    requires Exact(pool)
    ensures Exact(Remove(pool, id))
  {
    hide InputsUpTo;
    if id in pool.pending {
      var after := Remove(pool, id);
      forall op | op in after.reserved
        ensures after.reserved[op] in after.pending && op in Inputs(after.pending[after.reserved[op]])
      {
        assert pool.reserved[op] in pool.pending;
      }
      forall id', op | id' in after.pending && op in Inputs(after.pending[id'])
        ensures op in after.reserved && after.reserved[op] == id'
      {
        PendingDisjoint(pool, id, id');
      }
    }
  }

  function Ids(txs: seq<Transaction>): set<TxId> {
    set tx | tx in txs :: tx.id
  }

  /** A new block takes out exactly its own transactions, with exactly their reservations. */
  lemma {:induction false} RemoveAllExact(pool: Pool, txs: seq<Transaction>)
    requires Exact(pool)
    ensures Exact(RemoveAll(pool, txs))
    ensures RemoveAll(pool, txs).pending == pool.pending - Ids(txs)
    ensures forall op :: op in RemoveAll(pool, txs).reserved <==>
              op in pool.reserved && pool.reserved[op] !in Ids(txs)
    ensures forall op | op in RemoveAll(pool, txs).reserved ::
              RemoveAll(pool, txs).reserved[op] == pool.reserved[op]
    decreases txs
  {
    hide InputsUpTo;
    if txs == [] {
      assert pool.pending - Ids(txs) == pool.pending;
    } else {
      var next := Remove(pool, txs[0].id);
      RemoveExact(pool, txs[0].id);
      RemoveAllExact(next, txs[1..]);
      IdsStep(txs);
      assert next.pending - Ids(txs[1..]) == pool.pending - Ids(txs);
      forall op
        ensures op in next.reserved <==> op in pool.reserved && pool.reserved[op] != txs[0].id
      {
        RemoveReservations(pool, txs[0].id, op);
      }
    }
  }

  lemma IdsStep(txs: seq<Transaction>)
    requires txs != []
    ensures Ids(txs) == {txs[0].id} + Ids(txs[1..])
  {
    assert txs == [txs[0]] + txs[1..];
  }

  lemma RemoveReservations(pool: Pool, id: TxId, op: OutPoint)
    requires Exact(pool)
    ensures op in Remove(pool, id).reserved <==> op in pool.reserved && pool.reserved[op] != id
  {
    hide InputsUpTo;
    if op in pool.reserved {
      assert pool.reserved[op] in pool.pending && op in Inputs(pool.pending[pool.reserved[op]]);
    }
  }

  // ----- runs -----

  /** The three ways a node changes its pool. */
  datatype PoolStep =
    | NewTransaction(tx: Transaction, verified: bool)
    | BlockAccepted(transactions: seq<Transaction>)
    | Commit

  const MIN_TRANSACTIONS_FOR_BLOCK := 2

  /** A received transaction is kept when it is verified, none of its inputs is reserved and its identifier is new. */
  function Receive(pool: Pool, tx: Transaction, verified: bool): Pool {
    if tx.id == ERROR_TRANSACTION_ID || !verified || Inputs(tx) * pool.reserved.Keys != {} then pool
    else Submit(pool, tx)
  }

  /** Nothing happens when a transaction other than the error one is pending under the identifier. */
  function Submit(pool: Pool, tx: Transaction): Pool {
    if tx.id in pool.pending && pool.pending[tx.id].id != ERROR_TRANSACTION_ID then pool else Add(pool, tx)
  }

  function ApplyPool(pool: Pool, step: PoolStep): Pool {
    match step
    case NewTransaction(tx, verified) => Receive(pool, tx, verified)
    case BlockAccepted(transactions) => RemoveAll(pool, transactions)
    case Commit => if |pool.pending| >= MIN_TRANSACTIONS_FOR_BLOCK then EMPTY_POOL else pool
  }

  function RunPool(pool: Pool, steps: seq<PoolStep>): Pool {
    if steps == [] then pool else ApplyPool(RunPool(pool, steps[..|steps| - 1]), steps[|steps| - 1])
  }

  lemma ReceiveExact(pool: Pool, tx: Transaction, verified: bool)
    requires Exact(pool)
    ensures Exact(Receive(pool, tx, verified))
  {
    hide InputsUpTo;
    if Receive(pool, tx, verified) != pool {
      assert forall op | op in Inputs(tx) :: op in pool.reserved ==> op in Inputs(tx) * pool.reserved.Keys;
      AddExact(pool, tx);
    }
  }

  /**
   * From an exact pool a received transaction is kept, with its inputs reserved, exactly when it is verified, has a
   * new identifier other than the error one, and shares no input with a pending transaction.
   */
  lemma ReceivedKeptIff(pool: Pool, tx: Transaction, verified: bool)
    requires Exact(pool)
    ensures var kept := verified && tx.id != ERROR_TRANSACTION_ID && tx.id !in pool.pending
                        && forall id | id in pool.pending :: Inputs(pool.pending[id]) !! Inputs(tx);
            var after := Receive(pool, tx, verified);
            && after.pending == (if kept then pool.pending[tx.id := tx] else pool.pending)
            && (forall op :: op in after.reserved <==> op in pool.reserved || (kept && op in Inputs(tx)))
            && (forall op | op in after.reserved ::
                  after.reserved[op] == if kept && op in Inputs(tx) then tx.id else pool.reserved[op])
  {
    hide InputsUpTo;
    if op :| op in Inputs(tx) * pool.reserved.Keys {
      assert op in Inputs(pool.pending[pool.reserved[op]]);
    } else {
      forall id | id in pool.pending
        ensures Inputs(pool.pending[id]) !! Inputs(tx)
      {
        assert forall op | op in Inputs(pool.pending[id]) :: op in pool.reserved;
        assert forall op | op in Inputs(tx) && op in pool.reserved :: op in Inputs(tx) * pool.reserved.Keys;
      }
    }
  }

  /** After any run from the empty pool the index is exact and the pending transactions spend disjoint outpoints. */
  lemma {:induction false} ExactOverRuns(steps: seq<PoolStep>)
    ensures Exact(RunPool(EMPTY_POOL, steps))
    ensures var pending := RunPool(EMPTY_POOL, steps).pending;
            forall id, id' | id in pending && id' in pending && id != id' ::
              Inputs(pending[id]) !! Inputs(pending[id'])
  {
    hide InputsUpTo;
    if steps != [] {
      var before := RunPool(EMPTY_POOL, steps[..|steps| - 1]);
      ExactOverRuns(steps[..|steps| - 1]);
      match steps[|steps| - 1]
      case NewTransaction(tx, verified) => ReceiveExact(before, tx, verified);
      case BlockAccepted(transactions) => RemoveAllExact(before, transactions);
      case Commit =>
    }
    var pool := RunPool(EMPTY_POOL, steps);
    forall id, id' | id in pool.pending && id' in pool.pending && id != id'
      ensures Inputs(pool.pending[id]) !! Inputs(pool.pending[id'])
    {
      PendingDisjoint(pool, id, id');
    }
  }

  // ----- the class -----

  class Mempool {
    var pendingTransactions: map<TxId, Transaction>
    var reservedUTXOs: map<OutPoint, TxId>

    constructor ()
      ensures State() == EMPTY_POOL
    {
      pendingTransactions, reservedUTXOs := map[], map[];
    }

    function State(): Pool
      reads this
    {
      Pool(pendingTransactions, reservedUTXOs)
    }

    method AddTransaction(tx: Transaction)
      modifies this
      ensures State() == Add(old(State()), tx)
    {
      hide Reservations;
      NoReservations(reservedUTXOs, tx);
      for i := 0 to |tx.inputs|
        invariant pendingTransactions == old(pendingTransactions)
        invariant reservedUTXOs == old(reservedUTXOs) + Reservations(tx, i)
      {
        ReserveStep(old(reservedUTXOs), tx, i);
        reservedUTXOs := reservedUTXOs[tx.inputs[i].previous := tx.id];
      }
      pendingTransactions := pendingTransactions[tx.id := tx];
    }

    method RemoveTransaction(id: TxId)
      modifies this
      ensures State() == Remove(old(State()), id)
    {
      if id in pendingTransactions {
        var tx := pendingTransactions[id];
        for i := 0 to |tx.inputs|
          invariant pendingTransactions == old(pendingTransactions)
          invariant reservedUTXOs == old(reservedUTXOs) - InputsUpTo(tx, i)
        {
          reservedUTXOs := reservedUTXOs - {tx.inputs[i].previous};
          InputsStep(tx, i);
        }
        pendingTransactions := pendingTransactions - {id};
      }
    }

    predicate IsUTXOReserved(op: OutPoint)
      reads this
    {
      op in reservedUTXOs
    }

    method UpdateMempoolOnNewBlock(transactions: seq<Transaction>)
      modifies this
      ensures State() == RemoveAll(old(State()), transactions)
    {
      for t := 0 to |transactions|
        invariant RemoveAll(State(), transactions[t..]) == RemoveAll(old(State()), transactions)
      {
        RemoveTransaction(transactions[t].id);
        assert transactions[t..][1..] == transactions[t + 1..];
      }
    }
  }
}
