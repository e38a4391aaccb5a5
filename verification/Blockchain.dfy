/** The blockchain object: its chain, its mempool and the UTXO set, changed in place. */
module BlockchainModule {
  import opened Ledger
  import opened Chain
  import opened ChainOrder
  import opened MempoolState
  import opened UtxoSet

  const MAX_HEADERS: int := 200

  function HeadersOf(blocks: seq<Block>): seq<BlockHeader> {
    seq(|blocks|, i requires 0 <= i < |blocks| => blocks[i].header)
  }

  /** The block returned when there is nothing to commit. */
  function ErrorBlock(now: int): Block {
    Block(BlockHeader(-1, now, "-1", "-1", 0), [], false)
  }

  /** A new block is stamped with the hash it has while it is still empty. */
  function EmptyBlock(digest: Digest, index: int, previousHash: string, now: int): Block {
    var b := Block(BlockHeader(index, now, previousHash, "", 0), [], false);
    b.(header := b.header.(hash := CalculateHash(digest, b)))
  }

  /** Each pending transaction of the pool occurs exactly once. */
  ghost predicate Lists(txs: seq<Transaction>, pending: map<TxId, Transaction>) {
    && (forall i | 0 <= i < |txs| :: txs[i].id in pending && pending[txs[i].id] == txs[i])
    && (forall i, j | 0 <= i < j < |txs| :: txs[i].id != txs[j].id)
    && Ids(txs) == pending.Keys
  }

  /** Of the blocks from start on, as many as asked for, and none after the block with the stop hash. */
  ghost predicate IsRange(chain: seq<Block>, start: nat, maxCount: int, stopHash: string, result: seq<BlockHeader>) {
    if start > |chain| then result == []
    else
      var end := start + |result|;
      && end <= |chain| && result == HeadersOf(chain[start..end])
      && (maxCount >= 0 ==> |result| <= maxCount)
      && (stopHash != "" ==> forall i | start <= i < end - 1 :: chain[i].header.hash != stopHash)
      && (end == |chain| || |result| == maxCount
          || (stopHash != "" && |result| > 0 && chain[end - 1].header.hash == stopHash))
  }

  class Blockchain {
    const digest: Digest
    const verify: Verification
    const mempool: Mempool
    const utxo: UTXOSet
    var chain: seq<Block>

    constructor (digest: Digest, verify: Verification, mempool: Mempool, utxo: UTXOSet)
      ensures chain == [] && this.digest == digest && this.verify == verify
      ensures this.mempool == mempool && this.utxo == utxo
    {
      this.digest, this.verify, this.mempool, this.utxo := digest, verify, mempool, utxo;
      chain := [];
    }

    predicate Accepted(b: Block)
      reads this, utxo
    {
      AllPass(verify, utxo.utxoSet, b)
    }

    method VerifyBlockTransactions(b: Block) returns (valid: bool)
      ensures valid <==> Accepted(b)
    {
      for i := 0 to |b.transactions|
        invariant forall j | 0 <= j < i :: verify(b.transactions[j], utxo.utxoSet)
      {
        if !verify(b.transactions[i], utxo.utxoSet) {
          return false;
        }
      }
      return true;
    }

    method IsBlockValid(b: Block) returns (valid: bool)
      requires chain != []
      ensures valid <==> Follows(chain[|chain| - 1].header, b, Accepted(b))
      ensures InOrder(chain) ==> (valid <==> Accepted(b) && InOrder(chain + [b]))
    {
      if InOrder(chain) {
        AddedIff(digest, chain, b, Accepted(b));
      }
      var last := chain[|chain| - 1].header;
      var headerValid := last.index == b.header.index - 1
                         && b.header.timestamp > last.timestamp
                         && b.header.previousHash == last.hash;
      var transactionsValid := VerifyBlockTransactions(b);
      return headerValid && transactionsValid;
    }

    /** The latest block must exist: the source reads it before it asks whether the chain is empty. */
    method AddBlock(b: Block) returns (added: bool)
      requires chain != []
      modifies this, mempool
      ensures added <==> Follows(old(chain)[|old(chain)| - 1].header, b, old(Accepted(b)))
      ensures chain == ApplyStep(digest, old(chain), ChainStep.AddBlock(b, old(Accepted(b))))
      ensures InOrder(old(chain)) ==> (added <==> old(Accepted(b)) && InOrder(old(chain) + [b]))
      ensures mempool.State() == if added then RemoveAll(old(mempool.State()), b.transactions) else old(mempool.State())
    {
      added := IsBlockValid(b);
      if added {
        chain := chain + [b];
        mempool.UpdateMempoolOnNewBlock(b.transactions);
      }
    }

    method AddFullBlockToFirstAwaitedHeader(b: Block) returns (filled: bool)
      modifies this
      ensures filled <==> Fills(digest, old(chain), b, old(Accepted(b)))
      ensures chain == Fill(digest, old(chain), b, old(Accepted(b)))
    {
      var i := 0;
      while i < |chain| && !chain[i].awaited
        invariant i <= |chain| && forall j | 0 <= j < i :: !chain[j].awaited
      {
        i := i + 1;
      }
      if i == |chain| {
        return false;
      }
      assert i == FirstAwaited(chain);
      if CalculateHash(digest, b) == chain[i].header.hash && b.header.previousHash == chain[i].header.previousHash {
        var verified := VerifyBlockTransactions(b);
        if verified {
          chain := chain[i := b];
          return true;
        }
      }
      return false;
    }

    /** What the handler of a peer's block does with it: fill an awaited header or, failing that, add it. */
    method ReceiveBlock(b: Block) returns (added: bool)
      requires chain != []
      modifies this, mempool
      ensures chain == OnBlock(digest, old(chain), b, old(Accepted(b)))
      ensures added <==> Fills(digest, old(chain), b, old(Accepted(b)))
                         || Follows(old(chain)[|old(chain)| - 1].header, b, old(Accepted(b)))
    {
      added := AddFullBlockToFirstAwaitedHeader(b);
      if !added {
        added := AddBlock(b);
      }
    }

    method AppendNewHeaders(headers: seq<BlockHeader>)
      modifies this
      ensures chain == AppendHeaders(old(chain), headers)
    {
      for i := 0 to |headers|
        invariant AppendHeaders(chain, headers[i..]) == AppendHeaders(old(chain), headers)
      {
        assert headers[i..][1..] == headers[i + 1..];
        if chain != [] && headers[i].previousHash != chain[|chain| - 1].header.hash {
          return;
        }
        chain := chain + [Awaiting(headers[i])];
      }
    }

    /** The height of a hash is the first position that carries it. */
    method GetHeightByHash(hash: string) returns (height: int)
      ensures height == HeightByHash(chain, hash)
    {
      for i := 0 to |chain|
        invariant forall j | 0 <= j < i :: chain[j].header.hash != hash
      {
        if chain[i].header.hash == hash {
          return i;
        }
      }
      return -1;
    }

    method GetHeadersFrom(startIndex: nat, maxCount: int, stopHash: string) returns (result: seq<BlockHeader>)
      ensures IsRange(chain, startIndex, maxCount, stopHash, result)
    {
      result := [];
      var i := startIndex;
      while i < |chain| && (maxCount < 0 || |result| < maxCount)
        invariant startIndex <= |chain| ==> startIndex <= i <= |chain| && result == HeadersOf(chain[startIndex..i])
        invariant startIndex > |chain| ==> i == startIndex && result == []
        invariant maxCount >= 0 ==> |result| <= maxCount
        invariant stopHash != "" ==> forall j | startIndex <= j < i && j < |chain| :: chain[j].header.hash != stopHash
      {
        result := result + [chain[i].header];
        assert result == HeadersOf(chain[startIndex..i + 1]);
        if stopHash != "" && chain[i].header.hash == stopHash {
          return;
        }
        i := i + 1;
      }
    }

    method GetAppendedHeaders() returns (result: seq<BlockHeader>)
      ensures FirstAwaited(chain) < |chain| ==> IsRange(chain, FirstAwaited(chain), MAX_HEADERS, "", result)
      ensures FirstAwaited(chain) == |chain| ==> result == []
    {
      for i := 0 to |chain|
        invariant forall j | 0 <= j < i :: !chain[j].awaited
      {
        if chain[i].awaited {
          result := GetHeadersFrom(i, MAX_HEADERS, "");
          return;
        }
      }
      return [];
    }

    method IsChainValid() returns (valid: bool)
      ensures valid <==> ChainValid(digest, chain)
    {
      var i := 1;
      while i < |chain|
        invariant 1 <= i
        invariant forall j | 1 <= j < i && j < |chain| :: chain[j].header.hash == CalculateHash(digest, chain[j])
        invariant forall j | 1 <= j < i && j < |chain| :: chain[j].header.previousHash == chain[j - 1].header.hash
      {
        if chain[i].header.hash != CalculateHash(digest, chain[i]) {
          return false;
        }
        if chain[i].header.previousHash != chain[i - 1].header.hash {
          return false;
        }
        i := i + 1;
      }
      return true;
    }

    /** Nothing happens when a transaction other than the error one is pending under the identifier. */
    method AddTransaction(tx: Transaction)
      modifies mempool
      ensures mempool.State() == Submit(old(mempool.State()), tx)
    {
      if tx.id !in mempool.pendingTransactions || mempool.pendingTransactions[tx.id].id == ERROR_TRANSACTION_ID {
        mempool.AddTransaction(tx);
      }
    }

    /**
     * With enough pending transactions, a block with each of them once and the leader's reward at the end; an
     * exact pool is left empty, so the whole step is the commit step of the pool's runs. The block still
     * carries the hash of its empty form.
     */
    method CommitBlock(now: int, reward: Transaction) returns (b: Block)
      requires chain != []
      modifies mempool
      ensures Exact(old(mempool.State())) ==>
                mempool.State() == ApplyPool(old(mempool.State()), Commit)
      ensures if |old(mempool.pendingTransactions)| < 2 then mempool.State() == old(mempool.State())
              else Exact(old(mempool.State())) ==> mempool.pendingTransactions == map[] && mempool.reservedUTXOs == map[]
      ensures |old(mempool.pendingTransactions)| < MIN_TRANSACTIONS_FOR_BLOCK ==> 
                b.header.index == -1 && b.header.hash == "-1" == b.header.previousHash && b.transactions == []
      ensures |old(mempool.pendingTransactions)| >= MIN_TRANSACTIONS_FOR_BLOCK ==>
                && b.header == EmptyBlock(digest, |chain|, chain[|chain| - 1].header.hash, now).header
                && (InOrder(chain) && now > chain[|chain| - 1].header.timestamp ==> InOrder(chain + [b]))
                && !b.awaited && |b.transactions| > 0 && b.transactions[|b.transactions| - 1] == reward
                && (Exact(old(mempool.State())) ==>
                      var txs := b.transactions[..|b.transactions| - 1];
                      && Lists(txs, old(mempool.pendingTransactions)) && |txs| == |old(mempool.pendingTransactions)|
                      && forall tx :: tx in txs <==> tx in old(mempool.pendingTransactions).Values)
                && CommittedHeader(digest, b.header) && (Injective(digest) ==> b.header.hash != CalculateHash(digest, b))
    {
      hide Exact, Lists, InOrder, Injective, CommittedHeader, CalculateHash, EmptyBlock;
      if |mempool.pendingTransactions| < MIN_TRANSACTIONS_FOR_BLOCK {
        return ErrorBlock(now);
      }
      var newBlock := EmptyBlock(digest, |chain|, chain[|chain| - 1].header.hash, now);
      var txs := MovePending();
      b := newBlock.(transactions := txs + [reward], awaited := false);
      assert b.transactions[..|b.transactions| - 1] == txs;
      EmptyHeaderCommitted(digest, |chain|, chain[|chain| - 1].header.hash, now);
      if Injective(digest) {
        CommittedHashIff(digest, b);
      }
      if InOrder(chain) && now > chain[|chain| - 1].header.timestamp {
        CommittedBlockAdded(digest, chain, b, now, true);
      }
    }

    method MovePending() returns (txs: seq<Transaction>)
      modifies mempool
      ensures Exact(old(mempool.State())) ==> mempool.State() == EMPTY_POOL
      ensures Exact(old(mempool.State())) ==>
                && Lists(txs, old(mempool.pendingTransactions)) && |txs| == |old(mempool.pendingTransactions)|
                && forall tx :: tx in txs <==> tx in old(mempool.pendingTransactions).Values
    {
      hide Exact, InputsUpTo, MempoolState.Remove;
      ghost var pool := mempool.State();
      txs := [];
      var rest := mempool.pendingTransactions;
      while rest != map[]
        invariant rest.Keys <= pool.pending.Keys && forall id | id in rest :: rest[id] == pool.pending[id]
        invariant Exact(pool) ==> Exact(mempool.State()) && mempool.pendingTransactions == rest
        invariant Exact(pool) ==> Lists(txs, pool.pending - rest.Keys)
        decreases rest.Keys
      {
        var id :| id in rest;
        ghost var before := mempool.State();
        mempool.RemoveTransaction(rest[id].id);
        if Exact(pool) {
          MoveOne(pool, before, rest, txs, id);
        }
        txs := txs + [rest[id]];
        rest := rest - {id};
      }
      assert pool.pending - {} == pool.pending;
      if Exact(pool) {
        ExactEmpty(mempool.State());
        ExactIdentifiers(pool);
        ListsAll(txs, pool.pending);
      }
    }
  }

  lemma ExactIdentifiers(pool: Pool)
    requires Exact(pool)
    ensures forall id | id in pool.pending :: pool.pending[id].id == id
  {
  }

  lemma EmptyHeaderCommitted(digest: Digest, index: int, previousHash: string, now: int)
    ensures CommittedHeader(digest, EmptyBlock(digest, index, previousHash, now).header)
  {
    assert TransactionIds([]) == [];
  }

  lemma {:induction false} ListsAll(txs: seq<Transaction>, pending: map<TxId, Transaction>)
    requires Lists(txs, pending) && forall id | id in pending :: pending[id].id == id
    ensures |txs| == |pending| && forall tx :: tx in txs <==> tx in pending.Values
  {
    DistinctIds(txs);
    assert |pending| == |pending.Keys|;
    forall tx | tx in pending.Values
      ensures tx in txs
    {
      var id :| id in pending && pending[id] == tx;
      assert id in Ids(txs);
    }
  }

  lemma {:induction false} DistinctIds(txs: seq<Transaction>)
    requires forall i, j | 0 <= i < j < |txs| :: txs[i].id != txs[j].id
    ensures |Ids(txs)| == |txs|
  {
    if txs == [] {
      assert Ids(txs) == {};
    } else {
      var n := |txs| - 1;
      DistinctIds(txs[..n]);
      assert txs == txs[..n] + [txs[n]];
      assert Ids(txs) == Ids(txs[..n]) + {txs[n].id};
    }
  }

  lemma ExactEmpty(pool: Pool)
    requires Exact(pool) && pool.pending == map[]
    ensures pool == EMPTY_POOL
  {
    assert pool.reserved.Keys == {};
  }

  lemma MoveOne(pool: Pool, now: Pool, rest: map<TxId, Transaction>, txs: seq<Transaction>, id: TxId)
    requires Exact(pool) && Exact(now) && now.pending == rest && id in rest
    requires rest.Keys <= pool.pending.Keys && forall i | i in rest :: rest[i] == pool.pending[i]
    requires Lists(txs, pool.pending - rest.Keys)
    ensures Exact(MempoolState.Remove(now, rest[id].id)) && MempoolState.Remove(now, rest[id].id).pending == rest - {id}
    ensures Lists(txs + [rest[id]], pool.pending - (rest - {id}).Keys)
  {
    assert rest[id].id == id by { assert pool.pending[id].id == id; }
    RemoveExact(now, id);
    hide Exact;
    var more := txs + [rest[id]];
    var taken := pool.pending - (rest - {id}).Keys;
    assert Ids(more) == Ids(txs) + {id} by {
      assert rest[id] in more;
      assert forall tx :: tx in more <==> tx in txs || tx == rest[id];
    }
    assert taken.Keys == (pool.pending - rest.Keys).Keys + {id};
    forall i | 0 <= i < |txs|
      ensures txs[i].id != id
    {
      assert txs[i].id in pool.pending - rest.Keys;
    }
  }

  // ----- a committed block -----

  /** On a chain in order, a block committed later than the last one is added when its transactions pass. */
  lemma CommittedBlockAdded(digest: Digest, chain: seq<Block>, b: Block, now: int, accepted: bool)
    requires chain != [] && InOrder(chain) && now > chain[|chain| - 1].header.timestamp
    requires b.header == EmptyBlock(digest, |chain|, chain[|chain| - 1].header.hash, now).header
    ensures InOrder(chain + [b])
    ensures ApplyStep(digest, chain, AddBlock(b, accepted)) == if accepted then chain + [b] else chain
  {
    AddedIff(digest, chain, b, accepted);
  }

  /** The header of a committed block, with any nonce mining has put there since; the hash is never set again. */
  ghost predicate CommittedHeader(digest: Digest, header: BlockHeader) {
    header.hash == digest(Preimage(header.index, header.previousHash, header.timestamp, [], 0))
  }

  /**
   * A block with such a header carries its computed hash exactly while it is still empty and has no nonce,
   * whatever transactions and nonce it was given.
   */
  lemma CommittedHashIff(digest: Digest, b: Block)
    requires Injective(digest) && CommittedHeader(digest, b.header)
    ensures b.header.hash == CalculateHash(digest, b) <==> b.transactions == [] && b.header.nonce == 0
  {
    var h := b.header;
    var empty := Preimage(h.index, h.previousHash, h.timestamp, [], 0);
    var full := Preimage(h.index, h.previousHash, h.timestamp, TransactionIds(b.transactions), h.nonce);
    assert empty == full <==> TransactionIds(b.transactions) == [] && h.nonce == 0;
    assert TransactionIds(b.transactions) == [] <==> |TransactionIds(b.transactions)| == 0;
  }

  /**
   * So a block that holds the leader's reward, mined or not, never completes its own header, and no chain that
   * has it after the first position is valid.
   */
  lemma CommittedBlockRejected(digest: Digest, b: Block, chain: seq<Block>, i: nat, accepted: bool)
    requires Injective(digest) && CommittedHeader(digest, b.header) && b.transactions != []
    requires i < |chain|
    ensures chain[i] == Awaiting(b.header) && FirstAwaited(chain) == i ==> !Fills(digest, chain, b, accepted)
    ensures i > 0 && chain[i] == b ==> !ChainValid(digest, chain)
  {
    hide CommittedHeader, CalculateHash;
    CommittedHashIff(digest, b);
  }
}
