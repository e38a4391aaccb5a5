/** Blocks, headers and the operations on a chain of them, on values. */
module Chain {
  import opened Ledger

  datatype BlockHeader = BlockHeader(index: int, timestamp: int, previousHash: string, hash: string, nonce: nat)

  /** A block; an awaited one is known by its header only. */
  datatype Block = Block(header: BlockHeader, transactions: seq<Transaction>, awaited: bool)

  /** What a block's hash is computed from. */
  datatype Preimage = Preimage(index: int, previousHash: string, timestamp: int, ids: seq<TxId>, nonce: nat)

  type Digest = Preimage -> string

  function TransactionIds(txs: seq<Transaction>): seq<TxId> {
    seq(|txs|, i requires 0 <= i < |txs| => txs[i].id)
  }

  function CalculateHash(digest: Digest, b: Block): string {
    digest(Preimage(b.header.index, b.header.previousHash, b.header.timestamp,
                    TransactionIds(b.transactions), b.header.nonce))
  }

  function Awaiting(header: BlockHeader): Block {
    Block(header, [], true)
  }

  // ----- operations -----

  /** The new block follows the last one and its transactions are accepted. */
  predicate Follows(last: BlockHeader, b: Block, accepted: bool) {
    && last.index == b.header.index - 1
    && b.header.timestamp > last.timestamp
    && b.header.previousHash == last.hash
    && accepted
  }

  /** The verification of a transaction against a set. */
  type Verification = (Transaction, Utxos) -> bool

  /** All transactions of a block pass, each against the same set. */
  predicate AllPass(verify: Verification, utxos: Utxos, b: Block) {
    forall tx | tx in b.transactions :: verify(tx, utxos)
  }

  /** Headers are appended one by one until one does not continue the chain. */
  function AppendHeaders(chain: seq<Block>, headers: seq<BlockHeader>): seq<Block>
    decreases headers
  {
    if headers == [] then chain
    else if chain != [] && headers[0].previousHash != chain[|chain| - 1].header.hash then chain
    else AppendHeaders(chain + [Awaiting(headers[0])], headers[1..])
  }

  /** The position of the first awaited header, or the length when there is none. */
  function FirstAwaited(chain: seq<Block>): (i: nat)
    ensures i <= |chain|
    ensures forall j | 0 <= j < i :: !chain[j].awaited
    ensures i < |chain| ==> chain[i].awaited
  {
    if chain == [] || chain[0].awaited then 0 else FirstAwaited(chain[1..]) + 1
  }

  /** A full block completes the first awaited header when both hashes match and its transactions are accepted. */
  predicate Fills(digest: Digest, chain: seq<Block>, b: Block, accepted: bool) {
    var i := FirstAwaited(chain);
    && i < |chain|
    && CalculateHash(digest, b) == chain[i].header.hash
    && b.header.previousHash == chain[i].header.previousHash
    && accepted
  }

  function Fill(digest: Digest, chain: seq<Block>, b: Block, accepted: bool): seq<Block> {
    if Fills(digest, chain, b, accepted) then chain[FirstAwaited(chain) := b] else chain
  }

  /** A received block fills the first awaited header, or else is added at the end if it follows. */
  function OnBlock(digest: Digest, chain: seq<Block>, b: Block, accepted: bool): seq<Block> {
    if Fills(digest, chain, b, accepted) then Fill(digest, chain, b, accepted)
    else if chain != [] && Follows(chain[|chain| - 1].header, b, accepted) then chain + [b]
    else chain
  }

  /** The height of a hash: the first position that carries it, or -1. */
  function HeightByHash(chain: seq<Block>, hash: string): (h: int)
    ensures -1 <= h < |chain|
    ensures h >= 0 ==> chain[h].header.hash == hash && forall j | 0 <= j < h :: chain[j].header.hash != hash
    ensures h == -1 ==> forall j | 0 <= j < |chain| :: chain[j].header.hash != hash
  {
    if chain == [] then -1
    else if chain[0].header.hash == hash then 0
    else
      var h := HeightByHash(chain[1..], hash);
      assert forall j | 1 <= j < |chain| :: chain[j] == chain[1..][j - 1];
      if h == -1 then -1 else h + 1
  }

  // ----- validity -----

  ghost predicate Linked(chain: seq<Block>) {
    forall i | 1 <= i < |chain| :: chain[i].header.previousHash == chain[i - 1].header.hash
  }

  /** Every full block but the first carries its computed hash. */
  ghost predicate FullBlocksHashed(digest: Digest, chain: seq<Block>) {
    forall i | 1 <= i < |chain| && !chain[i].awaited :: chain[i].header.hash == CalculateHash(digest, chain[i])
  }

  /** What the validity check of the source tests. */
  ghost predicate ChainValid(digest: Digest, chain: seq<Block>) {
    && Linked(chain)
    && forall i | 1 <= i < |chain| :: chain[i].header.hash == CalculateHash(digest, chain[i])
  }

  function AwaitedCount(chain: seq<Block>): nat {
    if chain == [] then 0
    else AwaitedCount(chain[..|chain| - 1]) + (if chain[|chain| - 1].awaited then 1 else 0)
  }

  lemma {:induction false} AwaitedCountUpdate(chain: seq<Block>, i: nat, b: Block)
    requires i < |chain|
    ensures AwaitedCount(chain[i := b]) + (if chain[i].awaited then 1 else 0)
         == AwaitedCount(chain) + (if b.awaited then 1 else 0)
  {
    var n := |chain| - 1;
    if i < n {
      AwaitedCountUpdate(chain[..n], i, b);
      assert chain[i := b][..n] == chain[..n][i := b];
    } else {
      assert chain[i := b][..n] == chain[..n];
    }
  }

  lemma {:induction false} NoneAwaited(chain: seq<Block>)
    ensures AwaitedCount(chain) == 0 <==> forall i | 0 <= i < |chain| :: !chain[i].awaited
  {
    if chain != [] {
      var n := |chain| - 1;
      NoneAwaited(chain[..n]);
      assert forall i | 0 <= i < n :: chain[..n][i] == chain[i];
    }
  }

  /**
   * Filling keeps the chain linked exactly when the block carries its computed hash, or nothing follows the
   * filled position: the source compares the computed hash, and later blocks refer to the carried one.
   */
  lemma FillLinkedIff(digest: Digest, chain: seq<Block>, b: Block)
    requires Linked(chain) && Fills(digest, chain, b, true)
    ensures Linked(Fill(digest, chain, b, true)) <==>
              FirstAwaited(chain) == |chain| - 1 || b.header.hash == CalculateHash(digest, b)
  {
    var i, after := FirstAwaited(chain), Fill(digest, chain, b, true);
    if i < |chain| - 1 {
      assert chain[i + 1].header.previousHash == chain[i].header.hash;
      assert after[i + 1] == chain[i + 1] && after[i] == b;
      if b.header.hash != CalculateHash(digest, b) {
        assert after[i + 1].header.previousHash != after[i].header.hash;
      }
    }
    forall j | 1 <= j < |after| && j != i + 1
      ensures after[j].header.previousHash == after[j - 1].header.hash
    {
      assert chain[j].header.previousHash == chain[j - 1].header.hash;
    }
  }

  // ----- runs -----

  /** Blocks added by agreement, headers from a peer, and blocks from a peer. */
  datatype ChainStep =
    | AddBlock(b: Block, accepted: bool)
    | ReceiveHeaders(headers: seq<BlockHeader>)
    | ReceiveBlock(b: Block, accepted: bool)

  function ApplyStep(digest: Digest, chain: seq<Block>, step: ChainStep): seq<Block> {
    match step
    case AddBlock(b, accepted) =>
      if chain != [] && Follows(chain[|chain| - 1].header, b, accepted) then chain + [b] else chain
    case ReceiveHeaders(headers) => AppendHeaders(chain, headers)
    case ReceiveBlock(b, accepted) => OnBlock(digest, chain, b, accepted)
  }

  function RunSteps(digest: Digest, chain: seq<Block>, steps: seq<ChainStep>): seq<Block> {
    if steps == [] then chain
    else ApplyStep(digest, RunSteps(digest, chain, steps[..|steps| - 1]), steps[|steps| - 1])
  }

  /** Full blocks that arrive are not flagged as awaited. */
  ghost predicate Full(step: ChainStep) {
    step.ReceiveHeaders? || !step.b.awaited
  }

  /** And carry their computed hash. */
  ghost predicate Proper(digest: Digest, step: ChainStep) {
    Full(step) && (step.ReceiveHeaders? || step.b.header.hash == CalculateHash(digest, step.b))
  }

  ghost predicate Consistent(digest: Digest, chain: seq<Block>) {
    Linked(chain) && FullBlocksHashed(digest, chain)
  }

  lemma {:induction false} AppendHeadersConsistent(digest: Digest, chain: seq<Block>, headers: seq<BlockHeader>)
    requires Consistent(digest, chain)
    ensures Consistent(digest, AppendHeaders(chain, headers))
    decreases headers
  {
    if headers != [] && (chain == [] || headers[0].previousHash == chain[|chain| - 1].header.hash) {
      AppendHeadersConsistent(digest, chain + [Awaiting(headers[0])], headers[1..]);
    }
  }

  lemma FillConsistent(digest: Digest, chain: seq<Block>, b: Block, accepted: bool)
    requires Consistent(digest, chain) && b.header.hash == CalculateHash(digest, b)
    ensures Consistent(digest, Fill(digest, chain, b, accepted))
  {
    if Fills(digest, chain, b, accepted) {
      FillLinkedIff(digest, chain, b);
    }
  }

  lemma OnBlockConsistent(digest: Digest, chain: seq<Block>, b: Block, accepted: bool)
    requires Consistent(digest, chain) && b.header.hash == CalculateHash(digest, b)
    ensures Consistent(digest, OnBlock(digest, chain, b, accepted))
  {
    hide CalculateHash;
    FillConsistent(digest, chain, b, accepted);
  }

  /** Any run of proper steps keeps neighbours hash-linked; with nothing awaited the chain is valid. */
  lemma {:induction false} RunConsistent(digest: Digest, chain: seq<Block>, steps: seq<ChainStep>)
    requires Consistent(digest, chain) && forall s | s in steps :: Proper(digest, s)
    ensures Consistent(digest, RunSteps(digest, chain, steps))
    ensures AwaitedCount(RunSteps(digest, chain, steps)) == 0 ==> ChainValid(digest, RunSteps(digest, chain, steps))
  {
    if steps != [] {
      var n := |steps| - 1;
      RunConsistent(digest, chain, steps[..n]);
      var before := RunSteps(digest, chain, steps[..n]);
      assert steps[n] in steps;
      match steps[n]
      case AddBlock(b, accepted) =>
      case ReceiveHeaders(headers) => AppendHeadersConsistent(digest, before, headers);
      case ReceiveBlock(b, accepted) => OnBlockConsistent(digest, before, b, accepted);
    }
    NoneAwaited(RunSteps(digest, chain, steps));
  }

  // ----- runs with blocks that do not carry their computed hash -----

  /** A block refers to the hash its predecessor carries or, where that is not its computed one, to the computed one. */
  ghost predicate Traceable(digest: Digest, chain: seq<Block>) {
    forall i | 1 <= i < |chain| :: LinkTraceable(digest, chain[i - 1], chain[i])
  }

  ghost predicate LinkTraceable(digest: Digest, last: Block, next: Block) {
    || next.header.previousHash == last.header.hash
    || (!last.awaited && last.header.hash != CalculateHash(digest, last)
        && next.header.previousHash == CalculateHash(digest, last))
  }

  /** The second block, if any, refers to the hash the first one carries. */
  ghost predicate FirstLinked(chain: seq<Block>) {
    |chain| > 1 ==> chain[1].header.previousHash == chain[0].header.hash
  }

  lemma {:induction false} AppendHeadersTraceable(digest: Digest, chain: seq<Block>, headers: seq<BlockHeader>)
    requires Traceable(digest, chain)
    ensures Traceable(digest, AppendHeaders(chain, headers))
    ensures chain <= AppendHeaders(chain, headers)
    ensures FirstLinked(chain) ==> FirstLinked(AppendHeaders(chain, headers))
    decreases headers
  {
    hide CalculateHash;
    if headers != [] && (chain == [] || headers[0].previousHash == chain[|chain| - 1].header.hash) {
      AppendHeadersTraceable(digest, chain + [Awaiting(headers[0])], headers[1..]);
    }
  }

  lemma FillTraceable(digest: Digest, chain: seq<Block>, b: Block, accepted: bool)
    requires Traceable(digest, chain) && !b.awaited
    ensures Traceable(digest, Fill(digest, chain, b, accepted))
    ensures chain != [] && !chain[0].awaited && FirstLinked(chain) ==> FirstLinked(Fill(digest, chain, b, accepted))
  {
    hide CalculateHash;
    if Fills(digest, chain, b, accepted) {
      var i, after := FirstAwaited(chain), Fill(digest, chain, b, accepted);
      forall j | 1 <= j < |after|
        ensures LinkTraceable(digest, after[j - 1], after[j])
      {
        assert LinkTraceable(digest, chain[j - 1], chain[j]);
      }
    }
  }

  lemma StepTraceable(digest: Digest, chain: seq<Block>, step: ChainStep)
    requires Traceable(digest, chain) && Full(step)
    ensures Traceable(digest, ApplyStep(digest, chain, step))
    ensures chain != [] && !chain[0].awaited && FirstLinked(chain) ==>
              var after := ApplyStep(digest, chain, step);
              after != [] && !after[0].awaited && FirstLinked(after)
  {
    hide CalculateHash, AppendHeaders;
    match step
    case AddBlock(b, accepted) =>
    case ReceiveHeaders(headers) => AppendHeadersTraceable(digest, chain, headers);
    case ReceiveBlock(b, accepted) => FillTraceable(digest, chain, b, accepted);
  }

  /**
   * Over any run of full blocks, whatever hashes they carry: with nothing awaited the chain is valid exactly when
   * every block after the first carries its computed hash. The first link needs care only when the run itself
   * filled the first block.
   */
  lemma {:induction false} RunValidIff(digest: Digest, chain: seq<Block>, steps: seq<ChainStep>)
    requires Traceable(digest, chain) && forall s | s in steps :: Full(s)
    ensures Traceable(digest, RunSteps(digest, chain, steps))
    ensures AwaitedCount(RunSteps(digest, chain, steps)) == 0 ==>
              (ChainValid(digest, RunSteps(digest, chain, steps)) <==>
                 FullBlocksHashed(digest, RunSteps(digest, chain, steps)) && FirstLinked(RunSteps(digest, chain, steps)))
    ensures chain != [] && !chain[0].awaited && FirstLinked(chain) ==>
              RunSteps(digest, chain, steps) != [] && !RunSteps(digest, chain, steps)[0].awaited
              && FirstLinked(RunSteps(digest, chain, steps))
  {
    hide ApplyStep, CalculateHash;
    if steps != [] {
      var n := |steps| - 1;
      assert steps[n] in steps;
      RunValidIff(digest, chain, steps[..n]);
      StepTraceable(digest, RunSteps(digest, chain, steps[..n]), steps[n]);
    }
    ValidIff(digest, RunSteps(digest, chain, steps));
  }

  lemma ValidIff(digest: Digest, chain: seq<Block>)
    requires Traceable(digest, chain)
    ensures AwaitedCount(chain) == 0 ==>
              (ChainValid(digest, chain) <==> FullBlocksHashed(digest, chain) && FirstLinked(chain))
  {
    hide CalculateHash;
    NoneAwaited(chain);
    if AwaitedCount(chain) == 0 && FullBlocksHashed(digest, chain) && FirstLinked(chain) {
      forall i | 1 <= i < |chain|
        ensures chain[i].header.previousHash == chain[i - 1].header.hash
      {
        assert LinkTraceable(digest, chain[i - 1], chain[i]);
      }
    }
  }

  /** Every successful fill with a full block leaves exactly one header fewer to wait for. */
  lemma FillProgress(digest: Digest, chain: seq<Block>, b: Block, accepted: bool)
    requires !b.awaited
    ensures AwaitedCount(Fill(digest, chain, b, accepted)) + (if Fills(digest, chain, b, accepted) then 1 else 0)
         == AwaitedCount(chain)
  {
    if Fills(digest, chain, b, accepted) {
      AwaitedCountUpdate(chain, FirstAwaited(chain), b);
    }
  }
}
