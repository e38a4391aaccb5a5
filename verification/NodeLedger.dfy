/**
 * What a node does to its chain, to the global set and to its wallet when a block is agreed on or received, and
 * when the three stay in agreement.
 */
module NodeLedger {
  import opened Chain
  import opened Ledger
  import opened MachineWords
  import opened Sequences
  import opened UtxoSet
  import opened WalletIndex
  import opened WalletModule

  /** The chain, the global set and the wallet's own map. */
  datatype State = State(chain: seq<Block>, utxos: Utxos, mine: Utxos)

  /** A block handed over by the agreement handlers, or a block or headers received from a peer. */
  datatype Step = Commit(b: Block) | Receive(b: Block) | Headers(headers: seq<BlockHeader>)

  /** The block follows the last one and its transactions pass against the set before it. */
  predicate Valid(verify: Verification, s: State, b: Block) {
    s.chain != [] && Follows(s.chain[|s.chain| - 1].header, b, AllPass(verify, s.utxos, b))
  }

  function Process(s: State, b: Block, owner: string): State {
    s.(utxos := SpendAll(s.utxos, b.transactions), mine := UpdateAll(s.mine, b.transactions, owner))
  }

  /**
   * A received block is processed when the chain took it; an agreed block is always processed, whether or not the
   * chain took it.
   */
  function Apply(digest: Digest, verify: Verification, owner: string, s: State, step: Step): State {
    match step
    case Commit(b) =>
      Process(s, b, owner).(chain := ApplyStep(digest, s.chain, AddBlock(b, AllPass(verify, s.utxos, b))))
    case Receive(b) =>
      var accepted := AllPass(verify, s.utxos, b);
      var chain := OnBlock(digest, s.chain, b, accepted);
      if Fills(digest, s.chain, b, accepted) || Valid(verify, s, b) then Process(s, b, owner).(chain := chain)
      else s.(chain := chain)
    case Headers(headers) => s.(chain := AppendHeaders(s.chain, headers))
  }

  function Run(digest: Digest, verify: Verification, owner: string, s: State, steps: seq<Step>): State {
    if steps == [] then s
    else Apply(digest, verify, owner, Run(digest, verify, owner, s, steps[..|steps| - 1]), steps[|steps| - 1])
  }

  // ----- the set and the chain -----

  /** The set after all blocks of a chain. */
  function Replay(start: Utxos, chain: seq<Block>): Utxos {
    if chain == [] then start
    else SpendAll(Replay(start, chain[..|chain| - 1]), chain[|chain| - 1].transactions)
  }

  /**
   * The chain is complete up to its first awaited header and awaited from there on, and the set is what the
   * complete blocks make of the starting one.
   */
  ghost predicate Agrees(start: Utxos, s: State) {
    var f := FirstAwaited(s.chain);
    && (forall i | f <= i < |s.chain| :: s.chain[i].awaited)
    && s.utxos == Replay(start, s.chain[..f])
  }

  predicate NothingAwaited(s: State) {
    FirstAwaited(s.chain) == |s.chain|
  }

  /**
   * Headers do no harm. A received block does none if it completes a header, is refused, or comes when nothing is
   * awaited. An agreed block does none if it is valid when nothing is awaited, or refused and without effect.
   */
  ghost predicate Harmless(digest: Digest, verify: Verification, s: State, step: Step) {
    match step
    case Headers(_) => true
    case Receive(b) => Fills(digest, s.chain, b, AllPass(verify, s.utxos, b)) || !Valid(verify, s, b) || NothingAwaited(s)
    case Commit(b) => if Valid(verify, s, b) then NothingAwaited(s) else SpendAll(s.utxos, b.transactions) == s.utxos
  }

  /** The blocks of a step are full. */
  predicate FullStep(step: Step) {
    step.Headers? || !step.b.awaited
  }

  /** The first awaited position, from what is before it. */
  lemma FirstAwaitedIs(chain: seq<Block>, f: nat)
    requires f <= |chain| && (forall i | 0 <= i < f :: !chain[i].awaited) && (f < |chain| ==> chain[f].awaited)
    ensures FirstAwaited(chain) == f
  {
  }

  lemma {:induction false} HeadersAwaited(chain: seq<Block>, headers: seq<BlockHeader>)
    ensures chain <= AppendHeaders(chain, headers)
    ensures forall i | |chain| <= i < |AppendHeaders(chain, headers)| :: AppendHeaders(chain, headers)[i].awaited
    decreases headers
  {
    if headers != [] && (chain == [] || headers[0].previousHash == chain[|chain| - 1].header.hash) {
      HeadersAwaited(chain + [Awaiting(headers[0])], headers[1..]);
    }
  }

  lemma ReplaySnoc(start: Utxos, chain: seq<Block>, b: Block)
    ensures Replay(start, chain + [b]) == SpendAll(Replay(start, chain), b.transactions)
  {
    assert (chain + [b])[..|chain|] == chain;
  }

  lemma HeadersAgree(digest: Digest, verify: Verification, owner: string, start: Utxos, s: State, headers: seq<BlockHeader>)
    requires Agrees(start, s)
    ensures Agrees(start, Apply(digest, verify, owner, s, Headers(headers)))
  {
    hide Replay;
    var after := AppendHeaders(s.chain, headers);
    HeadersAwaited(s.chain, headers);
    FirstAwaitedIs(after, FirstAwaited(s.chain));
    assert after[..FirstAwaited(s.chain)] == s.chain[..FirstAwaited(s.chain)];
  }

  /** Completing the first awaited header with a processed block. */
  lemma FillAgrees(start: Utxos, s: State, b: Block, utxos: Utxos)
    requires Agrees(start, s) && !b.awaited && !NothingAwaited(s) && utxos == SpendAll(s.utxos, b.transactions)
    ensures Agrees(start, s.(chain := s.chain[FirstAwaited(s.chain) := b], utxos := utxos))
  {
    hide SpendAll, Replay;
    var f := FirstAwaited(s.chain);
    var after := s.chain[f := b];
    FirstAwaitedIs(after, f + 1);
    assert after[..f + 1] == s.chain[..f] + [b];
    ReplaySnoc(start, s.chain[..f], b);
  }

  /** Appending a processed block, which leaves what is awaited behind it unless nothing is. */
  lemma AppendAgreesIff(start: Utxos, s: State, b: Block, utxos: Utxos)
    requires Agrees(start, s) && !b.awaited && utxos == SpendAll(s.utxos, b.transactions)
    ensures Agrees(start, s.(chain := s.chain + [b], utxos := utxos)) <==> NothingAwaited(s)
  {
    hide SpendAll, Replay;
    var f := FirstAwaited(s.chain);
    var after := s.chain + [b];
    if NothingAwaited(s) {
      FirstAwaitedIs(after, |after|);
      assert after[..|after|] == after && s.chain[..f] == s.chain;
      ReplaySnoc(start, s.chain, b);
    } else {
      FirstAwaitedIs(after, f);
      assert !after[|s.chain|].awaited;
    }
  }

  lemma AgreesIgnoresWallet(start: Utxos, s: State, t: State)
    requires s.chain == t.chain && s.utxos == t.utxos
    ensures Agrees(start, s) <==> Agrees(start, t)
  {
  }

  /** A step keeps the set in agreement with the chain exactly when it is harmless. */
  lemma StepAgreesIff(digest: Digest, verify: Verification, owner: string, start: Utxos, s: State, step: Step)
    requires Agrees(start, s) && FullStep(step)
    ensures Agrees(start, Apply(digest, verify, owner, s, step)) <==> Harmless(digest, verify, s, step)
  {
    if step.Headers? {
      HeadersAgree(digest, verify, owner, start, s, step.headers);
    } else {
      BlockAgreesIff(digest, verify, owner, start, s, step);
    }
  }

  /** The chain and the set after a block: it completed a header, was appended, or was refused. */
  lemma AfterBlock(digest: Digest, verify: Verification, owner: string, s: State, step: Step)
    requires !step.Headers?
    ensures var after, b := Apply(digest, verify, owner, s, step), step.b;
            var fills := step.Receive? && Fills(digest, s.chain, b, AllPass(verify, s.utxos, b));
            && after.chain == (if fills then s.chain[FirstAwaited(s.chain) := b]
                               else if Valid(verify, s, b) then s.chain + [b] else s.chain)
            && after.utxos == (if step.Commit? || fills || Valid(verify, s, b) then SpendAll(s.utxos, b.transactions)
                               else s.utxos)
            && (fills ==> !NothingAwaited(s))
  {
    hide SpendAll, UpdateAll, CalculateHash, AllPass;
  }

  lemma BlockAgreesIff(digest: Digest, verify: Verification, owner: string, start: Utxos, s: State, step: Step)
    requires Agrees(start, s) && !step.Headers? && !step.b.awaited
    ensures Agrees(start, Apply(digest, verify, owner, s, step)) <==> Harmless(digest, verify, s, step)
  {
    hide SpendAll, Agrees, Apply, Fills, Valid, AllPass, NothingAwaited;
    var utxos, after := SpendAll(s.utxos, step.b.transactions), Apply(digest, verify, owner, s, step);
    AfterBlock(digest, verify, owner, s, step);
    AppendAgreesIff(start, s, step.b, utxos);
    if !NothingAwaited(s) {
      FillAgrees(start, s, step.b, utxos);
    }
    AgreesIgnoresWallet(start, after, s.(chain := after.chain, utxos := after.utxos));
    RefusedAgreesIff(start, s, utxos);
  }

  lemma RefusedAgreesIff(start: Utxos, s: State, utxos: Utxos)
    requires Agrees(start, s)
    ensures Agrees(start, s.(utxos := utxos)) <==> utxos == s.utxos
  {
    hide Replay;
  }

  /** They agree at the end of the run and of every run it starts with. */
  ghost predicate AgreesThroughout(digest: Digest, verify: Verification, owner: string, start: Utxos, s: State,
                                   steps: seq<Step>)
  {
    && Agrees(start, Run(digest, verify, owner, s, steps))
    && (steps == [] || AgreesThroughout(digest, verify, owner, start, s, steps[..|steps| - 1]))
  }

  /** Every step is harmless where it is taken. */
  ghost predicate HarmlessThroughout(digest: Digest, verify: Verification, owner: string, s: State, steps: seq<Step>) {
    steps == [] ||
    var front := steps[..|steps| - 1];
    && Harmless(digest, verify, Run(digest, verify, owner, s, front), steps[|steps| - 1])
    && HarmlessThroughout(digest, verify, owner, s, front)
  }

  /** Over whole runs the two agree throughout exactly when every step is harmless where it is taken. */
  lemma {:induction false} RunAgreesIff(digest: Digest, verify: Verification, owner: string, start: Utxos, s: State,
                                        steps: seq<Step>)
    requires Agrees(start, s) && forall step | step in steps :: FullStep(step)
    ensures AgreesThroughout(digest, verify, owner, start, s, steps) <==>
              HarmlessThroughout(digest, verify, owner, s, steps)
  {
    hide Agrees, Harmless, Apply;
    if steps != [] {
      var n := |steps| - 1;
      RunAgreesIff(digest, verify, owner, start, s, steps[..n]);
      assert steps[n] in steps;
      if Agrees(start, Run(digest, verify, owner, s, steps[..n])) {
        StepAgreesIff(digest, verify, owner, start, Run(digest, verify, owner, s, steps[..n]), steps[n]);
      }
    }
  }

  /** Agreed blocks are valid when handed over, and blocks only extend a chain on which nothing is awaited. */
  ghost predicate ValidThroughout(digest: Digest, verify: Verification, owner: string, s: State, steps: seq<Step>) {
    steps == [] ||
    var front, last := steps[..|steps| - 1], steps[|steps| - 1];
    var before := Run(digest, verify, owner, s, front);
    && (last.Commit? ==> Valid(verify, before, last.b) && NothingAwaited(before))
    && (last.Receive? && !NothingAwaited(before) ==>
          Fills(digest, before.chain, last.b, AllPass(verify, before.utxos, last.b)) || !Valid(verify, before, last.b))
    && ValidThroughout(digest, verify, owner, s, front)
  }

  /** Over any such run, with headers completed in between, they agree throughout. */
  lemma ValidRunAgrees(digest: Digest, verify: Verification, owner: string, start: Utxos, s: State, steps: seq<Step>)
    requires Agrees(start, s) && forall step | step in steps :: FullStep(step)
    requires ValidThroughout(digest, verify, owner, s, steps)
    ensures AgreesThroughout(digest, verify, owner, start, s, steps)
  {
    hide Agrees, Valid, Run;
    ValidIsHarmless(digest, verify, owner, s, steps);
    RunAgreesIff(digest, verify, owner, start, s, steps);
  }

  lemma {:induction false} ValidIsHarmless(digest: Digest, verify: Verification, owner: string, s: State, steps: seq<Step>)
    requires ValidThroughout(digest, verify, owner, s, steps)
    ensures HarmlessThroughout(digest, verify, owner, s, steps)
  {
    hide Valid, Run, Fills, NothingAwaited;
    if steps != [] {
      ValidIsHarmless(digest, verify, owner, s, steps[..|steps| - 1]);
    }
  }

  /** An agreed block with an output that the chain refuses leaves the set and the chain apart. */
  lemma RefusedBlockDiverges(digest: Digest, verify: Verification, owner: string, g: Block, b: Block, tx: Transaction)
    requires !g.awaited && g.transactions == [] && !b.awaited && b.transactions == [tx]
    requires tx.inputs == [] && tx.outputs != [] && !verify(tx, map[])
    ensures var s := State([g], map[], map[]);
            Agrees(map[], s) && !Agrees(map[], Apply(digest, verify, owner, s, Commit(b)))
  {
    var s := State([g], map[], map[]);
    assert [g][..0] == [] && [g][..1] == [g];
    assert Agrees(map[], s);
    assert tx in b.transactions;
    assert [tx][1..] == [];
    assert OutPoint(tx.id, 0) in Spend(map[], tx);
    assert SpendAll(map[], [tx]) == Spend(map[], tx);
    StepAgreesIff(digest, verify, owner, map[], s, Commit(b));
  }

  // ----- what is on the chain has passed -----

  /** The blocks of the chain after a step: those before it, awaited headers, and the block of the step if it passed. */
  lemma StepPassed(digest: Digest, verify: Verification, owner: string, s: State, step: Step, b: Block)
    requires b in Apply(digest, verify, owner, s, step).chain && !b.awaited && b !in s.chain
    ensures !step.Headers? && step.b == b && forall tx | tx in b.transactions :: verify(tx, s.utxos)
  {
    hide SpendAll, UpdateAll, CalculateHash;
    if step.Headers? {
      HeadersAwaited(s.chain, step.headers);
    } else {
      AfterBlock(digest, verify, owner, s, step);
    }
  }

  /**
   * Over any run: a full block that the run brought onto the chain arrived at some step, and there each of its
   * transactions passed against the set before that step.
   */
  lemma {:induction false} ChainPassed(digest: Digest, verify: Verification, owner: string, s: State, steps: seq<Step>,
                                       b: Block) returns (k: nat)
    requires b in Run(digest, verify, owner, s, steps).chain && !b.awaited && b !in s.chain
    ensures k < |steps| && !steps[k].Headers? && steps[k].b == b
    ensures forall tx | tx in b.transactions :: verify(tx, Run(digest, verify, owner, s, steps[..k]).utxos)
  {
    hide Apply;
    var n := |steps| - 1;
    var before := Run(digest, verify, owner, s, steps[..n]);
    if b in before.chain {
      k := ChainPassed(digest, verify, owner, s, steps[..n], b);
      assert steps[..n][..k] == steps[..k];
    } else {
      k := n;
      StepPassed(digest, verify, owner, before, steps[n], b);
    }
  }

  // ----- the set and the wallet -----

  /** Whatever blocks are refused: over any run of regular transactions the wallet is its part of the set. */
  lemma {:induction false} RunWalletAgrees(digest: Digest, verify: Verification, owner: string, s: State,
                                           steps: seq<Step>, table: map<TxId, seq<TxOutput>>)
    requires s.mine == Owned(s.utxos, owner) && Recorded(s.utxos, table)
    requires forall step, tx | step in steps && !step.Headers? && tx in step.b.transactions :: Regular(tx, table)
    ensures var after := Run(digest, verify, owner, s, steps);
            after.mine == Owned(after.utxos, owner) && Recorded(after.utxos, table)
  {
    hide Recorded, Regular, Owned, SpendAll, UpdateAll, AllPass, Valid, Fills, OnBlock;
    if steps != [] {
      var n := |steps| - 1;
      RunWalletAgrees(digest, verify, owner, s, steps[..n], table);
      var before := Run(digest, verify, owner, s, steps[..n]);
      assert steps[n] in steps;
      if !steps[n].Headers? {
        AgreementOverRuns(before.utxos, steps[n].b.transactions, owner, table);
      }
    }
  }

  /** The two objects, block by block; the balance is then the total of the owner's part of the global set. */
  method ProcessBlocks(wallet: Wallet, utxo: UTXOSet, blocks: seq<seq<Transaction>>,
                       ghost table: map<TxId, seq<TxOutput>>)
      returns (balance: nat)
    requires wallet.myUTXOs == Owned(utxo.utxoSet, wallet.publicKeyHash) && Recorded(utxo.utxoSet, table)
    requires forall txs, tx | txs in blocks && tx in txs :: Regular(tx, table)
    modifies wallet, utxo
    ensures utxo.utxoSet == SpendAll(old(utxo.utxoSet), Concat(blocks))
    ensures wallet.myUTXOs == Owned(utxo.utxoSet, wallet.publicKeyHash)
    ensures balance == Total(Owned(utxo.utxoSet, wallet.publicKeyHash)) % UINT64
  {
    hide Recorded, Regular, Owned, SpendAll, UpdateAll, Total;
    for i := 0 to |blocks|
      invariant wallet.myUTXOs == Owned(utxo.utxoSet, wallet.publicKeyHash) && Recorded(utxo.utxoSet, table)
      invariant SpendAll(utxo.utxoSet, Concat(blocks[i..])) == SpendAll(old(utxo.utxoSet), Concat(blocks))
    {
      assert blocks[i] in blocks && blocks[i..][1..] == blocks[i + 1..];
      AgreementOverRuns(utxo.utxoSet, blocks[i], wallet.publicKeyHash, table);
      SpendAllConcat(utxo.utxoSet, blocks[i], Concat(blocks[i + 1..]));
      wallet.UpdateUTXOsFromNewBlock(blocks[i]);
      utxo.AddBlock(blocks[i]);
    }
    NothingSpent(utxo.utxoSet);
    balance := wallet.GetBalance();
  }

  lemma NothingSpent(utxos: Utxos)
    ensures SpendAll(utxos, []) == utxos
  {
  }
}
