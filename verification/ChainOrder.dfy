/** What the checks on a new block are for: order along the chain, and a last hash that settles what is before it. */
module ChainOrder {
  import opened Chain
  import opened Ledger

  /** Indices count from 0, timestamps increase, and every block names the hash that the one before it carries. */
  ghost predicate InOrder(chain: seq<Block>) {
    && (forall i | 0 <= i < |chain| :: chain[i].header.index == i)
    && (forall i, j | 0 <= i < j < |chain| :: chain[i].header.timestamp < chain[j].header.timestamp)
    && (forall i | 1 <= i < |chain| :: chain[i].header.previousHash == chain[i - 1].header.hash)
  }

  /** On a chain in order, adding a block extends it exactly when its transactions pass and the longer chain is in order. */
  lemma AddedIff(digest: Digest, chain: seq<Block>, b: Block, accepted: bool)
    requires chain != [] && InOrder(chain)
    ensures ApplyStep(digest, chain, AddBlock(b, accepted))
         == if accepted && InOrder(chain + [b]) then chain + [b] else chain
  {
    var n, longer := |chain|, chain + [b];
    assert longer[n] == b && longer[n - 1] == chain[n - 1];
    if Follows(chain[n - 1].header, b, accepted) {
      assert forall i | 0 <= i < n :: longer[i] == chain[i];
    } else if InOrder(longer) {
      assert longer[n].header.index == n;
    }
  }

  /** Blocks added by agreement or received while nothing is awaited. */
  ghost predicate FullBlock(step: ChainStep) {
    !step.ReceiveHeaders? && !step.b.awaited
  }

  ghost predicate Complete(chain: seq<Block>) {
    forall i | 0 <= i < |chain| :: !chain[i].awaited
  }

  /** A received block is then treated as an agreed one. */
  lemma ReceivedIsAdded(digest: Digest, chain: seq<Block>, b: Block, accepted: bool)
    requires Complete(chain)
    ensures ApplyStep(digest, chain, ReceiveBlock(b, accepted)) == ApplyStep(digest, chain, AddBlock(b, accepted))
  {
  }

  /** Over any run of full blocks a chain in order only grows, stays in order and has nothing awaited. */
  lemma {:induction false} RunInOrder(digest: Digest, chain: seq<Block>, steps: seq<ChainStep>)
    requires chain != [] && InOrder(chain) && Complete(chain) && forall s | s in steps :: FullBlock(s)
    ensures var after := RunSteps(digest, chain, steps); chain <= after && InOrder(after) && Complete(after)
  {
    hide InOrder, ApplyStep;
    if steps != [] {
      var n := |steps| - 1;
      assert steps[n] in steps;
      RunInOrder(digest, chain, steps[..n]);
      var before, b, accepted := RunSteps(digest, chain, steps[..n]), steps[n].b, steps[n].accepted;
      AddedIff(digest, before, b, accepted);
      ReceivedIsAdded(digest, before, b, accepted);
    }
  }

  // ----- the last hash -----

  /** Different contents have different hashes. */
  ghost predicate Injective(digest: Digest) {
    forall a, b :: digest(a) == digest(b) ==> a == b
  }

  /** Equal in everything but the transactions, which have the same identifiers in the same order. */
  ghost predicate SameContents(a: Block, b: Block) {
    && a.header == b.header && |a.transactions| == |b.transactions|
    && forall i | 0 <= i < |a.transactions| :: a.transactions[i].id == b.transactions[i].id
  }

  lemma HashSettles(digest: Digest, a: Block, b: Block)
    requires Injective(digest) && a.header.hash == CalculateHash(digest, a) && b.header.hash == CalculateHash(digest, b)
    ensures a.header.hash == b.header.hash <==> SameContents(a, b)
  {
    var s, t := TransactionIds(a.transactions), TransactionIds(b.transactions);
    if SameContents(a, b) {
      assert s == t;
    }
    if a.header.hash == b.header.hash {
      assert s == t && a.header == b.header;
      assert |s| == |a.transactions| && |t| == |b.transactions|;
      assert forall i | 0 <= i < |a.transactions| :: s[i] == a.transactions[i].id && t[i] == b.transactions[i].id;
    }
  }

  /** Two valid chains of one length with the same last hash have the same contents from the second block on. */
  lemma {:induction false} LastHashSettlesChain(digest: Digest, a: seq<Block>, b: seq<Block>)
    requires Injective(digest) && ChainValid(digest, a) && ChainValid(digest, b)
    requires |a| == |b| > 0 && a[|a| - 1].header.hash == b[|b| - 1].header.hash
    ensures a[0].header.hash == b[0].header.hash
    ensures forall i | 1 <= i < |a| :: SameContents(a[i], b[i])
  {
    hide CalculateHash, SameContents;
    var n := |a| - 1;
    if n > 0 {
      HashSettles(digest, a[n], b[n]);
      assert a[n].header == b[n].header by { assert SameContents(a[n], b[n]); SameHeaders(a[n], b[n]); }
      LastHashSettlesChain(digest, a[..n], b[..n]);
      assert forall i | 1 <= i < n :: SameContents(a[..n][i], b[..n][i]);
    }
  }

  lemma SameHeaders(a: Block, b: Block)
    requires SameContents(a, b)
    ensures a.header == b.header
  {
  }
}
