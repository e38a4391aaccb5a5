/**
 * Header-first synchronisation: a receiver appends a peer's headers, then fills them in with the peer's
 * blocks. It reproduces exactly those chains whose blocks carry their computed hashes, and one full exchange of
 * messages only those of up to 200 blocks.
 */
module HeaderSync {
  import opened Chain
  import opened ChainOrder
  import opened BlockchainModule

  /** A peer's chain: full blocks, linked by the hashes they carry. */
  ghost predicate PeerChain(peer: seq<Block>) {
    Linked(peer) && forall i | 0 <= i < |peer| :: !peer[i].awaited
  }

  ghost predicate DistinctHashes(peer: seq<Block>) {
    forall i, j | 0 <= i < j < |peer| :: peer[i].header.hash != peer[j].header.hash
  }

  predicate CarriesHash(digest: Digest, b: Block) {
    b.header.hash == CalculateHash(digest, b)
  }

  /** The blocks from i up to k carry their computed hashes. */
  predicate Hashed(digest: Digest, peer: seq<Block>, i: nat, k: nat)
    requires i <= k <= |peer|
  {
    forall j | i <= j < k :: CarriesHash(digest, peer[j])
  }

  function AwaitingAll(blocks: seq<Block>): seq<Block> {
    seq(|blocks|, i requires 0 <= i < |blocks| => Awaiting(blocks[i].header))
  }

  /** The peer's chain up to height e, of which the first i blocks are complete. */
  function Partial(peer: seq<Block>, i: nat, e: nat): seq<Block>
    requires i <= e <= |peer|
  {
    peer[..i] + AwaitingAll(peer[i..e])
  }

  function Min(a: int, b: int): int {
    if a < b then a else b
  }

  function HeadersFrom(chain: seq<Block>, start: nat, maxCount: nat): seq<BlockHeader>
    requires start <= |chain|
  {
    HeadersOf(chain[start..Min(|chain|, start + maxCount)])
  }

  /** Without a stop hash, a range of headers is determined. */
  lemma RangeDetermined(chain: seq<Block>, start: nat, maxCount: nat, result: seq<BlockHeader>)
    requires start <= |chain| && IsRange(chain, start, maxCount, "", result)
    ensures result == HeadersFrom(chain, start, maxCount)
  {
  }

  /** With a stop hash, the range ends with the first header that carries it, if it gets that far. */
  lemma StopHashEndsRange(chain: seq<Block>, start: nat, maxCount: nat, stopHash: string, p: nat, result: seq<BlockHeader>)
    requires start <= p < |chain| && stopHash != "" && chain[p].header.hash == stopHash
    requires forall i | start <= i < p :: chain[i].header.hash != stopHash
    requires IsRange(chain, start, maxCount, stopHash, result)
    ensures result == HeadersFrom(chain, start, Min(maxCount, p + 1 - start))
  {
  }

  // ----- appending -----

  lemma {:induction false} AppendPeerHeaders(chain: seq<Block>, peer: seq<Block>, i: nat, e: nat)
    requires Linked(peer) && i <= e <= |peer|
    requires if i == 0 then chain == [] else chain != [] && chain[|chain| - 1].header.hash == peer[i - 1].header.hash
    ensures AppendHeaders(chain, HeadersOf(peer[i..e])) == chain + AwaitingAll(peer[i..e])
    decreases e - i
  {
    if i < e {
      assert HeadersOf(peer[i..e])[1..] == HeadersOf(peer[i + 1..e]);
      AppendPeerHeaders(chain + [Awaiting(peer[i].header)], peer, i + 1, e);
      assert AwaitingAll(peer[i..e]) == [Awaiting(peer[i].header)] + AwaitingAll(peer[i + 1..e]);
    } else {
      assert chain + AwaitingAll(peer[i..e]) == chain;
    }
  }

  // ----- filling -----

  /** The blocks of a peer are received one after the other, and their transactions are accepted. */
  function ReceiveAll(digest: Digest, chain: seq<Block>, blocks: seq<Block>): seq<Block>
    decreases blocks
  {
    if blocks == [] then chain else ReceiveAll(digest, OnBlock(digest, chain, blocks[0], true), blocks[1..])
  }

  lemma FirstAwaitedPartial(peer: seq<Block>, i: nat, e: nat)
    requires PeerChain(peer) && i <= e <= |peer|
    ensures FirstAwaited(Partial(peer, i, e)) == i
  {
    var chain := Partial(peer, i, e);
    assert forall j | 0 <= j < i :: chain[j] == peer[j];
    assert i < e ==> chain[i].awaited;
  }

  lemma FillNext(digest: Digest, peer: seq<Block>, i: nat, e: nat)
    requires PeerChain(peer) && i < e <= |peer| && CarriesHash(digest, peer[i])
    ensures OnBlock(digest, Partial(peer, i, e), peer[i], true) == Partial(peer, i + 1, e)
  {
    hide CalculateHash;
    FirstAwaitedPartial(peer, i, e);
    assert Partial(peer, i, e)[i] == Awaiting(peer[i].header);
    assert Partial(peer, i, e)[i := peer[i]] == Partial(peer, i + 1, e);
  }

  lemma {:induction false} FillInOrder(digest: Digest, peer: seq<Block>, i: nat, k: nat, e: nat)
    requires PeerChain(peer) && i <= k <= e <= |peer| && Hashed(digest, peer, i, k)
    ensures ReceiveAll(digest, Partial(peer, i, e), peer[i..k]) == Partial(peer, k, e)
    decreases k - i
  {
    hide OnBlock, CarriesHash;
    if i < k {
      FillNext(digest, peer, i, e);
      assert peer[i..k][1..] == peer[i + 1..k];
      FillInOrder(digest, peer, i + 1, k, e);
    }
  }

  // ----- a block that does not carry its computed hash -----

  /** Position s still waits for the peer's block, or was completed with another one. */
  ghost predicate Stuck(chain: seq<Block>, peer: seq<Block>, s: nat)
    requires s < |peer|
  {
    s < |chain| && if chain[s].awaited then chain[s] == Awaiting(peer[s].header) else chain[s] != peer[s]
  }

  lemma ReceiveStuck(digest: Digest, chain: seq<Block>, peer: seq<Block>, s: nat, j: nat)
    requires PeerChain(peer) && DistinctHashes(peer) && s < |peer| && j < |peer|
    requires !CarriesHash(digest, peer[s]) && Stuck(chain, peer, s)
    ensures Stuck(OnBlock(digest, chain, peer[j], true), peer, s)
    ensures |OnBlock(digest, chain, peer[j], true)| >= |chain|
  {
    hide CalculateHash, Linked;
    assert j != s ==> peer[j].header.hash != peer[s].header.hash;
  }

  lemma {:induction false} ReceiveAllStuck(digest: Digest, chain: seq<Block>, peer: seq<Block>, s: nat, i: nat, k: nat)
    requires PeerChain(peer) && DistinctHashes(peer) && s < |peer| && i <= k <= |peer|
    requires !CarriesHash(digest, peer[s]) && Stuck(chain, peer, s)
    ensures Stuck(ReceiveAll(digest, chain, peer[i..k]), peer, s)
    ensures |ReceiveAll(digest, chain, peer[i..k])| >= |chain|
    decreases k - i
  {
    hide OnBlock, Stuck, PeerChain, DistinctHashes, CarriesHash;
    if i < k {
      ReceiveStuck(digest, chain, peer, s, i);
      assert peer[i..k][1..] == peer[i + 1..k];
      ReceiveAllStuck(digest, OnBlock(digest, chain, peer[i], true), peer, s, i + 1, k);
    }
  }

  lemma {:induction false} ReceiveAllSplit(digest: Digest, chain: seq<Block>, a: seq<Block>, b: seq<Block>)
    ensures ReceiveAll(digest, chain, a + b) == ReceiveAll(digest, ReceiveAll(digest, chain, a), b)
    decreases a
  {
    hide OnBlock;
    if a == [] {
      assert a + b == b;
    } else {
      assert (a + b)[1..] == a[1..] + b;
      ReceiveAllSplit(digest, OnBlock(digest, chain, a[0], true), a[1..], b);
    }
  }

  /** The first of the blocks from i up to k that does not carry its computed hash, or k. */
  function FirstStale(digest: Digest, peer: seq<Block>, i: nat, k: nat): (s: nat)
    requires i <= k <= |peer|
    ensures i <= s <= k && Hashed(digest, peer, i, s) && (s < k ==> !CarriesHash(digest, peer[s]))
    decreases k - i
  {
    if i == k || !CarriesHash(digest, peer[i]) then i else FirstStale(digest, peer, i + 1, k)
  }

  /** Receiving in order completes everything, or gets stuck where the first hash is not the computed one. */
  lemma ReceiveInOrder(digest: Digest, peer: seq<Block>, i: nat, k: nat, e: nat)
    requires PeerChain(peer) && DistinctHashes(peer) && i <= k <= e <= |peer|
    ensures var s := FirstStale(digest, peer, i, k);
            var received := ReceiveAll(digest, Partial(peer, i, e), peer[i..k]);
            if s == k then received == Partial(peer, k, e) else Stuck(received, peer, s) && |received| >= e
  {
    hide OnBlock, CarriesHash;
    var s := FirstStale(digest, peer, i, k);
    FillInOrder(digest, peer, i, s, e);
    assert peer[i..k] == peer[i..s] + peer[s..k];
    ReceiveAllSplit(digest, Partial(peer, i, e), peer[i..s], peer[s..k]);
    if s < k {
      assert Partial(peer, s, e)[s] == Awaiting(peer[s].header);
      ReceiveAllStuck(digest, Partial(peer, s, e), peer, s, s, k);
    }
  }

  // ----- rounds -----

  /** One round: ask for at most maxCount headers from the own height on, append them and receive their blocks. */
  function Round(digest: Digest, chain: seq<Block>, peer: seq<Block>, maxCount: nat): seq<Block>
    requires |chain| <= |peer|
  {
    ReceiveAll(digest, AppendHeaders(chain, HeadersFrom(peer, |chain|, maxCount)),
               peer[|chain|..Min(|peer|, |chain| + maxCount)])
  }

  /**
   * A round started on a prefix of the peer's chain ends on the prefix longer by the headers received exactly
   * when their blocks carry their computed hashes, and otherwise is stuck at the first that does not. In
   * between, the appended headers listed are the missing ones in order, at most 200.
   */
  lemma RoundExtends(digest: Digest, peer: seq<Block>, r: nat, maxCount: nat, listed: seq<BlockHeader>)
    requires PeerChain(peer) && DistinctHashes(peer) && r <= |peer|
    ensures var e := Min(|peer|, r + maxCount);
            var s := FirstStale(digest, peer, r, e);
            var appended := AppendHeaders(peer[..r], HeadersFrom(peer, r, maxCount));
            && (Round(digest, peer[..r], peer, maxCount) == peer[..e] <==> Hashed(digest, peer, r, e))
            && (s < e ==> Stuck(Round(digest, peer[..r], peer, maxCount), peer, s))
            && FirstAwaited(appended) == r && |appended| == e
            && (IsRange(appended, r, MAX_HEADERS, "", listed) ==> listed == HeadersOf(peer[r..Min(e, r + 200)]))
  {
    hide CarriesHash, OnBlock, PeerChain, DistinctHashes, AppendHeaders, FirstAwaited, IsRange, HeadersFrom, Stuck;
    var e := Min(|peer|, r + maxCount);
    RoundReceives(digest, peer, r, maxCount);
    ReceiveInOrder(digest, peer, r, e, e);
    assert Partial(peer, e, e) == peer[..e];
    StuckElsewhere(digest, Round(digest, peer[..r], peer, maxCount), peer, r, e);
    FirstAwaitedPartial(peer, r, e);
    ListedHeaders(peer, r, e, listed);
  }

  lemma RoundReceives(digest: Digest, peer: seq<Block>, r: nat, maxCount: nat)
    requires PeerChain(peer) && r <= |peer|
    ensures var e := Min(|peer|, r + maxCount);
            && AppendHeaders(peer[..r], HeadersFrom(peer, r, maxCount)) == Partial(peer, r, e)
            && Round(digest, peer[..r], peer, maxCount) == ReceiveAll(digest, Partial(peer, r, e), peer[r..e])
  {
    hide OnBlock;
    AppendPeerHeaders(peer[..r], peer, r, Min(|peer|, r + maxCount));
  }

  /** A chain stuck before e is no prefix of the peer's chain. */
  lemma StuckElsewhere(digest: Digest, chain: seq<Block>, peer: seq<Block>, r: nat, e: nat)
    requires PeerChain(peer) && r <= e <= |peer|
    ensures var s := FirstStale(digest, peer, r, e);
            && (s < e && Stuck(chain, peer, s) ==> chain != peer[..e])
            && (s < e <==> !Hashed(digest, peer, r, e))
  {
    hide CarriesHash, Linked;
  }

  lemma ListedHeaders(peer: seq<Block>, r: nat, e: nat, listed: seq<BlockHeader>)
    requires r <= e <= |peer|
    ensures IsRange(Partial(peer, r, e), r, MAX_HEADERS, "", listed) ==> listed == HeadersOf(peer[r..Min(e, r + 200)])
  {
    if IsRange(Partial(peer, r, e), r, MAX_HEADERS, "", listed) {
      RangeDetermined(Partial(peer, r, e), r, 200, listed);
      PartialHeaders(peer, r, e, Min(e, r + 200));
    }
  }

  lemma PartialHeaders(peer: seq<Block>, r: nat, e: nat, k: nat)
    requires r <= k <= e <= |peer|
    ensures HeadersOf(Partial(peer, r, e)[r..k]) == HeadersOf(peer[r..k])
  {
    var left, right := HeadersOf(Partial(peer, r, e)[r..k]), HeadersOf(peer[r..k]);
    assert |left| == k - r == |right|;
    forall i | 0 <= i < k - r
      ensures left[i] == right[i]
    {
      assert Partial(peer, r, e)[r + i] == Awaiting(peer[r + i].header);
    }
  }

  function Rounds(digest: Digest, chain: seq<Block>, peer: seq<Block>, maxCount: nat, k: nat): seq<Block> {
    if k == 0 then chain
    else
      var before := Rounds(digest, chain, peer, maxCount, k - 1);
      if |before| <= |peer| then Round(digest, before, peer, maxCount) else before
  }

  lemma Product(k: nat, m: nat)
    requires k > 0
    ensures (k - 1) * m >= 0 && k * m == (k - 1) * m + m
  {
  }

  /** A stuck position stays stuck over more rounds. */
  lemma RoundStuck(digest: Digest, chain: seq<Block>, peer: seq<Block>, maxCount: nat, s: nat)
    requires PeerChain(peer) && DistinctHashes(peer) && s < |peer| && |chain| <= |peer|
    requires !CarriesHash(digest, peer[s]) && Stuck(chain, peer, s)
    ensures Stuck(Round(digest, chain, peer, maxCount), peer, s)
  {
    hide CarriesHash, DistinctHashes, Linked;
    var appended := AppendHeaders(chain, HeadersFrom(peer, |chain|, maxCount));
    AppendHeadersPrefix(chain, HeadersFrom(peer, |chain|, maxCount));
    ReceiveAllStuck(digest, appended, peer, s, |chain|, Min(|peer|, |chain| + maxCount));
  }

  lemma {:induction false} AppendHeadersPrefix(chain: seq<Block>, headers: seq<BlockHeader>)
    ensures chain <= AppendHeaders(chain, headers)
    decreases headers
  {
    if headers != [] && (chain == [] || headers[0].previousHash == chain[|chain| - 1].header.hash) {
      AppendHeadersPrefix(chain + [Awaiting(headers[0])], headers[1..]);
    }
  }

  /** After k rounds the receiver is k rounds further, or stuck at the first block without its computed hash. */
  lemma {:induction false} RoundsAdvance(digest: Digest, peer: seq<Block>, r: nat, maxCount: nat, k: nat)
    requires PeerChain(peer) && DistinctHashes(peer) && r <= |peer|
    ensures k * maxCount >= 0
    ensures var e := Min(|peer|, r + k * maxCount);
            var s := FirstStale(digest, peer, r, |peer|);
            if s >= e then Rounds(digest, peer[..r], peer, maxCount, k) == peer[..e]
            else Stuck(Rounds(digest, peer[..r], peer, maxCount, k), peer, s)
  {
    hide PeerChain, DistinctHashes, Round, AppendHeaders, FirstAwaited, HeadersFrom, IsRange, CarriesHash, Stuck;
    if k > 0 {
      RoundsAdvance(digest, peer, r, maxCount, k - 1);
      Product(k, maxCount);
      var before := Rounds(digest, peer[..r], peer, maxCount, k - 1);
      var e', e := Min(|peer|, r + (k - 1) * maxCount), Min(|peer|, r + k * maxCount);
      var s := FirstStale(digest, peer, r, |peer|);
      assert e == Min(|peer|, e' + maxCount);
      if s >= e' {
        RoundExtends(digest, peer, e', maxCount, []);
        StaleFrom(digest, peer, r, e', e, s);
      } else if |before| <= |peer| {
        RoundStuck(digest, before, peer, maxCount, s);
      }
    }
  }

  /** Where the first block without its computed hash is, seen from a later start. */
  lemma StaleFrom(digest: Digest, peer: seq<Block>, r: nat, i: nat, k: nat, s: nat)
    requires r <= i <= k <= |peer| && i <= s <= |peer|
    requires Hashed(digest, peer, r, s) && (s < |peer| ==> !CarriesHash(digest, peer[s]))
    ensures FirstStale(digest, peer, i, k) == Min(s, k)
    ensures s >= k ==> Hashed(digest, peer, i, k)
  {
    var t := FirstStale(digest, peer, i, k);
    assert t < s ==> CarriesHash(digest, peer[t]);
  }

  /**
   * For any number of rounds of any size: they end with the peer's chain exactly when all its missing blocks carry
   * their computed hashes and the rounds ask for that many.
   */
  lemma RoundsReachPeerIff(digest: Digest, peer: seq<Block>, r: nat, maxCount: nat, k: nat)
    requires PeerChain(peer) && DistinctHashes(peer) && r <= |peer|
    ensures k * maxCount >= 0
    ensures Rounds(digest, peer[..r], peer, maxCount, k) == peer <==>
              Hashed(digest, peer, r, |peer|) && r + k * maxCount >= |peer|
  {
    hide Rounds, CarriesHash, Linked, DistinctHashes;
    RoundsAdvance(digest, peer, r, maxCount, k);
    assert peer[..|peer|] == peer;
  }

  // ----- one exchange of messages -----

  /** Batches of 200 headers are asked for, each from the last header received, until one comes short. */
  function HeaderPhase(chain: seq<Block>, peer: seq<Block>, start: nat): seq<Block>
    requires start <= |peer|
    decreases |peer| - start
  {
    var batch := HeadersFrom(peer, start, 200);
    var longer := AppendHeaders(chain, batch);
    if |batch| == 200 then
      var height := HeightByHash(peer, batch[199].hash);
      if height < start then longer else HeaderPhase(longer, peer, height + 1)
    else longer
  }

  function FindBlock(peer: seq<Block>, hash: string, previousHash: string, now: int): Block {
    if peer == [] then ErrorBlock(now)
    else if peer[0].header.hash == hash && peer[0].header.previousHash == previousHash then peer[0]
    else FindBlock(peer[1..], hash, previousHash, now)
  }

  function Request(peer: seq<Block>, headers: seq<BlockHeader>, now: int): seq<Block> {
    if headers == [] then []
    else [FindBlock(peer, headers[0].hash, headers[0].previousHash, now)] + Request(peer, headers[1..], now)
  }

  /** From some height on: all headers first, then one request for each appended header that is listed. */
  function Exchange(digest: Digest, own: seq<Block>, peer: seq<Block>, start: nat, now: int): seq<Block>
    requires start <= |peer|
  {
    var chain := HeaderPhase(own, peer, start);
    var f := FirstAwaited(chain);
    ReceiveAll(digest, chain, Request(peer, HeadersFrom(chain, f, 200), now))
  }

  /** One batch: the next one starts after its last header, as long as it is full. */
  lemma HeaderPhaseStep(chain: seq<Block>, peer: seq<Block>, start: nat)
    requires DistinctHashes(peer) && start <= |peer|
    ensures var e := Min(|peer|, start + 200);
            var longer := AppendHeaders(chain, HeadersOf(peer[start..e]));
            HeaderPhase(chain, peer, start) == if e == start + 200 then HeaderPhase(longer, peer, e) else longer
  {
    hide AppendHeaders;
    var e := Min(|peer|, start + 200);
    if e == start + 200 {
      var hash := HeadersFrom(peer, start, 200)[199].hash;
      assert hash == peer[e - 1].header.hash;
      assert HeightByHash(peer, hash) == e - 1;
    }
  }

  /** Asked from the receiver's own height, the header phase appends all headers that are missing. */
  lemma {:induction false} HeaderPhaseComplete(peer: seq<Block>, r: nat, start: nat)
    requires PeerChain(peer) && DistinctHashes(peer) && r <= start <= |peer|
    ensures HeaderPhase(Partial(peer, r, start), peer, start) == Partial(peer, r, |peer|)
    decreases |peer| - start
  {
    hide PeerChain, DistinctHashes, HeaderPhase, AppendHeaders;
    var e := Min(|peer|, start + 200);
    HeaderPhaseStep(Partial(peer, r, start), peer, start);
    HeaderBatch(peer, r, start, e);
    if e == start + 200 {
      HeaderPhaseComplete(peer, r, e);
    }
  }

  lemma HeaderBatch(peer: seq<Block>, r: nat, start: nat, e: nat)
    requires PeerChain(peer) && r <= start <= e <= |peer|
    ensures AppendHeaders(Partial(peer, r, start), HeadersOf(peer[start..e])) == Partial(peer, r, e)
  {
    AppendPeerHeaders(Partial(peer, r, start), peer, start, e);
    assert AwaitingAll(peer[r..start]) + AwaitingAll(peer[start..e]) == AwaitingAll(peer[r..e]);
  }

  lemma {:induction false} FindPeerBlock(peer: seq<Block>, i: nat, now: int)
    requires DistinctHashes(peer) && i < |peer|
    ensures FindBlock(peer, peer[i].header.hash, peer[i].header.previousHash, now) == peer[i]
  {
    if i > 0 {
      FindPeerBlock(peer[1..], i - 1, now);
    }
  }

  lemma {:induction false} RequestPeerBlocks(peer: seq<Block>, i: nat, k: nat, now: int)
    requires DistinctHashes(peer) && i <= k <= |peer|
    ensures Request(peer, HeadersOf(peer[i..k]), now) == peer[i..k]
    decreases k - i
  {
    if i < k {
      FindPeerBlock(peer, i, now);
      assert HeadersOf(peer[i..k])[1..] == HeadersOf(peer[i + 1..k]);
      RequestPeerBlocks(peer, i + 1, k, now);
    }
  }

  /**
   * From any prefix of a linked peer chain of full blocks with distinct hashes, one exchange that asks from the own
   * height, as a first one does from an empty chain, ends with the peer's
   * chain exactly when at most 200 blocks are missing and all of them carry their computed hashes. When the first
   * 200 missing ones do, the receiver has all headers and these blocks.
   */
  lemma ExchangeOutcome(digest: Digest, peer: seq<Block>, r: nat, now: int)
    requires PeerChain(peer) && DistinctHashes(peer) && r <= |peer|
    ensures Exchange(digest, peer[..r], peer, r, now) == peer <==> |peer| - r <= 200 && Hashed(digest, peer, r, |peer|)
    ensures Hashed(digest, peer, r, Min(r + 200, |peer|)) ==>
              Exchange(digest, peer[..r], peer, r, now) == Partial(peer, Min(r + 200, |peer|), |peer|)
  {
    hide CarriesHash, OnBlock, Linked, DistinctHashes, Exchange;
    var n := |peer|;
    var k := Min(r + 200, n);
    ExchangeReceives(digest, peer, r, now);
    ReceiveInOrder(digest, peer, r, k, n);
    var s := FirstStale(digest, peer, r, k);
    if s < k {
      assert !CarriesHash(digest, peer[s]);
    } else if k == n {
      assert Partial(peer, n, n) == peer;
    } else {
      assert Partial(peer, k, n)[k].awaited && !peer[k].awaited;
    }
  }

  lemma ExchangeReceives(digest: Digest, peer: seq<Block>, r: nat, now: int)
    requires PeerChain(peer) && DistinctHashes(peer) && r <= |peer|
    ensures var k := Min(r + 200, |peer|);
            Exchange(digest, peer[..r], peer, r, now) == ReceiveAll(digest, Partial(peer, r, |peer|), peer[r..k])
  {
    hide OnBlock, CarriesHash, HeaderPhase, PeerChain, DistinctHashes, FirstAwaited, Request;
    var k := Min(r + 200, |peer|);
    assert Partial(peer, r, r) == peer[..r];
    HeaderPhaseComplete(peer, r, r);
    FirstAwaitedPartial(peer, r, |peer|);
    PartialHeaders(peer, r, |peer|, k);
    RequestPeerBlocks(peer, r, k, now);
  }

  // ----- a first request on a chain that is not empty -----

  /** The first block refers to no block of the chain. */
  ghost predicate Rooted(peer: seq<Block>) {
    peer != [] && forall i | 0 <= i < |peer| :: peer[i].header.hash != peer[0].header.previousHash
  }

  /** Headers from another height than the next do not continue a prefix. */
  lemma OtherHeadersRefused(peer: seq<Block>, r: nat, start: nat, e: nat)
    requires PeerChain(peer) && DistinctHashes(peer) && Rooted(peer) && 0 < r <= |peer| && start <= e <= |peer| && start != r
    ensures AppendHeaders(peer[..r], HeadersOf(peer[start..e])) == peer[..r]
  {
    if start < e {
      assert HeadersOf(peer[start..e])[0] == peer[start].header;
      assert start > 0 ==> peer[start].header.previousHash == peer[start - 1].header.hash;
    }
  }

  /** Batches from a multiple of 200 on reach the own height exactly when that is a multiple of 200, too. */
  lemma {:induction false} RestartedHeaders(peer: seq<Block>, r: nat, start: nat)
    requires PeerChain(peer) && DistinctHashes(peer) && Rooted(peer) && 0 < r <= |peer| && start <= |peer| && start % 200 == 0
    ensures HeaderPhase(peer[..r], peer, start) ==
            if start <= r && r % 200 == 0 then Partial(peer, r, |peer|) else peer[..r]
    decreases |peer| - start
  {
    hide PeerChain, DistinctHashes, Rooted, HeaderPhase, AppendHeaders;
    if start == r {
      assert Partial(peer, r, r) == peer[..r];
      HeaderPhaseComplete(peer, r, r);
    } else {
      var e := Min(|peer|, start + 200);
      HeaderPhaseStep(peer[..r], peer, start);
      OtherHeadersRefused(peer, r, start, e);
      if e == start + 200 {
        RestartedHeaders(peer, r, e);
      }
    }
  }

  /**
   * The first request names no block, so the peer answers from its first one. A receiver that already has a prefix
   * then reproduces the chain exactly when nothing is missing, or its height is a multiple of the batch size and an
   * exchange from there would do.
   */
  lemma RestartedExchange(digest: Digest, peer: seq<Block>, r: nat, now: int)
    requires PeerChain(peer) && DistinctHashes(peer) && Rooted(peer) && 0 < r <= |peer|
    ensures Exchange(digest, peer[..r], peer, 0, now) == peer <==>
              r == |peer| || (r % 200 == 0 && |peer| - r <= 200 && Hashed(digest, peer, r, |peer|))
    ensures r % 200 != 0 ==> Exchange(digest, peer[..r], peer, 0, now) == peer[..r]
  {
    hide CarriesHash, OnBlock, Linked, DistinctHashes, Rooted, HeaderPhase, FirstAwaited;
    RestartedHeaders(peer, r, 0);
    assert peer[..|peer|] == peer;
    if r % 200 == 0 {
      RestartedHeaders(peer, r, r);
      ExchangeOutcome(digest, peer, r, now);
    } else {
      assert Partial(peer, r, r) == peer[..r];
      FirstAwaitedPartial(peer, r, r);
      assert HeadersFrom(peer[..r], r, 200) == [];
    }
  }

  /**
   * So a receiver without some committed block of a peer never reproduces its chain: not by an exchange, and not by
   * any number of rounds of any size.
   */
  lemma CommittedPeerNeverReached(digest: Digest, peer: seq<Block>, r: nat, i: nat, now: int, maxCount: nat, k: nat)
    requires Injective(digest) && PeerChain(peer) && DistinctHashes(peer)
    requires r <= i < |peer| && CommittedHeader(digest, peer[i].header) && peer[i].transactions != []
    ensures Exchange(digest, peer[..r], peer, r, now) != peer
    ensures Rounds(digest, peer[..r], peer, maxCount, k) != peer
  {
    hide Exchange, Rounds, PeerChain, DistinctHashes, CommittedHeader;
    CommittedHashIff(digest, peer[i]);
    assert !CarriesHash(digest, peer[i]);
    ExchangeOutcome(digest, peer, r, now);
    RoundsReachPeerIff(digest, peer, r, maxCount, k);
  }
}
