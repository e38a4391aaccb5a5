/**
 * Vote trackers: one for each (view, sequence) pair, collecting at most one message per author and phase.
 */
module PhaseTracking {
  import opened Ledger
  import opened Wrappers
  import opened Chain

  datatype MessageType = PREPARE | COMMIT | OTHER

  datatype Message = Message(author: string, kind: MessageType, block: Block)

  /** View and sequence number. */
  type Key = (nat, int)

  datatype Phase = Phase(
    block: Block,
    hashReady: bool, prepared: bool, committed: bool, sentPrepare: bool, sentCommit: bool,
    prepares: seq<Message>, commits: seq<Message>)

  // ----- votes -----

  predicate Voted(votes: seq<Message>, author: string) {
    exists i | 0 <= i < |votes| :: votes[i].author == author
  }

  /** A message is kept when it has the right type and its author is new. */
  function AddVote(votes: seq<Message>, m: Message, kind: MessageType): seq<Message> {
    if m.kind == kind && !Voted(votes, m.author) then votes + [m] else votes
  }

  function Collect(messages: seq<Message>, kind: MessageType): seq<Message> {
    if messages == [] then []
    else AddVote(Collect(messages[..|messages| - 1], kind), messages[|messages| - 1], kind)
  }

  /** The authors of the messages of one type. */
  ghost function Authors(messages: seq<Message>, kind: MessageType): set<string> {
    set m | m in messages && m.kind == kind :: m.author
  }

  /** The first message of one type by an author. */
  ghost predicate FirstBy(messages: seq<Message>, kind: MessageType, i: nat)
    requires i < |messages|
  {
    messages[i].kind == kind && forall j | 0 <= j < i && messages[j].kind == kind :: messages[j].author != messages[i].author
  }

  lemma AuthorsStep(messages: seq<Message>, m: Message, kind: MessageType)
    ensures Authors(messages + [m], kind) == Authors(messages, kind) + (if m.kind == kind then {m.author} else {})
  {
    assert forall x :: x in messages + [m] <==> x in messages || x == m;
  }

  lemma VotedIffAuthor(votes: seq<Message>, kind: MessageType, author: string)
    requires forall i | 0 <= i < |votes| :: votes[i].kind == kind
    ensures Voted(votes, author) <==> author in Authors(votes, kind)
  {
    if Voted(votes, author) {
      var i :| 0 <= i < |votes| && votes[i].author == author;
      assert votes[i] in votes;
    }
  }

  /** One more message keeps the number of votes equal to the number of their authors. */
  lemma AddVoteAuthors(votes: seq<Message>, m: Message, kind: MessageType)
    requires |votes| == |Authors(votes, kind)|
    requires forall i | 0 <= i < |votes| :: votes[i].kind == kind
    ensures Authors(AddVote(votes, m, kind), kind) == Authors(votes, kind) + (if m.kind == kind then {m.author} else {})
    ensures |AddVote(votes, m, kind)| == |Authors(AddVote(votes, m, kind), kind)|
    ensures AddVote(votes, m, kind) == votes || AddVote(votes, m, kind) == votes + [m]
    ensures AddVote(votes, m, kind) == votes <==> m.kind != kind || m.author in Authors(votes, kind)
    ensures forall i | 0 <= i < |AddVote(votes, m, kind)| :: AddVote(votes, m, kind)[i].kind == kind
  {
    hide Authors, Voted;
    AuthorsStep(votes, m, kind);
    VotedIffAuthor(votes, kind, m.author);
  }

  /** The number of votes is the number of distinct authors, and every author's vote is the first one sent. */
  lemma {:induction false} CollectCounts(messages: seq<Message>, kind: MessageType)
    ensures |Collect(messages, kind)| == |Authors(messages, kind)|
    ensures Authors(Collect(messages, kind), kind) == Authors(messages, kind)
    ensures forall i | 0 <= i < |Collect(messages, kind)| :: Collect(messages, kind)[i].kind == kind
  {
    if messages == [] {
      assert Authors([], kind) == {};
    } else {
      hide Authors, AddVote;
      var n := |messages| - 1;
      CollectCounts(messages[..n], kind);
      assert messages == messages[..n] + [messages[n]];
      AuthorsStep(messages[..n], messages[n], kind);
      AddVoteAuthors(Collect(messages[..n], kind), messages[n], kind);
    }
  }

  /** The vote kept for an author is the first message of that type the author sent. */
  lemma {:induction false} CollectKeepsFirst(messages: seq<Message>, kind: MessageType, v: nat)
    requires v < |Collect(messages, kind)|
    ensures exists i | 0 <= i < |messages| :: messages[i] == Collect(messages, kind)[v] && FirstBy(messages, kind, i)
  {
    var n := |messages| - 1;
    var before := Collect(messages[..n], kind);
    if v < |before| {
      CollectKeepsFirst(messages[..n], kind, v);
      var i :| 0 <= i < n && messages[..n][i] == before[v] && FirstBy(messages[..n], kind, i);
      assert FirstBy(messages, kind, i) && messages[i] == Collect(messages, kind)[v];
    } else {
      CollectCounts(messages[..n], kind);
      VotedIffAuthor(before, kind, messages[n].author);
      forall j | 0 <= j < n && messages[j].kind == kind
        ensures messages[j].author != messages[n].author
      {
        assert messages[..n][j] == messages[j] && messages[j] in messages[..n];
      }
      assert FirstBy(messages, kind, n) && messages[n] == Collect(messages, kind)[v];
    }
  }

  // ----- the tracked block -----

  /** Headers are compared by index and previous hash only. */
  predicate SameHeader(a: BlockHeader, b: BlockHeader) {
    a.index == b.index && a.previousHash == b.previousHash
  }

  function Unfound(b: Block, txs: seq<Transaction>): nat {
    if txs == [] then 0
    else Unfound(b, txs[..|txs| - 1]) + (if txs[|txs| - 1] in b.transactions then 0 else 1)
  }

  /** A mined version has the same place in the chain and at most one transaction the block does not have. */
  predicate IsMinedVersion(b: Block, mined: Block) {
    SameHeader(b.header, mined.header) && Unfound(b, mined.transactions) <= 1
  }

  /** Of any two transactions of the mined block, the other block has one. */
  ghost predicate AtMostOneNew(b: Block, mined: Block) {
    forall i, j | 0 <= i < j < |mined.transactions| ::
      mined.transactions[i] in b.transactions || mined.transactions[j] in b.transactions
  }

  lemma {:induction false} UnfoundCounts(b: Block, txs: seq<Transaction>)
    ensures Unfound(b, txs) == 0 <==> forall i | 0 <= i < |txs| :: txs[i] in b.transactions
    ensures Unfound(b, txs) <= 1 <==>
              forall i, j | 0 <= i < j < |txs| :: txs[i] in b.transactions || txs[j] in b.transactions
  {
    if txs != [] {
      var n := |txs| - 1;
      UnfoundCounts(b, txs[..n]);
      assert forall i | 0 <= i < n :: txs[..n][i] == txs[i];
    }
  }

  /** The check of a mined block: same index, same previous hash, and no two transactions the tracked block lacks. */
  lemma MinedVersionIff(b: Block, mined: Block)
    ensures IsMinedVersion(b, mined) <==>
              mined.header.index == b.header.index && mined.header.previousHash == b.header.previousHash
              && AtMostOneNew(b, mined)
  {
    hide Unfound;
    UnfoundCounts(b, mined.transactions);
  }

  // ----- steps -----

  function Fresh(block: Block): Phase {
    Phase(block, false, false, false, false, false, [], [])
  }

  datatype Event =
    | NewPhase(block: Block)
    | Prepare(m: Message)
    | Commit(m: Message)
    | HashReady(mined: Block)
    | SetPrepared
    | SetCommitted
    | SetSentPrepare
    | SetSentCommit

  function UpdatePhase(p: Phase, e: Event): Phase {
    match e
    case NewPhase(block) => Fresh(block)
    case Prepare(m) => p.(prepares := AddVote(p.prepares, m, PREPARE))
    case Commit(m) => p.(commits := AddVote(p.commits, m, COMMIT))
    case HashReady(mined) =>
      if !p.hashReady && IsMinedVersion(p.block, mined) then p.(block := mined, hashReady := true) else p
    case SetPrepared => p.(prepared := true)
    case SetCommitted => p.(committed := true)
    case SetSentPrepare => p.(sentPrepare := true)
    case SetSentCommit => p.(sentCommit := true)
  }

  type Phases = map<Key, Phase>

  /** Only a new phase starts tracking a key; everything else changes a tracked key and no other. */
  function ApplyEvent(phases: Phases, key: Key, e: Event): Phases {
    if e.NewPhase? then phases[key := Fresh(e.block)]
    else if key in phases then phases[key := UpdatePhase(phases[key], e)]
    else phases
  }

  function RunEvents(events: seq<(Key, Event)>): Phases {
    if events == [] then map[]
    else
      var (key, e) := events[|events| - 1];
      ApplyEvent(RunEvents(events[..|events| - 1]), key, e)
  }

  /** The events of a key since it was last started; none before. */
  function Since(events: seq<(Key, Event)>, key: Key): seq<Event> {
    if events == [] then []
    else
      var before := Since(events[..|events| - 1], key);
      var (k, e) := events[|events| - 1];
      if k != key then before
      else if e.NewPhase? then [e]
      else if before == [] then []
      else before + [e]
  }

  function Replay(events: seq<Event>): Phase
    requires events != [] && events[0].NewPhase?
  {
    if |events| == 1 then Fresh(events[0].block)
    else UpdatePhase(Replay(events[..|events| - 1]), events[|events| - 1])
  }

  /** Exactly the started keys are tracked, and a tracker depends on nothing but its own events since then. */
  lemma {:induction false} TrackerIsItsEvents(events: seq<(Key, Event)>, key: Key)
    ensures key in RunEvents(events) <==> Since(events, key) != []
    ensures Since(events, key) != [] ==>
              && Since(events, key)[0].NewPhase?
              && (forall i | 1 <= i < |Since(events, key)| :: !Since(events, key)[i].NewPhase?)
              && RunEvents(events)[key] == Replay(Since(events, key))
  {
    if events != [] {
      TrackerIsItsEvents(events[..|events| - 1], key);
    }
  }

  function Prepares(events: seq<Event>): seq<Message> {
    if events == [] then []
    else Prepares(events[..|events| - 1]) + (if events[|events| - 1].Prepare? then [events[|events| - 1].m] else [])
  }

  function Commits(events: seq<Event>): seq<Message> {
    if events == [] then []
    else Commits(events[..|events| - 1]) + (if events[|events| - 1].Commit? then [events[|events| - 1].m] else [])
  }

  lemma CollectSnoc(messages: seq<Message>, m: Message, kind: MessageType)
    ensures Collect(messages + [m], kind) == AddVote(Collect(messages, kind), m, kind)
  {
    assert (messages + [m])[..|messages|] == messages;
  }

  /** The events of a tracker that was started once. */
  ghost predicate OneRun(events: seq<Event>) {
    events != [] && events[0].NewPhase? && forall i | 1 <= i < |events| :: !events[i].NewPhase?
  }

  lemma {:induction false} ReplayPrepares(events: seq<Event>)
    requires OneRun(events)
    ensures Replay(events).prepares == Collect(Prepares(events), PREPARE)
  {
    hide AddVote, Collect, IsMinedVersion;
    var n := |events| - 1;
    if n == 0 {
      assert Prepares(events) == Prepares(events[..0]) + [] == [];
      NothingCollected(PREPARE);
    } else {
      ReplayPrepares(events[..n]);
      if events[n].Prepare? {
        CollectSnoc(Prepares(events[..n]), events[n].m, PREPARE);
      }
      assert Prepares(events[..n]) + [] == Prepares(events[..n]);
    }
  }

  lemma {:induction false} ReplayCommits(events: seq<Event>)
    requires OneRun(events)
    ensures Replay(events).commits == Collect(Commits(events), COMMIT)
  {
    hide AddVote, Collect, IsMinedVersion;
    var n := |events| - 1;
    if n == 0 {
      assert Commits(events) == Commits(events[..0]) + [] == [];
      NothingCollected(COMMIT);
    } else {
      ReplayCommits(events[..n]);
      if events[n].Commit? {
        CollectSnoc(Commits(events[..n]), events[n].m, COMMIT);
      }
      assert Commits(events[..n]) + [] == Commits(events[..n]);
    }
  }

  lemma NothingCollected(kind: MessageType)
    ensures Collect([], kind) == []
  {
  }

  lemma {:induction false} ReplayBlock(events: seq<Event>)
    requires OneRun(events)
    ensures SameHeader(events[0].block.header, Replay(events).block.header)
    ensures !Replay(events).hashReady ==> Replay(events).block == events[0].block
  {
    hide AddVote, Unfound;
    if |events| > 1 {
      ReplayBlock(events[..|events| - 1]);
    }
  }

  /**
   * Over any run: the counts of a tracker are the numbers of distinct authors whose messages of the right
   * type reached it since it was started, and its block keeps index and previous hash.
   */
  lemma VoteCounts(events: seq<(Key, Event)>, key: Key)
    requires key in RunEvents(events)
    ensures Since(events, key) != [] && Since(events, key)[0].NewPhase?
    ensures var p := RunEvents(events)[key];
            var since := Since(events, key);
            && |p.prepares| == |Authors(Prepares(since), PREPARE)|
            && |p.commits| == |Authors(Commits(since), COMMIT)|
            && p.block.header.index == since[0].block.header.index
            && p.block.header.previousHash == since[0].block.header.previousHash
  {
    TrackerIsItsEvents(events, key);
    var since := Since(events, key);
    ReplayPrepares(since);
    ReplayCommits(since);
    ReplayBlock(since);
    CollectCounts(Prepares(since), PREPARE);
    CollectCounts(Commits(since), COMMIT);
  }

  /** Only a mined version replaces the block, and only while none was taken over. */
  lemma BlockStep(p: Phase, e: Event)
    requires !e.NewPhase?
    ensures p.hashReady ==> UpdatePhase(p, e).block == p.block && UpdatePhase(p, e).hashReady
    ensures UpdatePhase(p, e).block != p.block ==>
              e.HashReady? && UpdatePhase(p, e).block == e.mined && UpdatePhase(p, e).hashReady
              && IsMinedVersion(p.block, e.mined)
  {
  }

  /** The tracker's block after the first i events. */
  function BlockAfter(events: seq<Event>, i: nat): Block
    requires 1 <= i <= |events| && events[0].NewPhase?
  {
    Replay(events[..i]).block
  }

  lemma ReplayStep(events: seq<Event>, i: nat)
    requires OneRun(events) && 1 <= i < |events|
    ensures Replay(events[..i + 1]) == UpdatePhase(Replay(events[..i]), events[i])
  {
    hide UpdatePhase;
    assert events[..i + 1][..i] == events[..i];
  }

  /** A block taken over stays to the end of the run. */
  lemma {:induction false} TakenOverStays(events: seq<Event>, i: nat, j: nat)
    requires OneRun(events) && 1 <= i <= j <= |events| && Replay(events[..i]).hashReady
    ensures Replay(events[..j]).hashReady && BlockAfter(events, j) == BlockAfter(events, i)
    decreases j
  {
    hide UpdatePhase, Replay;
    if i < j {
      TakenOverStays(events, i, j - 1);
      ReplayStep(events, j - 1);
      BlockStep(Replay(events[..j - 1]), events[j - 1]);
    }
  }

  /** Between two starts the tracked block is replaced at most once, by a mined version that then stays. */
  lemma BlockReplacedOnce(events: seq<Event>, i: nat, j: nat)
    requires OneRun(events) && 1 <= i < j <= |events| && BlockAfter(events, i + 1) != BlockAfter(events, i)
    ensures BlockAfter(events, i) == events[0].block
    ensures events[i].HashReady? && BlockAfter(events, i + 1) == events[i].mined
    ensures events[i].mined.header.index == events[0].block.header.index
    ensures events[i].mined.header.previousHash == events[0].block.header.previousHash
    ensures AtMostOneNew(events[0].block, events[i].mined)
    ensures BlockAfter(events, j) == BlockAfter(events, i + 1)
  {
    hide UpdatePhase, Replay, IsMinedVersion;
    ReplayStep(events, i);
    BlockStep(Replay(events[..i]), events[i]);
    TakenOverStays(events, i + 1, j);
    ReplayBlock(events[..i]);
    MinedVersionIff(events[0].block, events[i].mined);
  }

  /** Received event i brings a mined version of the block the tracker was started with. */
  ghost predicate BringsMined(events: seq<Event>, i: nat)
    requires OneRun(events) && i < |events|
  {
    var b := events[0].block;
    && events[i].HashReady?
    && events[i].mined.header.index == b.header.index && events[i].mined.header.previousHash == b.header.previousHash
    && AtMostOneNew(b, events[i].mined)
  }

  lemma {:induction false} NoneBrought(events: seq<Event>)
    requires OneRun(events) && forall i | 1 <= i < |events| :: !BringsMined(events, i)
    ensures !Replay(events).hashReady && Replay(events).block == events[0].block
  {
    hide AtMostOneNew, IsMinedVersion, AddVote;
    var n := |events| - 1;
    if n > 0 {
      assert forall i | 1 <= i < n :: BringsMined(events[..n], i) == BringsMined(events, i);
      NoneBrought(events[..n]);
      assert !BringsMined(events, n);
      if events[n].HashReady? {
        MinedVersionIff(events[0].block, events[n].mined);
      }
    }
  }

  /** The tracked block is the first mined version received, or the one the tracker was started with. */
  lemma FirstMinedTaken(events: seq<Event>, i: nat)
    requires OneRun(events) && 1 <= i < |events| && BringsMined(events, i)
    requires forall j | 1 <= j < i :: !BringsMined(events, j)
    ensures Replay(events).hashReady && Replay(events).block == events[i].mined
  {
    hide AtMostOneNew, IsMinedVersion, Replay;
    assert forall j | 1 <= j < i :: BringsMined(events[..i], j) == BringsMined(events, j);
    NoneBrought(events[..i]);
    ReplayStep(events, i);
    MinedVersionIff(events[0].block, events[i].mined);
    TakenOverStays(events, i + 1, |events|);
    assert events[..|events|] == events;
  }

  // ----- the handlers -----

  /** How many votes of others are asked for in a network of n nodes. */
  function ExpectedMinimum(n: nat): nat
    requires n >= 1
  {
    2 * (n - 1) / 3
  }

  /** What a received prepare message does. */
  function OnPrepare(phases: Phases, key: Key, m: Message, n: nat): Phases
    requires n >= 1
  {
    if m.kind != PREPARE || key !in phases then phases
    else
      var sent := ApplyEvent(phases, key, SetSentPrepare);
      if sent[key].prepared then sent
      else
        var counted := ApplyEvent(sent, key, Prepare(m));
        if |counted[key].prepares| >= ExpectedMinimum(n)
        then ApplyEvent(ApplyEvent(counted, key, SetPrepared), key, SetSentCommit)
        else counted
  }

  /** What a received commit message does, and which block is handed to the chain: the one of this message. */
  function OnCommit(phases: Phases, key: Key, m: Message, n: nat): (Phases, Option<Block>)
    requires n >= 1
  {
    if m.kind != COMMIT || key !in phases || !phases[key].prepared then (phases, None)
    else
      var counted := ApplyEvent(phases, key, Commit(m));
      if !counted[key].committed && |counted[key].commits| >= ExpectedMinimum(n)
      then (ApplyEvent(counted, key, SetCommitted), Some(m.block))
      else (counted, None)
  }

  /** What a received mined block does; the work on its nonce was checked before. */
  function OnHashReady(phases: Phases, key: Key, mined: Block): Phases {
    if key !in phases || phases[key].hashReady then phases
    else ApplyEvent(ApplyEvent(phases, key, HashReady(mined)), key, SetSentPrepare)
  }

  datatype Handler =
    | Preprepared(key: Key, block: Block)
    | PrepareReceived(key: Key, m: Message)
    | CommitReceived(key: Key, m: Message)
    | HashReadyReceived(key: Key, mined: Block)

  /** The trackers, and the blocks handed to the chain for each key since it was last started. */
  datatype NodeState = NodeState(phases: Phases, handed: map<Key, seq<Block>>)

  function Handed(s: NodeState, key: Key): seq<Block> {
    if key in s.handed then s.handed[key] else []
  }

  function Handle(s: NodeState, h: Handler, n: nat): NodeState
    requires n >= 1
  {
    match h
    case Preprepared(key, block) => NodeState(ApplyEvent(s.phases, key, NewPhase(block)), s.handed[key := []])
    case PrepareReceived(key, m) => s.(phases := OnPrepare(s.phases, key, m, n))
    case CommitReceived(key, m) =>
      var (phases, block) := OnCommit(s.phases, key, m, n);
      NodeState(phases, if block.Some? then s.handed[key := Handed(s, key) + [block.value]] else s.handed)
    case HashReadyReceived(key, mined) => s.(phases := OnHashReady(s.phases, key, mined))
  }

  function HandleAll(handlers: seq<Handler>, n: nat): NodeState
    requires n >= 1
  {
    if handlers == [] then NodeState(map[], map[])
    else Handle(HandleAll(handlers[..|handlers| - 1], n), handlers[|handlers| - 1], n)
  }

  /** How many votes it takes: a handler only runs on a message, so never less than one. */
  function VotesNeeded(n: nat): (d: nat)
    requires n >= 1
    ensures d >= 1
  {
    if ExpectedMinimum(n) == 0 then 1 else ExpectedMinimum(n)
  }

  /**
   * Phases are passed in order, each with enough distinct voters. A commit hands over exactly one block: that of
   * the vote that completed the number needed.
   */
  ghost predicate Orderly(p: Phase, handed: seq<Block>, n: nat)
    requires n >= 1
  {
    && |p.prepares| == |Authors(p.prepares, PREPARE)| && |p.commits| == |Authors(p.commits, COMMIT)|
    && (forall i | 0 <= i < |p.prepares| :: p.prepares[i].kind == PREPARE)
    && (forall i | 0 <= i < |p.commits| :: p.commits[i].kind == COMMIT)
    && (p.prepares != [] ==> p.sentPrepare)
    && (p.prepared ==> |p.prepares| >= VotesNeeded(n) && p.sentPrepare && p.sentCommit)
    && (!p.prepared ==> |p.prepares| < VotesNeeded(n) && p.commits == [])
    && (p.committed ==> p.prepared)
    && (p.committed <==> |p.commits| >= VotesNeeded(n))
    && handed == (if p.committed then [p.commits[VotesNeeded(n) - 1].block] else [])
  }

  /** After any messages, in any order and from anyone, every tracker is orderly. */
  lemma {:induction false} HandlersOrderly(handlers: seq<Handler>, n: nat, key: Key)
    requires n >= 1
    ensures key in HandleAll(handlers, n).phases ==>
              Orderly(HandleAll(handlers, n).phases[key], Handed(HandleAll(handlers, n), key), n)
  {
    hide Orderly, Handle, Handed;
    if handlers != [] {
      HandlersOrderly(handlers[..|handlers| - 1], n, key);
      HandleOrderly(HandleAll(handlers[..|handlers| - 1], n), handlers[|handlers| - 1], n, key);
    }
  }

  /** A handler only changes the tracker of its own key. */
  lemma HandleOrderly(s: NodeState, h: Handler, n: nat, key: Key)
    requires n >= 1 && (key in s.phases ==> Orderly(s.phases[key], Handed(s, key), n))
    ensures key in Handle(s, h, n).phases ==>
              Orderly(Handle(s, h, n).phases[key], Handed(Handle(s, h, n), key), n)
  {
    match h
    case Preprepared(k, block) =>
      hide Authors, AddVote, Unfound;
      NoAuthors();
    case PrepareReceived(k, m) =>
      hide Authors, AddVote, Unfound, Orderly;
      if k == key && key in s.phases {
        PrepareOrderly(s.phases, key, m, n, Handed(s, key));
      }
    case CommitReceived(k, m) =>
      hide Authors, AddVote, Unfound, Orderly;
      if k == key && key in s.phases {
        CommitOrderly(s.phases, key, m, n, Handed(s, key));
      }
    case HashReadyReceived(k, mined) =>
      hide Authors, AddVote, Unfound;
  }

  lemma PrepareOrderly(phases: Phases, key: Key, m: Message, n: nat, handed: seq<Block>)
    requires n >= 1 && key in phases && Orderly(phases[key], handed, n)
    ensures Orderly(OnPrepare(phases, key, m, n)[key], handed, n)
  {
    hide Authors, AddVote;
    AddVoteAuthors(phases[key].prepares, m, PREPARE);
    if phases[key].prepares == [] {
      NoAuthors();
    }
  }

  lemma CommitOrderly(phases: Phases, key: Key, m: Message, n: nat, handed: seq<Block>)
    requires n >= 1 && key in phases && Orderly(phases[key], handed, n)
    ensures var (after, block) := OnCommit(phases, key, m, n);
            Orderly(after[key], if block.Some? then handed + [block.value] else handed, n)
  {
    hide Authors, AddVote;
    AddVoteAuthors(phases[key].commits, m, COMMIT);
    if phases[key].commits == [] {
      NoAuthors();
    }
  }

  lemma NoAuthors()
    ensures Authors([], PREPARE) == {} && Authors([], COMMIT) == {}
  {
  }

  // ----- the block tracked -----

  /** Message i carries a mined version of the block the key was last started with by message s. */
  ghost predicate CarriesMined(handlers: seq<Handler>, key: Key, s: nat, i: nat)
    requires s < |handlers| && i < |handlers| && handlers[s].Preprepared?
  {
    var b := handlers[s].block;
    && handlers[i].HashReadyReceived? && handlers[i].key == key
    && handlers[i].mined.header.index == b.header.index && handlers[i].mined.header.previousHash == b.header.previousHash
    && AtMostOneNew(b, handlers[i].mined)
  }

  /** Message s is the last to start the key. */
  ghost predicate LastStart(handlers: seq<Handler>, key: Key, s: nat) {
    && s < |handlers| && handlers[s].Preprepared? && handlers[s].key == key
    && forall i | s < i < |handlers| && handlers[i].Preprepared? :: handlers[i].key != key
  }

  /** No other message touches the tracked block of a key. */
  lemma BlockOfStep(s: NodeState, h: Handler, n: nat, key: Key)
    requires n >= 1 && key in s.phases && !(h.Preprepared? && h.key == key)
    ensures key in Handle(s, h, n).phases
    ensures var before, after := s.phases[key], Handle(s, h, n).phases[key];
            if h.HashReadyReceived? && h.key == key && !before.hashReady && IsMinedVersion(before.block, h.mined)
            then after.block == h.mined && after.hashReady && after.sentPrepare
            else after.block == before.block && after.hashReady == before.hashReady
                 && (before.sentPrepare ==> after.sentPrepare)
  {
    hide AddVote, IsMinedVersion;
  }

  lemma {:induction false} TrackedWithout(handlers: seq<Handler>, n: nat, key: Key, s: nat)
    requires n >= 1 && LastStart(handlers, key, s)
    requires forall i | s < i < |handlers| :: !CarriesMined(handlers, key, s, i)
    ensures var phases := HandleAll(handlers, n).phases;
            key in phases && phases[key].block == handlers[s].block && !phases[key].hashReady
  {
    hide Handle, IsMinedVersion, AtMostOneNew;
    var k := |handlers| - 1;
    if s == k {
      StartOfKey(HandleAll(handlers[..k], n), key, handlers[k].block, n);
    } else {
      assert forall i | s < i < k :: CarriesMined(handlers[..k], key, s, i) == CarriesMined(handlers, key, s, i);
      TrackedWithout(handlers[..k], n, key, s);
      BlockOfStep(HandleAll(handlers[..k], n), handlers[k], n, key);
      assert !CarriesMined(handlers, key, s, k);
      if handlers[k].HashReadyReceived? {
        MinedVersionIff(handlers[s].block, handlers[k].mined);
      }
    }
  }

  lemma StartOfKey(s: NodeState, key: Key, block: Block, n: nat)
    requires n >= 1
    ensures var after := Handle(s, Preprepared(key, block), n).phases;
            key in after && after[key].block == block && !after[key].hashReady
  {
  }

  /**
   * After any messages: the block tracked for a key is the first mined version received since it was last started,
   * and the node's own prepare vote is then sent.
   */
  lemma {:induction false} TrackedBlock(handlers: seq<Handler>, n: nat, key: Key, s: nat, i: nat)
    requires n >= 1 && LastStart(handlers, key, s) && s < i < |handlers| && CarriesMined(handlers, key, s, i)
    requires forall j | s < j < i :: !CarriesMined(handlers, key, s, j)
    ensures var phases := HandleAll(handlers, n).phases;
            key in phases && phases[key].block == handlers[i].mined && phases[key].hashReady && phases[key].sentPrepare
  {
    hide Handle, IsMinedVersion, AtMostOneNew;
    var k := |handlers| - 1;
    if i == k {
      assert forall j | s < j < k :: CarriesMined(handlers[..k], key, s, j) == CarriesMined(handlers, key, s, j);
      TrackedWithout(handlers[..k], n, key, s);
      MinedVersionIff(handlers[s].block, handlers[k].mined);
    } else {
      assert forall j | s < j <= i :: CarriesMined(handlers[..k], key, s, j) == CarriesMined(handlers, key, s, j);
      TrackedBlock(handlers[..k], n, key, s, i);
    }
    BlockOfStep(HandleAll(handlers[..k], n), handlers[k], n, key);
  }

  // ----- the block handed over -----

  lemma CommitStep(s: NodeState, h: Handler, n: nat, key: Key, v: nat)
    requires n >= 1 && key in Handle(s, h, n).phases && v < |Handle(s, h, n).phases[key].commits|
    ensures var vote := Handle(s, h, n).phases[key].commits[v];
            (key in s.phases && vote in s.phases[key].commits) || h == CommitReceived(key, vote)
  {
    hide OnPrepare, OnHashReady, IsMinedVersion, Voted;
    match h
    case Preprepared(_, _) =>
    case PrepareReceived(k, m) => PrepareKeepsCommits(s.phases, k, m, n, key);
    case CommitReceived(_, m) =>
    case HashReadyReceived(k, mined) => HashReadyKeepsCommits(s.phases, k, mined, key);
  }

  /** Every commit vote of a tracker was received for its key. */
  lemma {:induction false} CommitsReceived(handlers: seq<Handler>, n: nat, key: Key, v: nat)
    requires n >= 1 && key in HandleAll(handlers, n).phases && v < |HandleAll(handlers, n).phases[key].commits|
    ensures CommitReceived(key, HandleAll(handlers, n).phases[key].commits[v]) in handlers
  {
    hide Handle;
    var k := |handlers| - 1;
    var before := HandleAll(handlers[..k], n);
    var vote := HandleAll(handlers, n).phases[key].commits[v];
    CommitStep(before, handlers[k], n, key, v);
    if handlers[k] != CommitReceived(key, vote) {
      var u :| 0 <= u < |before.phases[key].commits| && before.phases[key].commits[u] == vote;
      CommitsReceived(handlers[..k], n, key, u);
    }
  }

  lemma PrepareKeepsCommits(phases: Phases, k: Key, m: Message, n: nat, key: Key)
    requires n >= 1
    ensures key in OnPrepare(phases, k, m, n) <==> key in phases
    ensures key in phases ==> OnPrepare(phases, k, m, n)[key].commits == phases[key].commits
  {
    hide AddVote;
  }

  lemma HashReadyKeepsCommits(phases: Phases, k: Key, mined: Block, key: Key)
    ensures key in OnHashReady(phases, k, mined) <==> key in phases
    ensures key in phases ==> OnHashReady(phases, k, mined)[key].commits == phases[key].commits
  {
    hide IsMinedVersion;
  }

  /**
   * After any messages: the block a committed tracker handed over is that of one received commit message whose
   * author was counted, the one that completed the number needed; it is the tracker's block exactly when that one
   * message carries it.
   */
  lemma HandedBlock(handlers: seq<Handler>, n: nat, key: Key) returns (m: Message)
    requires n >= 1 && key in HandleAll(handlers, n).phases && HandleAll(handlers, n).phases[key].committed
    ensures var p := HandleAll(handlers, n).phases[key];
            && Handed(HandleAll(handlers, n), key) == [m.block]
            && CommitReceived(key, m) in handlers && m.author in Authors(p.commits, COMMIT)
            && VotesNeeded(n) <= |p.commits| && m == p.commits[VotesNeeded(n) - 1]
            && (Handed(HandleAll(handlers, n), key) == [p.block] <==> m.block == p.block)
  {
    HandlersOrderly(handlers, n, key);
    var p := HandleAll(handlers, n).phases[key];
    m := p.commits[VotesNeeded(n) - 1];
    CommitsReceived(handlers, n, key, VotesNeeded(n) - 1);
    assert m in p.commits && m.kind == COMMIT;
  }

  /** If all commit messages for a key carry one block, that block is handed over. */
  lemma AgreedBlockHanded(handlers: seq<Handler>, n: nat, key: Key, block: Block)
    requires n >= 1 && key in HandleAll(handlers, n).phases && HandleAll(handlers, n).phases[key].committed
    requires forall m | CommitReceived(key, m) in handlers :: m.block == block
    ensures Handed(HandleAll(handlers, n), key) == [block]
  {
    var m := HandedBlock(handlers, n, key);
  }

  // ----- runs that commit -----

  /** Votes of one type by different authors. */
  ghost predicate DistinctVotes(votes: seq<Message>, kind: MessageType) {
    && (forall i | 0 <= i < |votes| :: votes[i].kind == kind)
    && (forall i, j | 0 <= i < j < |votes| :: votes[i].author != votes[j].author)
  }

  function PrepareRun(key: Key, block: Block, prepares: seq<Message>): seq<Handler> {
    if prepares == [] then [Preprepared(key, block)]
    else PrepareRun(key, block, prepares[..|prepares| - 1]) + [PrepareReceived(key, prepares[|prepares| - 1])]
  }

  /** A key is started with a block, and prepare and then commit votes are received for it. */
  function CommitRun(key: Key, block: Block, prepares: seq<Message>, commits: seq<Message>): seq<Handler> {
    if commits == [] then PrepareRun(key, block, prepares)
    else CommitRun(key, block, prepares, commits[..|commits| - 1]) + [CommitReceived(key, commits[|commits| - 1])]
  }

  lemma HandleSnoc(handlers: seq<Handler>, h: Handler, n: nat)
    requires n >= 1
    ensures HandleAll(handlers + [h], n) == Handle(HandleAll(handlers, n), h, n)
  {
    assert (handlers + [h])[..|handlers|] == handlers;
  }

  lemma NewVote(votes: seq<Message>, kind: MessageType)
    requires DistinctVotes(votes, kind) && votes != []
    ensures AddVote(votes[..|votes| - 1], votes[|votes| - 1], kind) == votes
    ensures DistinctVotes(votes[..|votes| - 1], kind)
  {
    assert votes == votes[..|votes| - 1] + [votes[|votes| - 1]];
  }

  lemma {:induction false} PrepareRunState(key: Key, block: Block, prepares: seq<Message>, n: nat)
    requires n >= 1 && DistinctVotes(prepares, PREPARE) && |prepares| <= VotesNeeded(n)
    ensures var s := HandleAll(PrepareRun(key, block, prepares), n);
            && key in s.phases && s.phases[key].block == block && s.phases[key].prepares == prepares
            && s.phases[key].commits == [] && (s.phases[key].prepared <==> |prepares| == VotesNeeded(n))
  {
    hide AddVote, DistinctVotes;
    var k := |prepares| - 1;
    if prepares == [] {
      HandleSnoc([], Preprepared(key, block), n);
      assert [] + [Preprepared(key, block)] == [Preprepared(key, block)];
    } else {
      NewVote(prepares, PREPARE);
      assert prepares[k].kind == PREPARE by { VoteKind(prepares, PREPARE, k); }
      PrepareRunState(key, block, prepares[..k], n);
      HandleSnoc(PrepareRun(key, block, prepares[..k]), PrepareReceived(key, prepares[k]), n);
    }
  }

  lemma VoteKind(votes: seq<Message>, kind: MessageType, i: nat)
    requires DistinctVotes(votes, kind) && i < |votes|
    ensures votes[i].kind == kind
  {
  }

  /** Enough votes of both types commit, whatever blocks the votes carry. */
  lemma {:induction false} CommitRunState(key: Key, block: Block, prepares: seq<Message>, commits: seq<Message>, n: nat)
    requires n >= 1 && DistinctVotes(prepares, PREPARE) && |prepares| == VotesNeeded(n)
    requires DistinctVotes(commits, COMMIT)
    ensures var s := HandleAll(CommitRun(key, block, prepares, commits), n);
            && key in s.phases && s.phases[key].block == block && s.phases[key].prepared
            && s.phases[key].commits == commits && (s.phases[key].committed <==> |commits| >= VotesNeeded(n))
  {
    hide AddVote, DistinctVotes, Authors, Handle, HandleAll, Orderly;
    var k := |commits| - 1;
    if commits == [] {
      PrepareRunState(key, block, prepares, n);
    } else {
      NewVote(commits, COMMIT);
      assert commits[k].kind == COMMIT by { VoteKind(commits, COMMIT, k); }
      CommitRunState(key, block, prepares, commits[..k], n);
      HandleSnoc(CommitRun(key, block, prepares, commits[..k]), CommitReceived(key, commits[k]), n);
      CommitCounted(HandleAll(CommitRun(key, block, prepares, commits[..k]), n), key, commits[k], n);
    }
    HandlersOrderly(CommitRun(key, block, prepares, commits), n, key);
    OrderlyCommits(HandleAll(CommitRun(key, block, prepares, commits), n), key, n);
  }

  lemma CommitCounted(s: NodeState, key: Key, m: Message, n: nat)
    requires n >= 1 && key in s.phases && s.phases[key].prepared && m.kind == COMMIT
    ensures var after := Handle(s, CommitReceived(key, m), n).phases;
            key in after && after[key].block == s.phases[key].block && after[key].prepared
            && after[key].commits == AddVote(s.phases[key].commits, m, COMMIT)
  {
    hide AddVote;
  }

  lemma OrderlyCommits(s: NodeState, key: Key, n: nat)
    requires n >= 1 && key in s.phases && Orderly(s.phases[key], Handed(s, key), n)
    ensures s.phases[key].committed <==> |s.phases[key].commits| >= VotesNeeded(n)
  {
    hide Authors;
  }

  /** Of four nodes, one whose commit vote carries another block decides what a fourth node adds. */
  lemma OtherBlockHanded(key: Key, tracked: Block, other: Block, a: string, b: string)
    requires tracked != other && a != b
    ensures var commits := [Message(a, COMMIT, tracked), Message(b, COMMIT, other)];
            var prepares := [Message(a, PREPARE, tracked), Message(b, PREPARE, tracked)];
            var s := HandleAll(CommitRun(key, tracked, prepares, commits), 4);
            key in s.phases && s.phases[key].block == tracked && Handed(s, key) == [other]
  {
    hide CommitRun, HandleAll;
    var commits := [Message(a, COMMIT, tracked), Message(b, COMMIT, other)];
    var prepares := [Message(a, PREPARE, tracked), Message(b, PREPARE, tracked)];
    assert VotesNeeded(4) == 2;
    CommitRunState(key, tracked, prepares, commits, 4);
    HandlersOrderly(CommitRun(key, tracked, prepares, commits), 4, key);
  }
}
