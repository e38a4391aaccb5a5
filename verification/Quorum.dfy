/** How many voters two trackers share, and when two nodes that committed share a correct one. */
module Quorum {
  import opened Chain
  import opened PhaseTracking
  import opened Sequences
  import opened Sets

  /** Two sets of voters out of n nodes share at least what they exceed n by together. */
  lemma VotersShared<T>(nodes: set<T>, a: set<T>, b: set<T>)
    requires a <= nodes && b <= nodes
    ensures |a * b| >= |a| + |b| - |nodes|
  {
    SubsetSize(a + b, nodes);
  }

  /** The authors who voted in a tracker since it was last started. */
  ghost function PrepareAuthors(events: seq<(Key, Event)>, key: Key): set<string> {
    Authors(Prepares(Since(events, key)), PREPARE)
  }

  ghost function CommitAuthors(events: seq<(Key, Event)>, key: Key): set<string> {
    Authors(Commits(Since(events, key)), COMMIT)
  }

  /** Two trackers, of any two nodes, that counted q1 and q2 of n nodes share at least q1 + q2 - n authors. */
  lemma TrackersShare(nodes: set<string>, events1: seq<(Key, Event)>, key1: Key, events2: seq<(Key, Event)>, key2: Key)
    requires key1 in RunEvents(events1) && key2 in RunEvents(events2)
    ensures PrepareAuthors(events1, key1) <= nodes && PrepareAuthors(events2, key2) <= nodes ==>
              |PrepareAuthors(events1, key1) * PrepareAuthors(events2, key2)|
                >= |RunEvents(events1)[key1].prepares| + |RunEvents(events2)[key2].prepares| - |nodes|
    ensures CommitAuthors(events1, key1) <= nodes && CommitAuthors(events2, key2) <= nodes ==>
              |CommitAuthors(events1, key1) * CommitAuthors(events2, key2)|
                >= |RunEvents(events1)[key1].commits| + |RunEvents(events2)[key2].commits| - |nodes|
  {
    hide Authors, Prepares, Commits, Since, RunEvents;
    VoteCounts(events1, key1);
    VoteCounts(events2, key2);
    if PrepareAuthors(events1, key1) <= nodes && PrepareAuthors(events2, key2) <= nodes {
      VotersShared(nodes, PrepareAuthors(events1, key1), PrepareAuthors(events2, key2));
    }
    if CommitAuthors(events1, key1) <= nodes && CommitAuthors(events2, key2) <= nodes {
      VotersShared(nodes, CommitAuthors(events1, key1), CommitAuthors(events2, key2));
    }
  }

  // ----- nodes that committed -----

  function MaxFaulty(n: nat): nat
    requires n >= 1
  {
    (n - 1) / 3
  }

  /** A node of the network committed a key after commit votes of other nodes. */
  ghost predicate Committed(nodes: set<string>, node: string, handlers: seq<Handler>, key: Key)
    requires |nodes| >= 1
  {
    && node in nodes
    && (forall m | CommitReceived(key, m) in handlers :: m.author in nodes - {node})
    && key in HandleAll(handlers, |nodes|).phases && HandleAll(handlers, |nodes|).phases[key].committed
  }

  /** Those who committed for the node: the authors it counted and, having sent its own commit, the node itself. */
  ghost function Voters(n: nat, node: string, handlers: seq<Handler>, key: Key): set<string>
    requires n >= 1 && key in HandleAll(handlers, n).phases
  {
    Authors(HandleAll(handlers, n).phases[key].commits, COMMIT) + {node}
  }

  /** A committed node counted enough nodes besides itself, and had sent its own commit. */
  lemma VotersOfCommitted(nodes: set<string>, node: string, handlers: seq<Handler>, key: Key)
    requires |nodes| >= 1 && Committed(nodes, node, handlers, key)
    ensures Voters(|nodes|, node, handlers, key) <= nodes
    ensures |Voters(|nodes|, node, handlers, key)| >= VotesNeeded(|nodes|) + 1
    ensures HandleAll(handlers, |nodes|).phases[key].sentCommit
  {
    hide HandleAll;
    var n := |nodes|;
    HandlersOrderly(handlers, n, key);
    var commits := HandleAll(handlers, n).phases[key].commits;
    forall author | author in Authors(commits, COMMIT)
      ensures author in nodes - {node}
    {
      var m :| m in commits && m.kind == COMMIT && m.author == author;
      var v :| 0 <= v < |commits| && commits[v] == m;
      CommitsReceived(handlers, n, key, v);
    }
    hide Authors;
    assert |Authors(commits, COMMIT) + {node}| == |Authors(commits, COMMIT)| + 1;
  }

  /** If both nodes committed the key, they have a voter outside any (n - 1) / 3 faulty ones. */
  ghost predicate ShareCorrect(nodes: set<string>, a: string, ha: seq<Handler>, b: string, hb: seq<Handler>, key: Key,
                               faulty: set<string>)
    requires |nodes| >= 1
  {
    Committed(nodes, a, ha, key) && Committed(nodes, b, hb, key) && |faulty| <= MaxFaulty(|nodes|) ==>
      Voters(|nodes|, a, ha, key) * Voters(|nodes|, b, hb, key) - faulty != {}
  }

  /** Any two nodes of a network of n that committed a key have a correct voter in common. */
  ghost predicate SafeSize(n: nat)
    requires n >= 1
  {
    forall nodes: set<string>, a, b, ha, hb, key, faulty: set<string> | |nodes| == n ::
      ShareCorrect(nodes, a, ha, b, hb, key, faulty)
  }

  lemma TwoQuorums(n: nat)
    requires n >= 1 && (n % 3 != 2 || n == 2)
    ensures 2 * (VotesNeeded(n) + 1) >= n + MaxFaulty(n) + 1
  {
  }

  /** Unless n is 3f + 2 with f > 0, two nodes that committed share more voters than may be faulty. */
  lemma CommittedShareCorrect(nodes: set<string>, a: string, ha: seq<Handler>, b: string, hb: seq<Handler>, key: Key,
                              faulty: set<string>)
    requires |nodes| >= 1 && (|nodes| % 3 != 2 || |nodes| == 2) && |faulty| <= MaxFaulty(|nodes|)
    requires Committed(nodes, a, ha, key) && Committed(nodes, b, hb, key)
    ensures |Voters(|nodes|, a, ha, key) * Voters(|nodes|, b, hb, key)| > MaxFaulty(|nodes|)
    ensures Voters(|nodes|, a, ha, key) * Voters(|nodes|, b, hb, key) - faulty != {}
  {
    var n := |nodes|;
    VotersOfCommitted(nodes, a, ha, key);
    VotersOfCommitted(nodes, b, hb, key);
    TwoQuorums(n);
    hide VotesNeeded, MaxFaulty, HandleAll, Authors, Committed, Voters;
    var va, vb := Voters(n, a, ha, key), Voters(n, b, hb, key);
    VotersShared(nodes, va, vb);
    if va * vb - faulty == {} {
      SubsetSize(va * vb, faulty);
    }
  }

  // ----- the sizes that are not safe -----

  /** Different numbers have different names. */
  function Name(i: nat): (name: string)
    ensures |name| == i
  {
    Repeat('n', i)
  }

  /** The names of the numbers from lo up to hi. */
  function Names(lo: nat, hi: nat): set<string>
    requires lo <= hi
  {
    set i | lo <= i < hi :: Name(i)
  }

  lemma NamesOf(lo: nat, hi: nat, i: nat)
    requires lo <= hi
    ensures Name(i) in Names(lo, hi) <==> lo <= i < hi
  {
    if Name(i) in Names(lo, hi) {
      var j :| lo <= j < hi && Name(j) == Name(i);
      assert |Name(j)| == j && |Name(i)| == i;
    }
  }

  lemma {:induction false} NamesSize(lo: nat, hi: nat)
    requires lo <= hi
    ensures |Names(lo, hi)| == hi - lo
  {
    if lo < hi {
      NamesSize(lo, hi - 1);
      NamesOf(lo, hi - 1, hi - 1);
      hide Name;
      assert Names(lo, hi) == Names(lo, hi - 1) + {Name(hi - 1)};
    } else {
      assert Names(lo, hi) == {};
    }
  }

  /** One vote of each named node. */
  function Votes(lo: nat, hi: nat, kind: MessageType, m: Message): (votes: seq<Message>)
    requires lo <= hi
    ensures |votes| == hi - lo
    ensures forall i | 0 <= i < hi - lo :: votes[i].author == Name(lo + i) && votes[i].kind == kind
  {
    seq(hi - lo, i requires 0 <= i < hi - lo => m.(author := Name(lo + i), kind := kind))
  }

  /** The handlers of a node that receives both votes of the nodes named from lo up to hi. */
  function VotedBy(lo: nat, hi: nat, key: Key, m: Message): seq<Handler>
    requires lo <= hi
  {
    CommitRun(key, m.block, Votes(lo, hi, PREPARE, m), Votes(lo, hi, COMMIT, m))
  }

  lemma VotesDistinct(lo: nat, hi: nat, kind: MessageType, m: Message)
    requires lo <= hi
    ensures DistinctVotes(Votes(lo, hi, kind, m), kind)
  {
    hide Name;
    var votes := Votes(lo, hi, kind, m);
    forall i, j | 0 <= i < j < |votes|
      ensures votes[i].author != votes[j].author
    {
      assert |Name(lo + i)| != |Name(lo + j)|;
    }
  }

  lemma AuthorsOfVotes(lo: nat, hi: nat, kind: MessageType, m: Message)
    requires lo <= hi
    ensures Authors(Votes(lo, hi, kind, m), kind) == Names(lo, hi)
  {
    hide Name, Votes;
    var votes := Votes(lo, hi, kind, m);
    forall x | x in Names(lo, hi)
      ensures x in Authors(votes, kind)
    {
      var i :| lo <= i < hi && x == Name(i);
      assert votes[i - lo] in votes && votes[i - lo].author == x;
    }
  }

  lemma {:induction false} CommitRunReceives(key: Key, block: Block, prepares: seq<Message>, commits: seq<Message>, m: Message)
    requires CommitReceived(key, m) in CommitRun(key, block, prepares, commits)
    ensures m in commits
  {
    if commits == [] {
      PrepareRunReceives(key, block, prepares, m);
    } else if m != commits[|commits| - 1] {
      CommitRunReceives(key, block, prepares, commits[..|commits| - 1], m);
    }
  }

  lemma {:induction false} PrepareRunReceives(key: Key, block: Block, prepares: seq<Message>, m: Message)
    ensures CommitReceived(key, m) !in PrepareRun(key, block, prepares)
  {
    if prepares != [] {
      PrepareRunReceives(key, block, prepares[..|prepares| - 1], m);
    }
  }

  lemma VotedByAuthors(n: nat, node: nat, lo: nat, hi: nat, key: Key, m: Message)
    requires node < n && lo <= hi <= n && !(lo <= node < hi)
    ensures forall m' | CommitReceived(key, m') in VotedBy(lo, hi, key, m) :: m'.author in Names(0, n) - {Name(node)}
  {
    hide Name, CommitRun, Names, Votes;
    var commits := Votes(lo, hi, COMMIT, m);
    forall m' | CommitReceived(key, m') in VotedBy(lo, hi, key, m)
      ensures m'.author in Names(0, n) - {Name(node)}
    {
      CommitRunReceives(key, m.block, Votes(lo, hi, PREPARE, m), commits, m');
      var i :| 0 <= i < |commits| && commits[i] == m';
      NamesOf(0, n, lo + i);
      assert |Name(lo + i)| == lo + i && |Name(node)| == node;
    }
  }

  /** Votes of enough nodes besides the node itself commit, and they and the node are its voters. */
  lemma VotedByCommits(n: nat, node: nat, lo: nat, hi: nat, key: Key, m: Message)
    requires node < n && lo <= hi <= n && !(lo <= node < hi) && hi - lo == VotesNeeded(n)
    ensures |Names(0, n)| == n && Committed(Names(0, n), Name(node), VotedBy(lo, hi, key, m), key)
    ensures Voters(n, Name(node), VotedBy(lo, hi, key, m), key) == Names(lo, hi) + {Name(node)}
  {
    hide HandleAll, CommitRun, Authors, DistinctVotes, Name, Names, Votes, VotesNeeded;
    NamesSize(0, n);
    NamesOf(0, n, node);
    VotesDistinct(lo, hi, PREPARE, m);
    VotesDistinct(lo, hi, COMMIT, m);
    AuthorsOfVotes(lo, hi, COMMIT, m);
    VotedByAuthors(n, node, lo, hi, key, m);
    CommitRunState(key, m.block, Votes(lo, hi, PREPARE, m), Votes(lo, hi, COMMIT, m), n);
  }

  lemma Thresholds(f: nat)
    requires f > 0
    ensures VotesNeeded(3 * f + 2) == 2 * f && MaxFaulty(3 * f + 2) == f
  {
  }

  /** With n = 3f + 2 and f > 0, two nodes may commit with only f voters in common, all of them faulty. */
  lemma CommittedShareOnlyFaulty(f: nat, n: nat, key: Key, m: Message)
    requires f > 0 && n == 3 * f + 2
    ensures !SafeSize(n)
  {
    hide HandleAll, VotedBy, Name, Names, Authors, MaxFaulty, VotesNeeded, Voters;
    Thresholds(f);
    VotedByCommits(n, 0, 1, 2 * f + 1, key, m);
    VotedByCommits(n, n - 1, f + 1, n - 1, key, m);
    NamesSize(f + 1, 2 * f + 1);
    CommonVoters(f, n);
    assert !ShareCorrect(Names(0, n), Name(0), VotedBy(1, 2 * f + 1, key, m), Name(n - 1), VotedBy(f + 1, n - 1, key, m),
                         key, Names(f + 1, 2 * f + 1)) by {
      hide Committed;
    }
    hide ShareCorrect;
  }

  lemma CommonVoters(f: nat, n: nat)
    requires f > 0 && n == 3 * f + 2
    ensures (Names(1, 2 * f + 1) + {Name(0)}) * (Names(f + 1, n - 1) + {Name(n - 1)}) - Names(f + 1, 2 * f + 1) == {}
  {
    hide Name;
    var a, b := Names(1, 2 * f + 1) + {Name(0)}, Names(f + 1, n - 1) + {Name(n - 1)};
    forall x | x in a && x in b
      ensures x in Names(f + 1, 2 * f + 1)
    {
      var i :| 0 <= i <= 2 * f && x == Name(i);
      var j :| f + 1 <= j < n && x == Name(j);
      assert |Name(i)| == i && |Name(j)| == j;
    }
  }

  /**
   * Over all runs of the handlers: the threshold makes any two nodes that committed share a correct voter exactly
   * when n is not 3f + 2, or is 2.
   */
  lemma SafeSizeIff(n: nat)
    requires n >= 1
    ensures SafeSize(n) <==> n % 3 != 2 || n == 2
  {
    if n % 3 == 2 && n != 2 {
      var block := Block(BlockHeader(0, 0, "", "", 0), [], false);
      CommittedShareOnlyFaulty(n / 3, n, (0, 0), Message("", COMMIT, block));
    } else {
      forall nodes: set<string>, a, b, ha, hb, key, faulty: set<string> | |nodes| == n
        ensures ShareCorrect(nodes, a, ha, b, hb, key, faulty)
      {
        if Committed(nodes, a, ha, key) && Committed(nodes, b, hb, key) && |faulty| <= MaxFaulty(n) {
          CommittedShareCorrect(nodes, a, ha, b, hb, key, faulty);
        }
      }
    }
  }
}
