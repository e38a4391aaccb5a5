/** The tracker objects and the node's map of them, changed in place. */
module P2PNodeModule {
  import opened Ledger
  import opened Wrappers
  import opened Chain
  import opened PhaseTracking

  class PhaseState {
    var block: Block
    var hashReady: bool
    var prepared: bool
    var committed: bool
    var sentPrepare: bool
    var sentCommit: bool
    var prepareMessages: seq<Message>
    var commitMessages: seq<Message>

    constructor (block: Block)
      ensures State() == Fresh(block)
    {
      this.block := block;
      hashReady, prepared, committed, sentPrepare, sentCommit := false, false, false, false, false;
      prepareMessages, commitMessages := [], [];
    }

    function State(): Phase
      reads this
    {
      Phase(block, hashReady, prepared, committed, sentPrepare, sentCommit, prepareMessages, commitMessages)
    }

    /** Whether a list already holds a message of the author. */
    static method IsReceivedFromAuthor(messages: seq<Message>, author: string) returns (found: bool)
      ensures found <==> Voted(messages, author)
    {
      for i := 0 to |messages|
        invariant forall j | 0 <= j < i :: messages[j].author != author
      {
        if messages[i].author == author {
          return true;
        }
      }
      return false;
    }

    method AddPrepareMessage(m: Message)
      modifies this
      ensures State() == UpdatePhase(old(State()), Prepare(m))
    {
      if m.kind == PREPARE {
        var already := IsReceivedFromAuthor(prepareMessages, m.author);
        if !already {
          prepareMessages := prepareMessages + [m];
        }
      }
    }

    method AddCommitMessage(m: Message)
      modifies this
      ensures State() == UpdatePhase(old(State()), Commit(m))
    {
      if m.kind == COMMIT {
        var already := IsReceivedFromAuthor(commitMessages, m.author);
        if !already {
          commitMessages := commitMessages + [m];
        }
      }
    }

    /** The counting loop gives up at the second transaction the block does not have. */
    static method CheckIfBlockMined(b: Block, mined: Block) returns (valid: bool)
      ensures valid <==> mined.header.index == b.header.index && mined.header.previousHash == b.header.previousHash
                         && AtMostOneNew(b, mined)
    {
      hide AtMostOneNew;
      MinedVersionIff(b, mined);
      if !SameHeader(b.header, mined.header) {
        return false;
      }
      var txs := mined.transactions;
      var unfound := 0;
      for i := 0 to |txs|
        invariant unfound == Unfound(b, txs[..i]) <= 1
      {
        assert txs[..i + 1][..i] == txs[..i];
        if txs[i] !in b.transactions {
          unfound := unfound + 1;
          if unfound > 1 {
            UnfoundMonotone(b, txs, i + 1);
            return false;
          }
        }
      }
      assert txs[..|txs|] == txs;
      return true;
    }

    method SetHashReady(mined: Block)
      modifies this
      ensures State() == UpdatePhase(old(State()), HashReady(mined))
    {
      if !hashReady {
        var similar := CheckIfBlockMined(block, mined);
        MinedVersionIff(block, mined);
        if similar {
          block := mined;
          hashReady := true;
        }
      }
    }

    /** The four flags that are only ever raised. */
    method Raise(e: Event)
      requires e.SetPrepared? || e.SetCommitted? || e.SetSentPrepare? || e.SetSentCommit?
      modifies this
      ensures State() == UpdatePhase(old(State()), e)
    {
      match e
      case SetPrepared => prepared := true;
      case SetCommitted => committed := true;
      case SetSentPrepare => sentPrepare := true;
      case SetSentCommit => sentCommit := true;
    }
  }

  lemma {:induction false} UnfoundMonotone(b: Block, txs: seq<Transaction>, i: nat)
    requires i <= |txs|
    ensures Unfound(b, txs[..i]) <= Unfound(b, txs)
    decreases |txs|
  {
    if i < |txs| {
      UnfoundMonotone(b, txs[..|txs| - 1], i);
      assert txs[..|txs| - 1][..i] == txs[..i];
    } else {
      assert txs[..i] == txs;
    }
  }

  class P2PNode {
    var phaseStates: map<Key, PhaseState>

    constructor ()
      ensures Valid() && View() == map[]
    {
      phaseStates := map[];
    }

    /** Different keys have different trackers. */
    ghost predicate Valid()
      reads this
    {
      forall k, k' | k in phaseStates && k' in phaseStates && k != k' :: phaseStates[k] != phaseStates[k']
    }

    ghost function View(): Phases
      reads this, phaseStates.Values
    {
      map k | k in phaseStates :: phaseStates[k].State()
    }

    /** Starts tracking a key, or starts it again. */
    method AddNewPhaseState(key: Key, block: Block)
      requires Valid()
      modifies this
      ensures Valid() && View() == ApplyEvent(old(View()), key, NewPhase(block))
      ensures fresh(phaseStates.Values - old(phaseStates.Values))
    {
      var phase := new PhaseState(block);
      phaseStates := phaseStates[key := phase];
    }

    method IsTrackingTheState(key: Key) returns (tracking: bool)
      ensures tracking <==> key in View()
    {
      return key in phaseStates;
    }

    method AddPrepareMessage(key: Key, m: Message)
      requires Valid()
      modifies phaseStates.Values
      ensures Valid() && phaseStates == old(phaseStates)
      ensures View() == ApplyEvent(old(View()), key, Prepare(m))
    {
      if key in phaseStates {
        phaseStates[key].AddPrepareMessage(m);
      }
    }

    method AddCommitMessage(key: Key, m: Message)
      requires Valid()
      modifies phaseStates.Values
      ensures Valid() && phaseStates == old(phaseStates)
      ensures View() == ApplyEvent(old(View()), key, Commit(m))
    {
      if key in phaseStates {
        phaseStates[key].AddCommitMessage(m);
      }
    }

    method SetHashReady(key: Key, mined: Block)
      requires Valid()
      modifies phaseStates.Values
      ensures Valid() && phaseStates == old(phaseStates)
      ensures View() == ApplyEvent(old(View()), key, HashReady(mined))
    {
      if key in phaseStates {
        phaseStates[key].SetHashReady(mined);
      }
    }

    method SetFlag(key: Key, e: Event)
      requires Valid() && (e.SetPrepared? || e.SetCommitted? || e.SetSentPrepare? || e.SetSentCommit?)
      modifies phaseStates.Values
      ensures Valid() && phaseStates == old(phaseStates)
      ensures View() == ApplyEvent(old(View()), key, e)
    {
      if key in phaseStates {
        phaseStates[key].Raise(e);
      }
    }

    method GetPrepareAmount(key: Key) returns (amount: nat)
      ensures amount == if key in View() then |View()[key].prepares| else 0
    {
      return if key in phaseStates then |phaseStates[key].prepareMessages| else 0;
    }

    method GetCommitAmount(key: Key) returns (amount: nat)
      ensures amount == if key in View() then |View()[key].commits| else 0
    {
      return if key in phaseStates then |phaseStates[key].commitMessages| else 0;
    }

    method IsPrepared(key: Key) returns (prepared: bool)
      ensures prepared <==> key in View() && View()[key].prepared
    {
      return key in phaseStates && phaseStates[key].prepared;
    }

    method IsCommitted(key: Key) returns (committed: bool)
      ensures committed <==> key in View() && View()[key].committed
    {
      return key in phaseStates && phaseStates[key].committed;
    }

    /** The handler of a prepare message, in a network of n nodes. */
    method HandlePrepare(key: Key, m: Message, n: nat)
      requires Valid() && n >= 1
      modifies phaseStates.Values
      ensures Valid() && phaseStates == old(phaseStates)
      ensures View() == OnPrepare(old(View()), key, m, n)
    {
      hide View, AddVote, IsMinedVersion;
      if m.kind != PREPARE {
        return;
      }
      var tracking := IsTrackingTheState(key);
      if !tracking {
        return;
      }
      SetFlag(key, SetSentPrepare);
      var prepared := IsPrepared(key);
      if prepared {
        return;
      }
      AddPrepareMessage(key, m);
      var amount := GetPrepareAmount(key);
      if amount >= ExpectedMinimum(n) {
        SetFlag(key, SetPrepared);
        SetFlag(key, SetSentCommit);
      }
    }

    /** The handler of a commit message; it reports the block it hands to the chain, if any. */
    method HandleCommit(key: Key, m: Message, n: nat) returns (handed: Option<Block>)
      requires Valid() && n >= 1
      modifies phaseStates.Values
      ensures Valid() && phaseStates == old(phaseStates)
      ensures (View(), handed) == OnCommit(old(View()), key, m, n)
    {
      hide View, AddVote, IsMinedVersion;
      if m.kind != COMMIT {
        return None;
      }
      var tracking := IsTrackingTheState(key);
      var prepared := IsPrepared(key);
      if !tracking || !prepared {
        return None;
      }
      AddCommitMessage(key, m);
      var amount := GetCommitAmount(key);
      var committed := IsCommitted(key);
      if !committed && amount >= ExpectedMinimum(n) {
        SetFlag(key, SetCommitted);
        return Some(m.block);
      }
      return None;
    }
  }
}
