/**
 * The value checks of transaction verification, and exactly when a transaction or a block that passes them keeps
 * the supply. Key hashes and signatures are parameters.
 */
module TransactionVerification {
  import opened Ledger
  import opened MachineWords
  import opened MempoolState
  import opened Sequences
  import opened Supply
  import opened TextStreams
  import opened UtxoSet
  import opened Wrappers
  import BlockchainModule

  /** The hash of a public key, and whether a signature of the transaction fits a public key. */
  datatype Checks = Checks(hash: string -> string, signed: (Transaction, string, string) -> bool)

  /** The signature and the public key of an input: the first two words of its script. */
  function Label(input: TxInput): Option<(string, string)> {
    var words := ReadWords(input.scriptSig);
    if |words| < 2 then None else Some((words[0], words[1]))
  }

  predicate IsCoinbase(input: TxInput) {
    Label(input).Some? && Label(input).value.1 == "Coinbase"
  }

  /** A Coinbase label passes unchecked; any other input must name an entry its key and signature unlock. */
  predicate InputPasses(c: Checks, utxos: Utxos, tx: Transaction, input: TxInput) {
    Label(input).Some? &&
    (IsCoinbase(input) ||
     (var (signature, publicKey) := Label(input).value;
      && input.previous in utxos && c.hash(publicKey) == PublicKeyHash(utxos[input.previous].script)
      && c.signed(tx, signature, publicKey)))
  }

  /** The values of the inputs without a Coinbase label, each as often as it is named. */
  function ValueIn(utxos: Utxos, inputs: seq<TxInput>): nat {
    if inputs == [] then 0
    else
      var input := inputs[|inputs| - 1];
      ValueIn(utxos, inputs[..|inputs| - 1])
      + (if !IsCoinbase(input) && input.previous in utxos then utxos[input.previous].value else 0)
  }

  /** What verification tests; the 64-bit sums are compared unless some input has a Coinbase label. */
  predicate Accepted(c: Checks, utxos: Utxos, tx: Transaction) {
    && (tx.inputs != [] || tx.outputs != []) && tx.id != ""
    && (forall i | 0 <= i < |tx.inputs| :: InputPasses(c, utxos, tx, tx.inputs[i]))
    && ((exists i | 0 <= i < |tx.inputs| :: IsCoinbase(tx.inputs[i]))
        || ValueIn(utxos, tx.inputs) % UINT64 >= OutputSum(tx.outputs) % UINT64)
  }

  /** The verification of the source: its two loops, and the comparison of their 64-bit sums. */
  method Verify(c: Checks, utxos: Utxos, tx: Transaction) returns (valid: bool)
    ensures valid <==> Accepted(c, utxos, tx)
  {
    hide InputPasses, IsCoinbase, ValueIn, OutputSum;
    if (tx.inputs == [] && tx.outputs == []) || tx.id == "" {
      return false;
    }
    var passed, totalInput, isCoinbase := VerifyInputs(c, utxos, tx);
    if !passed {
      return false;
    }
    var totalOutput := SumOutputs(tx);
    return isCoinbase || totalInput >= totalOutput;
  }

  /** The loop over the inputs leaves at the first that does not pass. */
  method VerifyInputs(c: Checks, utxos: Utxos, tx: Transaction)
      returns (passed: bool, totalInput: nat, isCoinbase: bool)
    ensures passed <==> forall i | 0 <= i < |tx.inputs| :: InputPasses(c, utxos, tx, tx.inputs[i])
    ensures passed ==> totalInput == ValueIn(utxos, tx.inputs) % UINT64
    ensures passed ==> (isCoinbase <==> exists i | 0 <= i < |tx.inputs| :: IsCoinbase(tx.inputs[i]))
  {
    hide Label, IsCoinbase;
    totalInput, isCoinbase := 0, false;
    for i := 0 to |tx.inputs|
      invariant forall j | 0 <= j < i :: InputPasses(c, utxos, tx, tx.inputs[j])
      invariant isCoinbase <==> exists j | 0 <= j < i :: IsCoinbase(tx.inputs[j])
      invariant totalInput == ValueIn(utxos, tx.inputs[..i]) % UINT64
    {
      var input := tx.inputs[i];
      assert tx.inputs[..i + 1][..i] == tx.inputs[..i];
      if !InputPasses(c, utxos, tx, input) {
        return false, totalInput, isCoinbase;
      }
      if IsCoinbase(input) {
        isCoinbase := true;
      } else {
        WrapStep(ValueIn(utxos, tx.inputs[..i]), utxos[input.previous].value);
        totalInput := (totalInput + utxos[input.previous].value) % UINT64;
      }
    }
    assert tx.inputs[..|tx.inputs|] == tx.inputs;
    passed := true;
  }

  method SumOutputs(tx: Transaction) returns (totalOutput: nat)
    ensures totalOutput == OutputSum(tx.outputs) % UINT64
  {
    totalOutput := 0;
    for i := 0 to |tx.outputs|
      invariant totalOutput == OutputSum(tx.outputs[..i]) % UINT64
    {
      OutputSumStep(tx.outputs, i + 1);
      WrapStep(OutputSum(tx.outputs[..i]), tx.outputs[i].value);
      totalOutput := (totalOutput + tx.outputs[i].value) % UINT64;
    }
    assert tx.outputs[..|tx.outputs|] == tx.outputs;
  }

  // ----- one transaction -----

  predicate Unlabelled(tx: Transaction) {
    forall i | 0 <= i < |tx.inputs| :: !IsCoinbase(tx.inputs[i])
  }

  lemma {:induction false} ValueInIsInputSum(utxos: Utxos, inputs: seq<TxInput>)
    requires forall i | 0 <= i < |inputs| :: !IsCoinbase(inputs[i])
    requires forall input | input in inputs :: input.previous in utxos
    ensures ValueIn(utxos, inputs) == InputSum(utxos, inputs)
  {
    hide IsCoinbase;
    if inputs != [] {
      ValueInIsInputSum(utxos, inputs[..|inputs| - 1]);
    }
  }

  lemma DistinctInputsWithinTotal(utxos: Utxos, tx: Transaction)
    requires DistinctInputs(tx) && forall input | input in tx.inputs :: input.previous in utxos
    ensures InputSum(utxos, tx.inputs) <= Total(utxos)
  {
    hide Total;
    TotalMinusInputs(utxos, tx, |tx.inputs|);
    assert tx.inputs[..|tx.inputs|] == tx.inputs;
  }

  /**
   * While the supply fits 64 bits, an accepted transaction without a Coinbase label is ordinary exactly when it
   * names no outpoint twice and its outputs do not wrap 64 bits.
   */
  lemma AcceptedOrdinaryIff(c: Checks, utxos: Utxos, tx: Transaction)
    requires Accepted(c, utxos, tx) && Unlabelled(tx) && Total(utxos) < UINT64
    ensures Ordinary(utxos, tx) <==> DistinctInputs(tx) && OutputSum(tx.outputs) < UINT64
  {
    forall input | input in tx.inputs
      ensures input.previous in utxos
    {
      var i :| 0 <= i < |tx.inputs| && tx.inputs[i] == input;
      assert InputPasses(c, utxos, tx, tx.inputs[i]);
    }
    hide IsCoinbase, Total, InputPasses, ValueIn, InputSum, OutputSum;
    ValueInIsInputSum(utxos, tx.inputs);
    if DistinctInputs(tx) {
      DistinctInputsWithinTotal(utxos, tx);
      FitsWord(InputSum(utxos, tx.inputs));
      if OutputSum(tx.outputs) < UINT64 {
        FitsWord(OutputSum(tx.outputs));
      }
    }
  }

  /** An input named twice counts twice: spending v and v again for 2v is accepted, and the supply grows by v. */
  lemma RepeatedInputMints(c: Checks, utxos: Utxos, tx: Transaction, input: TxInput, to: Script)
    requires tx.inputs == [input, input] && tx.id != "" && Fresh(utxos, tx.id)
    requires InputPasses(c, utxos, tx, input) && !IsCoinbase(input) && 0 < 2 * utxos[input.previous].value < UINT64
    requires tx.outputs == [TxOutput(2 * utxos[input.previous].value, to)]
    ensures Accepted(c, utxos, tx) && Unlabelled(tx) && !Ordinary(utxos, tx)
    ensures Total(Spend(utxos, tx)) == Total(utxos) + utxos[input.previous].value
  {
    var v := utxos[input.previous].value;
    assert tx.inputs[..1] == [input] && [input][..0] == [];
    assert ValueIn(utxos, [input]) == v;
    assert ValueIn(utxos, tx.inputs) == 2 * v;
    assert tx.outputs[..0] == [] && tx.outputs[..1] == tx.outputs;
    assert OutputSum(tx.outputs) == 2 * v;
    assert tx.inputs[0].previous == tx.inputs[1].previous;
    hide ValueIn, OutputSum, Total, IsCoinbase;
    assert Inputs(tx) == {input.previous};
    TotalPlusOutputs(utxos, tx, 1);
    TotalRemove(utxos + Outputs(tx), input.previous);
  }

  /** An input with a Coinbase label waives the comparison: any outputs are accepted, and all of them are new. */
  lemma CoinbaseLabelMints(c: Checks, utxos: Utxos, tx: Transaction, input: TxInput)
    requires tx.inputs == [input] && tx.id != "" && IsCoinbase(input) && Fresh(utxos, tx.id)
    requires input.previous !in utxos && input.previous.txid != tx.id
    ensures Accepted(c, utxos, tx) && Reward(utxos, tx)
    ensures Total(Spend(utxos, tx)) == Total(utxos) + OutputSum(tx.outputs)
  {
    assert IsCoinbase(tx.inputs[0]);
    assert Inputs(tx) == {input.previous};
    RewardTotal(utxos, tx);
  }

  // ----- signatures -----

  /** The second word of an input is a key with the hash in the script of the entry, and the first fits it. */
  ghost predicate SignedFor(c: Checks, entry: UtxoData, tx: Transaction, input: TxInput) {
    var words := ReadWords(input.scriptSig);
    |words| >= 2 && c.hash(words[1]) == PublicKeyHash(entry.script) && c.signed(tx, words[0], words[1])
  }

  /** The input carries the Coinbase label as its second word. */
  ghost predicate Labelled(input: TxInput) {
    var words := ReadWords(input.scriptSig);
    |words| >= 2 && words[1] == "Coinbase"
  }

  /**
   * The verdict with its checks written out: every input without the label names an entry it is signed for, and
   * where no input has the label the 64-bit sum of the outputs does not exceed that of the entries.
   */
  lemma AcceptedIff(c: Checks, utxos: Utxos, tx: Transaction)
    ensures Accepted(c, utxos, tx) <==>
              && (tx.inputs != [] || tx.outputs != []) && tx.id != ""
              && (forall i | 0 <= i < |tx.inputs| && !Labelled(tx.inputs[i]) ::
                    tx.inputs[i].previous in utxos && SignedFor(c, utxos[tx.inputs[i].previous], tx, tx.inputs[i]))
              && ((forall i | 0 <= i < |tx.inputs| :: !Labelled(tx.inputs[i])) ==>
                    (forall input | input in tx.inputs :: input.previous in utxos)
                    && OutputSum(tx.outputs) % UINT64 <= InputSum(utxos, tx.inputs) % UINT64)
  {
    hide ValueIn, InputSum, OutputSum;
    forall i | 0 <= i < |tx.inputs|
      ensures IsCoinbase(tx.inputs[i]) <==> Labelled(tx.inputs[i])
      ensures InputPasses(c, utxos, tx, tx.inputs[i]) <==>
                Labelled(tx.inputs[i]) || (tx.inputs[i].previous in utxos
                                           && SignedFor(c, utxos[tx.inputs[i].previous], tx, tx.inputs[i]))
    {
    }
    hide IsCoinbase, InputPasses, Labelled, SignedFor;
    if forall i | 0 <= i < |tx.inputs| ::
         !Labelled(tx.inputs[i]) && tx.inputs[i].previous in utxos
         && SignedFor(c, utxos[tx.inputs[i].previous], tx, tx.inputs[i])
    {
      forall input | input in tx.inputs
        ensures input.previous in utxos
      {
        var i :| 0 <= i < |tx.inputs| && tx.inputs[i] == input;
      }
      ValueInIsInputSum(utxos, tx.inputs);
    }
  }

  /** An input with the label takes out the entry it names, whoever owns it. */
  lemma LabelledInputSpends(c: Checks, utxos: Utxos, tx: Transaction, input: TxInput)
    requires tx.inputs == [input] && tx.id != "" && Labelled(input) && input.previous in utxos
    ensures Accepted(c, utxos, tx) && input.previous !in Spend(utxos, tx)
  {
    AcceptedIff(c, utxos, tx);
    assert tx.inputs[0] == input;
    InputsOf(tx, input.previous);
  }

  /** An input made of a signature, a space and a key has these two words. */
  lemma SignatureAndKey(input: TxInput, signature: string, publicKey: string)
    requires IsWord(signature) && IsWord(publicKey) && input.scriptSig == signature + " " + publicKey
    ensures ReadWords(input.scriptSig) == [signature, publicKey]
  {
    var words := [signature, publicKey];
    assert words[1..] == [publicKey] && [publicKey][1..] == [];
    var text := Spaced(words);
    assert Spaced(words[1..]) == publicKey + " " + Spaced([publicKey][1..]) == publicKey + " " + "";
    assert text == signature + " " + (publicKey + " " + "");
    assert text[..|text| - 1] == input.scriptSig;
    ReadSpaced(words);
  }

  /** What leaves the set is an input of one of the transactions. */
  lemma {:induction false} LeavesByInput(utxos: Utxos, txs: seq<Transaction>, op: OutPoint) returns (t: nat, i: nat)
    requires op in utxos && op !in SpendAll(utxos, txs)
    ensures t < |txs| && i < |txs[t].inputs| && txs[t].inputs[i].previous == op
    decreases txs
  {
    if op in Spend(utxos, txs[0]) {
      t, i := LeavesByInput(Spend(utxos, txs[0]), txs[1..], op);
      t := t + 1;
    } else {
      InputsOf(txs[0], op);
      assert op in Inputs(txs[0]);
      t, i :| t == 0 && 0 <= i < |txs[0].inputs| && txs[0].inputs[i].previous == op;
    }
  }

  /** Every transaction is accepted against the set before its block. */
  ghost predicate BlocksAccepted(c: Checks, utxos: Utxos, blocks: seq<seq<Transaction>>)
    decreases blocks
  {
    blocks != [] ==>
      && (forall i | 0 <= i < |blocks[0]| :: Accepted(c, utxos, blocks[0][i]))
      && BlocksAccepted(c, SpendAll(utxos, blocks[0]), blocks[1..])
  }

  /**
   * Over any run of accepted blocks, an entry leaves the set by an input that names it, and that input is labelled
   * or signed for the entry as it was before the block.
   */
  lemma {:induction false} SpentIsSigned(c: Checks, utxos: Utxos, blocks: seq<seq<Transaction>>, op: OutPoint)
      returns (b: nat, t: nat, i: nat)
    requires BlocksAccepted(c, utxos, blocks) && op in utxos && op !in SpendAll(utxos, Concat(blocks))
    ensures b < |blocks| && t < |blocks[b]| && i < |blocks[b][t].inputs|
    ensures var before := SpendAll(utxos, Concat(blocks[..b]));
            var input := blocks[b][t].inputs[i];
            && input.previous == op && op in before
            && (Labelled(input) || SignedFor(c, before[op], blocks[b][t], input))
    decreases blocks
  {
    hide SpendAll, Accepted, Labelled, SignedFor;
    NothingSpent(utxos);
    SpendAllConcat(utxos, blocks[0], Concat(blocks[1..]));
    var after := SpendAll(utxos, blocks[0]);
    if op in after {
      b, t, i := SpentIsSigned(c, after, blocks[1..], op);
      assert blocks[..b + 1][1..] == blocks[1..][..b] && blocks[..b + 1][0] == blocks[0];
      SpendAllConcat(utxos, blocks[0], Concat(blocks[1..][..b]));
      b := b + 1;
    } else {
      b := 0;
      t, i := LeavesByInput(utxos, blocks[0], op);
      AcceptedIff(c, utxos, blocks[0][t]);
      assert blocks[..0] == [];
    }
  }

  lemma NothingSpent(utxos: Utxos)
    ensures SpendAll(utxos, Concat([])) == utxos
  {
  }

  // ----- a block -----

  /** The entries of a block: a transaction with a Coinbase label is a reward, any other is ordinary. */
  function Marked(txs: seq<Transaction>): (run: seq<Entry>)
    ensures Transactions(run) == txs
  {
    if txs == [] then [] else [Entry(txs[0], !Unlabelled(txs[0]))] + Marked(txs[1..])
  }

  /** No two transactions without a label spend the same outpoint. */
  ghost predicate DisjointInputs(txs: seq<Transaction>) {
    forall i, j | 0 <= i < j < |txs| && Unlabelled(txs[i]) && Unlabelled(txs[j]) :: Inputs(txs[i]) !! Inputs(txs[j])
  }

  /** Every transaction conforms on its own, and they have different new identifiers, which none of them spends. */
  ghost predicate ConformingAlone(utxos: Utxos, txs: seq<Transaction>) {
    && (forall i | 0 <= i < |txs| :: Fresh(utxos, txs[i].id))
    && (forall i | 0 <= i < |txs| :: if Unlabelled(txs[i]) then Ordinary(utxos, txs[i]) else NamesNothing(utxos, txs[i], txs))
    && (forall i, j | 0 <= i < j < |txs| :: txs[i].id != txs[j].id)
  }

  /** The inputs name neither an entry of the set nor a transaction of the block. */
  ghost predicate NamesNothing(utxos: Utxos, tx: Transaction, txs: seq<Transaction>) {
    forall op | op in Inputs(tx) :: op !in utxos && forall i | 0 <= i < |txs| :: op.txid != txs[i].id
  }

  lemma InputsOf(tx: Transaction, op: OutPoint)
    ensures op in Inputs(tx) <==> exists i | 0 <= i < |tx.inputs| :: tx.inputs[i].previous == op
  {
  }

  lemma OrdinaryInput(utxos: Utxos, tx: Transaction, op: OutPoint)
    requires Ordinary(utxos, tx) && op in Inputs(tx)
    ensures op in utxos
  {
    InputsOf(tx, op);
    var i :| 0 <= i < |tx.inputs| && tx.inputs[i].previous == op;
    assert tx.inputs[i] in tx.inputs;
  }

  lemma {:induction false} InputSumSame(utxos: Utxos, after: Utxos, inputs: seq<TxInput>)
    requires forall input | input in inputs ::
               input.previous in utxos && input.previous in after && after[input.previous] == utxos[input.previous]
    ensures InputSum(after, inputs) == InputSum(utxos, inputs)
  {
    if inputs != [] {
      InputSumSame(utxos, after, inputs[..|inputs| - 1]);
    }
  }

  /** A transaction with other inputs stays ordinary when one is applied before it. */
  lemma OrdinaryAfter(utxos: Utxos, first: Transaction, tx: Transaction)
    requires Ordinary(utxos, tx) && Fresh(utxos, first.id) && Inputs(first) !! Inputs(tx)
    ensures Ordinary(Spend(utxos, first), tx)
  {
    var after := Spend(utxos, first);
    forall input | input in tx.inputs
      ensures input.previous in utxos && input.previous in after && after[input.previous] == utxos[input.previous]
    {
      var i :| 0 <= i < |tx.inputs| && tx.inputs[i] == input;
      assert input.previous in Inputs(tx);
    }
    InputSumSame(utxos, after, tx.inputs);
  }

  lemma FreshAfter(utxos: Utxos, first: Transaction, id: TxId)
    requires Fresh(utxos, id) && first.id != id
    ensures Fresh(Spend(utxos, first), id)
  {
  }

  lemma NamesNothingAfter(utxos: Utxos, first: Transaction, tx: Transaction, txs: seq<Transaction>)
    requires txs != [] && txs[0] == first && NamesNothing(utxos, tx, txs)
    ensures NamesNothing(Spend(utxos, first), tx, txs[1..])
  {
  }

  /** What is gone and not created again stays gone, and an ordinary transaction that names it does not conform. */
  lemma {:induction false} MissingInput(utxos: Utxos, txs: seq<Transaction>, j: nat, op: OutPoint)
    requires j < |txs| && Unlabelled(txs[j]) && op in Inputs(txs[j]) && op !in utxos
    requires forall i | 0 <= i < |txs| :: txs[i].id != op.txid
    ensures !Conforming(utxos, Marked(txs))
    decreases txs
  {
    hide Ordinary, Reward, Inputs, Unlabelled, Fresh;
    assert Marked(txs)[0] == Entry(txs[0], !Unlabelled(txs[0])) && Marked(txs)[1..] == Marked(txs[1..]);
    if j == 0 {
      if Ordinary(utxos, txs[0]) {
        OrdinaryInput(utxos, txs[0], op);
      }
    } else {
      StaysMissing(utxos, txs[0], op);
      MissingInput(Spend(utxos, txs[0]), txs[1..], j - 1, op);
    }
  }

  lemma StaysMissing(utxos: Utxos, tx: Transaction, op: OutPoint)
    requires op !in utxos && tx.id != op.txid
    ensures op !in Spend(utxos, tx)
  {
  }

  /** One after the other, transactions that conform on their own do so exactly when no two ordinary ones share an input. */
  lemma {:induction false} BlockConformsIff(utxos: Utxos, txs: seq<Transaction>)
    requires ConformingAlone(utxos, txs)
    ensures Conforming(utxos, Marked(txs)) <==> DisjointInputs(txs)
    decreases txs
  {
    hide Inputs, Ordinary, Fresh, Spend, NamesNothing, Unlabelled, ConformingAlone, DisjointInputs, Reward;
    if txs == [] {
      assert DisjointInputs(txs) by { NoneShared(txs); }
    } else {
      var after := Spend(utxos, txs[0]);
      assert Marked(txs)[0] == Entry(txs[0], !Unlabelled(txs[0])) && Marked(txs)[1..] == Marked(txs[1..]);
      FirstConforms(utxos, txs);
      if j: nat :| 1 <= j < |txs| && Unlabelled(txs[0]) && Unlabelled(txs[j]) && !(Inputs(txs[0]) !! Inputs(txs[j])) {
        var op :| op in Inputs(txs[0]) && op in Inputs(txs[j]);
        SharedInput(utxos, txs, j, op);
      } else {
        AloneAfter(utxos, txs);
        BlockConformsIff(after, txs[1..]);
        DisjointTail(txs);
      }
    }
  }

  lemma NoneShared(txs: seq<Transaction>)
    requires txs == []
    ensures DisjointInputs(txs)
  {
  }

  lemma FirstConforms(utxos: Utxos, txs: seq<Transaction>)
    requires ConformingAlone(utxos, txs) && txs != []
    ensures Fresh(utxos, txs[0].id) && if Unlabelled(txs[0]) then Ordinary(utxos, txs[0]) else Reward(utxos, txs[0])
  {
    hide Inputs, Ordinary, Fresh, Unlabelled;
  }

  lemma AloneAfter(utxos: Utxos, txs: seq<Transaction>)
    requires ConformingAlone(utxos, txs) && txs != []
    requires forall j | 1 <= j < |txs| && Unlabelled(txs[0]) && Unlabelled(txs[j]) :: Inputs(txs[0]) !! Inputs(txs[j])
    ensures ConformingAlone(Spend(utxos, txs[0]), txs[1..])
  {
    hide Inputs, Ordinary, Fresh, Unlabelled, Spend, NamesNothing;
    var after := Spend(utxos, txs[0]);
    forall j | 1 <= j < |txs|
      ensures Fresh(after, txs[j].id)
      ensures if Unlabelled(txs[j]) then Ordinary(after, txs[j]) else NamesNothing(after, txs[j], txs[1..])
    {
      FreshAfter(utxos, txs[0], txs[j].id);
      if Unlabelled(txs[j]) {
        if !Unlabelled(txs[0]) {
          LabelledApart(utxos, txs, txs[j]);
        }
        OrdinaryAfter(utxos, txs[0], txs[j]);
      } else {
        NamesNothingAfter(utxos, txs[0], txs[j], txs);
      }
    }
  }

  /** A reward that names nothing shares no input with an ordinary transaction. */
  lemma LabelledApart(utxos: Utxos, txs: seq<Transaction>, tx: Transaction)
    requires txs != [] && NamesNothing(utxos, txs[0], txs) && Ordinary(utxos, tx)
    ensures Inputs(txs[0]) !! Inputs(tx)
  {
    hide Inputs, Ordinary;
    forall op | op in Inputs(tx)
      ensures op !in Inputs(txs[0])
    {
      OrdinaryInput(utxos, tx, op);
    }
  }

  lemma DisjointTail(txs: seq<Transaction>)
    requires txs != []
    requires forall j | 1 <= j < |txs| && Unlabelled(txs[0]) && Unlabelled(txs[j]) :: Inputs(txs[0]) !! Inputs(txs[j])
    ensures DisjointInputs(txs) <==> DisjointInputs(txs[1..])
  {
    hide Inputs, Unlabelled;
    if DisjointInputs(txs[1..]) {
      forall i, j | 0 <= i < j < |txs| && Unlabelled(txs[i]) && Unlabelled(txs[j])
        ensures Inputs(txs[i]) !! Inputs(txs[j])
      {
        if i > 0 {
          assert Inputs(txs[1..][i - 1]) !! Inputs(txs[1..][j - 1]);
        }
      }
    }
    if DisjointInputs(txs) {
      forall i, j | 0 <= i < j < |txs| - 1 && Unlabelled(txs[1..][i]) && Unlabelled(txs[1..][j])
        ensures Inputs(txs[1..][i]) !! Inputs(txs[1..][j])
      {
        assert Inputs(txs[i + 1]) !! Inputs(txs[j + 1]);
      }
    }
  }

  lemma SharedInput(utxos: Utxos, txs: seq<Transaction>, j: nat, op: OutPoint)
    requires ConformingAlone(utxos, txs) && 1 <= j < |txs| && Unlabelled(txs[0]) && Unlabelled(txs[j])
    requires op in Inputs(txs[0]) && op in Inputs(txs[j])
    ensures !Conforming(utxos, Marked(txs)) && !DisjointInputs(txs)
  {
    hide Inputs, Ordinary, Fresh, Unlabelled, Reward, NamesNothing;
    OrdinaryInput(utxos, txs[0], op);
    NewIdentifiers(utxos, txs, op);
    SpentIsGone(utxos, txs[0], op);
    MissingInput(Spend(utxos, txs[0]), txs[1..], j - 1, op);
    assert Marked(txs)[1..] == Marked(txs[1..]);
  }

  lemma NewIdentifiers(utxos: Utxos, txs: seq<Transaction>, op: OutPoint)
    requires ConformingAlone(utxos, txs) && op in utxos
    ensures forall k | 0 <= k < |txs| :: txs[k].id != op.txid
  {
    hide Ordinary, NamesNothing, Unlabelled;
    assert forall k | 0 <= k < |txs| :: Fresh(utxos, txs[k].id);
  }

  lemma SpentIsGone(utxos: Utxos, tx: Transaction, op: OutPoint)
    requires op in Inputs(tx)
    ensures op !in Spend(utxos, tx)
  {
  }

  /**
   * A block as it passes verification against the set before it: accepted transactions with new identifiers; those
   * without a label name no outpoint twice and do not wrap 64 bits, those with one name nothing.
   */
  ghost predicate BlockPasses(c: Checks, utxos: Utxos, txs: seq<Transaction>) {
    && Total(utxos) < UINT64
    && (forall i | 0 <= i < |txs| :: Accepted(c, utxos, txs[i]) && Fresh(utxos, txs[i].id))
    && (forall i | 0 <= i < |txs| ::
          if Unlabelled(txs[i]) then DistinctInputs(txs[i]) && OutputSum(txs[i].outputs) < UINT64
          else NamesNothing(utxos, txs[i], txs))
    && (forall i, j | 0 <= i < j < |txs| :: txs[i].id != txs[j].id)
  }

  /**
   * Every transaction of a block is checked against the set before the block, so such a block conforms exactly when
   * no outpoint is spent by two of its transactions without a label.
   */
  lemma AcceptedBlockConformsIff(c: Checks, utxos: Utxos, txs: seq<Transaction>)
    requires BlockPasses(c, utxos, txs)
    ensures Conforming(utxos, Marked(txs)) <==> DisjointInputs(txs)
  {
    hide Accepted, Unlabelled, DistinctInputs, Ordinary, Fresh, Total, OutputSum, NamesNothing;
    forall i | 0 <= i < |txs| && Unlabelled(txs[i])
      ensures Ordinary(utxos, txs[i])
    {
      AcceptedOrdinaryIff(c, utxos, txs[i]);
    }
    BlockConformsIff(utxos, txs);
  }

  // ----- runs of blocks -----

  /** Every block passes where it is applied. */
  ghost predicate BlocksPass(c: Checks, utxos: Utxos, blocks: seq<seq<Transaction>>)
    decreases blocks
  {
    blocks == [] || (BlockPasses(c, utxos, blocks[0]) && BlocksPass(c, SpendAll(utxos, blocks[0]), blocks[1..]))
  }

  lemma {:induction false} MarkedConcat(a: seq<Transaction>, b: seq<Transaction>)
    ensures Marked(a + b) == Marked(a) + Marked(b)
    decreases a
  {
    hide Unlabelled;
    if a == [] {
      assert a + b == b && Marked(a) == [];
    } else {
      assert (a + b)[1..] == a[1..] + b;
      MarkedConcat(a[1..], b);
      assert Marked(a + b) == [Entry(a[0], !Unlabelled(a[0]))] + (Marked(a[1..]) + Marked(b));
    }
  }

  lemma {:induction false} ConformingConcat(utxos: Utxos, a: seq<Entry>, b: seq<Entry>)
    ensures Conforming(utxos, a + b) <==> Conforming(utxos, a) && Conforming(SpendAll(utxos, Transactions(a)), b)
    decreases a
  {
    hide Fresh, Reward, Ordinary, Spend;
    if a == [] {
      assert a + b == b;
    } else {
      assert (a + b)[1..] == a[1..] + b && (a + b)[0] == a[0];
      ConformingConcat(Spend(utxos, a[0].tx), a[1..], b);
      assert Transactions(a)[1..] == Transactions(a[1..]);
    }
  }

  /** A run of blocks that pass conforms exactly when in each of them no outpoint is spent twice. */
  lemma {:induction false} BlocksConformIff(c: Checks, utxos: Utxos, blocks: seq<seq<Transaction>>)
    requires BlocksPass(c, utxos, blocks)
    ensures Conforming(utxos, Marked(Concat(blocks))) <==> forall i | 0 <= i < |blocks| :: DisjointInputs(blocks[i])
    decreases blocks
  {
    hide BlockPasses, DisjointInputs, Conforming, SpendAll, Marked;
    if blocks == [] {
      assert Concat(blocks) == [];
      NothingConforms(utxos);
    } else {
      AcceptedBlockConformsIff(c, utxos, blocks[0]);
      BlocksConformIff(c, SpendAll(utxos, blocks[0]), blocks[1..]);
      MarkedConcat(blocks[0], Concat(blocks[1..]));
      ConformingConcat(utxos, Marked(blocks[0]), Marked(Concat(blocks[1..])));
      assert forall i | 1 <= i < |blocks| :: blocks[i] == blocks[1..][i - 1];
    }
  }

  /** New identifiers leave the entries of the set as they are. */
  lemma {:induction false} EntryKept(utxos: Utxos, txs: seq<Transaction>, op: OutPoint)
    requires op in SpendAll(utxos, txs) && forall i | 0 <= i < |txs| :: txs[i].id != op.txid
    ensures op in utxos && SpendAll(utxos, txs)[op] == utxos[op]
    decreases txs
  {
    if txs != [] {
      EntryKept(Spend(utxos, txs[0]), txs[1..], op);
    }
  }

  /** Over any run of blocks that pass, nobody spends an entry without a key with the hash in its script that signs. */
  lemma {:induction false} SpentByOwner(c: Checks, utxos: Utxos, blocks: seq<seq<Transaction>>, op: OutPoint)
      returns (b: nat, t: nat, i: nat)
    requires BlocksPass(c, utxos, blocks) && op in utxos && op !in SpendAll(utxos, Concat(blocks))
    ensures b < |blocks| && t < |blocks[b]| && i < |blocks[b][t].inputs|
    ensures var input := blocks[b][t].inputs[i];
            input.previous == op && !Labelled(input) && SignedFor(c, utxos[op], blocks[b][t], input)
    decreases blocks
  {
    hide SpendAll, BlockPasses, Labelled, SignedFor;
    NothingSpent(utxos);
    SpendAllConcat(utxos, blocks[0], Concat(blocks[1..]));
    var after := SpendAll(utxos, blocks[0]);
    if op in after {
      NewInBlock(c, utxos, blocks[0], op);
      EntryKept(utxos, blocks[0], op);
      b, t, i := SpentByOwner(c, after, blocks[1..], op);
      b := b + 1;
    } else {
      b := 0;
      t, i := LeavesByInput(utxos, blocks[0], op);
      PassedInputSigned(c, utxos, blocks[0], t, i);
    }
  }

  lemma NewInBlock(c: Checks, utxos: Utxos, txs: seq<Transaction>, op: OutPoint)
    requires BlockPasses(c, utxos, txs) && op in utxos
    ensures forall i | 0 <= i < |txs| :: txs[i].id != op.txid
  {
    hide Accepted, Unlabelled, DistinctInputs, Total, OutputSum, NamesNothing;
  }

  /** In a block that passes, an input that names an entry is signed for it. */
  lemma PassedInputSigned(c: Checks, utxos: Utxos, txs: seq<Transaction>, t: nat, i: nat)
    requires BlockPasses(c, utxos, txs) && t < |txs| && i < |txs[t].inputs| && txs[t].inputs[i].previous in utxos
    ensures !Labelled(txs[t].inputs[i]) && SignedFor(c, utxos[txs[t].inputs[i].previous], txs[t], txs[t].inputs[i])
  {
    InputsOf(txs[t], txs[t].inputs[i].previous);
    assert !NamesNothing(utxos, txs[t], txs);
    assert Unlabelled(txs[t]) && !IsCoinbase(txs[t].inputs[i]);
    assert InputPasses(c, utxos, txs[t], txs[t].inputs[i]);
  }

  lemma NothingConforms(utxos: Utxos)
    ensures Conforming(utxos, Marked([]))
  {
  }

  /** The set after the genesis block. */
  function GenesisSet(ids: seq<TxId>, timestamp: int, script: Script): Utxos
    requires |ids| == 5
  {
    SpendAll(map[], Transactions(GenesisRun(ids, timestamp, script, 0)))
  }

  /**
   * From the genesis on, over any run of blocks that pass verification and spend no outpoint twice within a block,
   * the set holds 300 plus what the labelled transactions create, less what the others leave unclaimed.
   */
  lemma SupplyOfAcceptedBlocks(c: Checks, ids: seq<TxId>, timestamp: int, script: Script, blocks: seq<seq<Transaction>>)
    requires |ids| == 5 && COINBASE.txid !in ids && forall j, k | 0 <= j < k < 5 :: ids[j] != ids[k]
    requires BlocksPass(c, GenesisSet(ids, timestamp, script), blocks)
    requires forall i | 0 <= i < |blocks| :: DisjointInputs(blocks[i])
    ensures var start, run := GenesisSet(ids, timestamp, script), Marked(Concat(blocks));
            && Conforming(start, run)
            && Total(SpendAll(start, Concat(blocks))) + Burned(start, run) == 300 + Created(run)
  {
    hide BlocksPass, DisjointInputs, Conforming, GenesisRun, Total, Marked;
    BlocksConformIff(c, GenesisSet(ids, timestamp, script), blocks);
    SupplyFromGenesis(ids, timestamp, script, Marked(Concat(blocks)));
  }

  /** An outpoint of value v spent by two transactions of a block is accepted twice, and the supply grows by v. */
  lemma SharedInputMints(c: Checks, utxos: Utxos, a: Transaction, b: Transaction, input: TxInput, to: Script)
    requires a.inputs == [input] == b.inputs && a.id != "" && b.id != "" && a.id != b.id
    requires Fresh(utxos, a.id) && Fresh(utxos, b.id) && !IsCoinbase(input)
    requires InputPasses(c, utxos, a, input) && InputPasses(c, utxos, b, input)
    requires a.outputs == [TxOutput(utxos[input.previous].value, to)] == b.outputs
    ensures Accepted(c, utxos, a) && Accepted(c, utxos, b) && Unlabelled(a) && Unlabelled(b)
    ensures Total(SpendAll(utxos, [a, b])) == Total(utxos) + utxos[input.previous].value
  {
    var v := utxos[input.previous].value;
    assert [input][..0] == [];
    assert ValueIn(utxos, [input]) == v;
    OneOutput(v, to);
    var after := Spend(utxos, a);
    assert Inputs(a) == {input.previous} == Inputs(b);
    assert input.previous !in after && input.previous.txid != b.id;
    SpendsOne(utxos, a, input.previous);
    FreshAfter(utxos, a, b.id);
    hide ValueIn, OutputSum, Total, IsCoinbase, InputPasses, Spend, Inputs;
    assert Reward(after, b);
    RewardTotal(after, b);
    assert [a, b][1..] == [b] && [b][1..] == [];
    assert SpendAll(utxos, [a, b]) == SpendAll(after, [b]) == SpendAll(Spend(after, b), []) == Spend(after, b);
  }

  lemma OneOutput(value: nat, to: Script)
    ensures OutputSum([TxOutput(value, to)]) == value
  {
    assert [TxOutput(value, to)][..0] == [];
  }

  lemma SpendsOne(utxos: Utxos, tx: Transaction, op: OutPoint)
    requires |tx.inputs| == 1 && tx.inputs[0].previous == op && op in utxos && Fresh(utxos, tx.id)
    ensures Total(Spend(utxos, tx)) + utxos[op].value == Total(utxos) + OutputSum(tx.outputs)
  {
    hide Total, OutputSum;
    assert Inputs(tx) == {op};
    TotalPlusOutputs(utxos, tx, |tx.outputs|);
    assert tx.outputs[..|tx.outputs|] == tx.outputs;
    TotalRemove(utxos + Outputs(tx), op);
  }

  // ----- committed blocks -----

  lemma CoinbaseWords(words: seq<string>)
    requires words == ["Coinbase", "Coinbase"]
    ensures |Spaced(words)| > 0 && Spaced(words)[..|Spaced(words)| - 1] == "Coinbase Coinbase"
    ensures forall w | w in words :: IsWord(w)
  {
    assert words[1..] == ["Coinbase"] && ["Coinbase"][1..] == [];
    assert Spaced(words) == "Coinbase" + " " + ("Coinbase" + " " + "");
  }

  /** The reward a leader or a miner adds carries the label. */
  lemma RewardLabelled(tx: Transaction)
    requires |tx.inputs| == 1 && tx.inputs[0] == TxInput(COINBASE, "Coinbase Coinbase")
    ensures !Unlabelled(tx)
  {
    var words := ["Coinbase", "Coinbase"];
    CoinbaseWords(words);
    ReadSpaced(words);
    assert IsCoinbase(tx.inputs[0]);
  }

  /**
   * The transactions of a block committed from an exact mempool, followed by labelled rewards, spend no outpoint
   * twice.
   */
  lemma CommittedDisjoint(pool: Pool, txs: seq<Transaction>, rewards: seq<Transaction>)
    requires Exact(pool) && BlockchainModule.Lists(txs, pool.pending)
    requires forall i | 0 <= i < |rewards| :: !Unlabelled(rewards[i])
    ensures DisjointInputs(txs + rewards)
  {
    hide Inputs, Unlabelled;
    forall i, j | 0 <= i < j < |txs + rewards| && Unlabelled((txs + rewards)[i]) && Unlabelled((txs + rewards)[j])
      ensures Inputs((txs + rewards)[i]) !! Inputs((txs + rewards)[j])
    {
      assert j < |txs|;
      PendingDisjoint(pool, txs[i].id, txs[j].id);
    }
  }
}
