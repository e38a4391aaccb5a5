/** The wallet: its balance, the coins it picks and the transactions it builds. */
module WalletModule {
  import opened Ledger
  import opened MachineWords
  import opened WalletIndex
  import opened CoinSelection
  import opened MempoolState
  import Supply

  class Wallet {
    const publicKeyHash: string
    var myUTXOs: Utxos

    constructor (publicKeyHash: string)
      ensures this.publicKeyHash == publicKeyHash && myUTXOs == map[]
    {
      this.publicKeyHash := publicKeyHash;
      myUTXOs := map[];
    }

    method RemoveUTXO(outpoint: OutPoint)
      modifies this
      ensures myUTXOs == old(myUTXOs) - {outpoint}
    {
      if outpoint in myUTXOs {
        myUTXOs := myUTXOs - {outpoint};
      }
    }

    method RemoveInputs(tx: Transaction)
      modifies this
      ensures myUTXOs == old(myUTXOs) - Inputs(tx)
    {
      for i := 0 to |tx.inputs|
        invariant myUTXOs == old(myUTXOs) - InputsUpTo(tx, i)
      {
        RemoveUTXO(tx.inputs[i].previous);
        InputsStep(tx, i);
      }
    }

    method InsertOwnOutputs(tx: Transaction)
      modifies this
      ensures myUTXOs == OwnOutputs(tx, publicKeyHash) + old(myUTXOs)
    {
      hide OwnOutputsUpTo;
      NoOwnOutputs(myUTXOs, tx, publicKeyHash);
      for i := 0 to |tx.outputs|
        invariant myUTXOs == OwnOutputsUpTo(tx, i, publicKeyHash) + old(myUTXOs)
      {
        InsertOwnStep(old(myUTXOs), tx, i, publicKeyHash);
        if PaysTo(tx, i, publicKeyHash) {
          var outpoint := OutPoint(tx.id, i);
          if outpoint !in myUTXOs {
            myUTXOs := myUTXOs[outpoint := OutputData(tx, i)];
          }
        }
      }
    }

    method UpdateUTXOsWithTransaction(tx: Transaction)
      modifies this
      ensures myUTXOs == Update(old(myUTXOs), tx, publicKeyHash)
    {
      RemoveInputs(tx);
      InsertOwnOutputs(tx);
    }

    method UpdateUTXOsFromNewBlock(transactions: seq<Transaction>)
      modifies this
      ensures myUTXOs == UpdateAll(old(myUTXOs), transactions, publicKeyHash)
    {
      for t := 0 to |transactions|
        invariant UpdateAll(myUTXOs, transactions[t..], publicKeyHash)
               == UpdateAll(old(myUTXOs), transactions, publicKeyHash)
      {
        UpdateUTXOsWithTransaction(transactions[t]);
        assert transactions[t..][1..] == transactions[t + 1..];
      }
    }

    /** The 64-bit sum of the values, whatever the order of the map. */
    method GetBalance() returns (balance: nat)
      ensures balance == Total(myUTXOs) % UINT64
    {
      hide Total;
      TotalEmpty();
      balance := 0;
      ghost var counted: nat := 0;
      var rest := myUTXOs;
      while rest != map[]
        invariant counted + Total(rest) == Total(myUTXOs)
        invariant balance == counted % UINT64
        decreases rest.Keys
      {
        var op :| op in rest;
        TotalRemove(rest, op);
        WrapStep(counted, rest[op].value);
        counted := counted + rest[op].value;
        balance := (balance + rest[op].value) % UINT64;
        rest := rest - {op};
      }
    }

    /** The entries no pending transaction reserves. */
    ghost function Free(mempool: Mempool): Utxos
      reads this, mempool
    {
      map op | op in myUTXOs && op !in mempool.State().reserved :: myUTXOs[op]
    }

    /** Every unreserved entry with its value, each once, in the order the map is walked. */
    method Candidates(mempool: Mempool) returns (coins: seq<Coin>)
      ensures Lists(coins, Free(mempool)) && Elements(Outpoints(coins)) == Free(mempool).Keys
    {
      coins := [];
      var rest := myUTXOs.Keys;
      while rest != {}
        invariant rest <= myUTXOs.Keys
        invariant Lists(coins, Free(mempool))
        invariant Elements(Outpoints(coins)) == Free(mempool).Keys - rest
        decreases rest
      {
        var op :| op in rest;
        if !mempool.IsUTXOReserved(op) {
          ListsExtend(coins, Free(mempool), op);
          coins := coins + [Coin(op, myUTXOs[op].value)];
        }
        rest := rest - {op};
      }
    }

    /** The values are 64-bit, as the source declares them. */
    ghost predicate Bounded()
      reads this
    {
      forall op | op in myUTXOs :: myUTXOs[op].value < UINT64
    }

    /**
     * Smallest coins first until the 64-bit sum reaches the amount; an empty pair when it never does. That is the
     * outcome asked for exactly when the selections of the amount are worth less than 2^64.
     */
    method SelectUTXOs(mempool: Mempool, amount: nat) returns (selected: seq<OutPoint>, total: nat)
      requires amount < UINT64 && Bounded()
      ensures Greedy(Free(mempool), amount, selected, total)
      ensures Outcome(Free(mempool), amount, selected, total) <==> !Overflows(Free(mempool), amount)
      ensures Overflows(Free(mempool), amount) ==>
                (selected == [] && total == 0) || Worth(Free(mempool), Elements(selected)) >= UINT64
    {
      hide Total, Worth, Elements, Free, Selection, Outcome, Overflows, Greedy;
      var coins := Candidates(mempool);
      var utxos := SortByValue(coins);
      var k, accumulated := TakeSmallest(utxos, amount);
      ghost var free := Free(mempool);
      ListsPermutation(coins, utxos, free);
      FreeBounded(mempool);
      if accumulated < amount {
        selected, total := [], 0;
      } else {
        selected, total := Outpoints(utxos)[..k], accumulated;
      }
      GreedyOutcome(utxos, free, amount, k, accumulated, selected, total);
    }

    lemma FreeCoins(mempool: Mempool)
      ensures Free(mempool).Keys == myUTXOs.Keys - mempool.State().reserved.Keys
    {
    }

    lemma FreeBounded(mempool: Mempool)
      requires Bounded()
      ensures forall op | op in Free(mempool) :: Free(mempool)[op].value < UINT64
    {
    }

    /**
     * A transaction paying an amount out of unreserved coins of the wallet, with the change to the wallet itself.
     * The identifier, the time and the signature are made elsewhere; signing changes neither side.
     */
    method CreateTransaction(mempool: Mempool, toHash: string, amount: nat,
                             id: TxId, timestamp: int, scriptSig: string)
        returns (tx: Transaction)
      requires amount < UINT64 && Bounded()
      ensures tx.id == id && forall input | input in tx.inputs :: input.scriptSig == scriptSig
      ensures Inputs(tx) <= myUTXOs.Keys && Inputs(tx) !! mempool.State().reserved.Keys
      ensures Payment(Free(mempool), tx, toHash, amount, publicKeyHash) <==>
                !Overflows(Free(mempool), amount) && !NothingToPay(Free(mempool), amount)
      ensures !Overflows(Free(mempool), amount) && NothingToPay(Free(mempool), amount) ==>
                tx.inputs == [] && tx.outputs == []
      ensures exists selected, total :: Greedy(Free(mempool), amount, selected, total)
                && BuiltFrom(tx, selected, total, toHash, amount, publicKeyHash)
    {
      hide Total, Worth, Elements, Free, Distinct, Selection, Payment, Greedy, NothingToPay, Overflows, Outcome;
      var selected, accumulated := SelectUTXOs(mempool, amount);
      ghost var free := Free(mempool);
      if accumulated == 0 {
        NoPayment(free, selected, toHash, amount, publicKeyHash, Transaction(id, timestamp, [], []));
        assert BuiltFrom(Transaction(id, timestamp, [], []), selected, 0, toHash, amount, publicKeyHash);
        SelectedInputs(free, Transaction(id, timestamp, [], []), []);
        return Transaction(id, timestamp, [], []);
      }
      GreedyCovers(free, amount, selected, accumulated);
      var inputs := seq(|selected|, i requires 0 <= i < |selected| => TxInput(selected[i], scriptSig));
      var outputs := [TxOutput(amount, "10" + toHash)];
      if accumulated > amount {
        outputs := outputs + [TxOutput(accumulated - amount, "10" + publicKeyHash)];
      }
      tx := Transaction(id, timestamp, inputs, outputs);
      PaymentBuiltIff(free, tx, selected, accumulated, toHash, amount, publicKeyHash);
      SelectedInputs(free, tx, selected);
      FreeCoins(mempool);
      assert BuiltFrom(tx, selected, accumulated, toHash, amount, publicKeyHash);
    }
  }

  /** Empty for a total of nothing; otherwise the selected coins, the amount to the payee and the rest to the payer. */
  predicate BuiltFrom(tx: Transaction, selected: seq<OutPoint>, total: nat, toHash: string, amount: nat, ownHash: string) {
    if total == 0 then tx.inputs == [] && tx.outputs == []
    else
      && |tx.inputs| == |selected| && (forall i | 0 <= i < |selected| :: tx.inputs[i].previous == selected[i])
      && total >= amount
      && tx.outputs == [TxOutput(amount, "10" + toHash)]
                       + if total > amount then [TxOutput(total - amount, "10" + ownHash)] else []
  }

  // ----- 64-bit sums -----

  /** Some selection of the amount is worth 2^64 or more; then all of them are. */
  ghost predicate Overflows(free: Utxos, amount: nat) {
    exists selected, total: nat :: Selection(free, amount, selected, total) && total >= UINT64
  }

  /** The free coins are worth less than the amount, or the amount is nothing and nothing is the smallest coin. */
  ghost predicate NothingToPay(free: Utxos, amount: nat) {
    Total(free) < amount || (amount == 0 && (free == map[] || exists op | op in free :: free[op].value == 0))
  }

  /** The coins of a map in some ascending order. */
  ghost predicate Sorted(coins: seq<Coin>, free: Utxos) {
    Lists(coins, free) && Ascending(coins) && Elements(Outpoints(coins)) == free.Keys
  }

  /** The loop over ascending coins stops at the first nonempty prefix whose 64-bit sum reaches the amount. */
  predicate Stops(coins: seq<Coin>, amount: nat, k: nat) {
    && k <= |coins| && (k == 0 ==> coins == [])
    && (forall j | 0 < j < k :: PrefixSum(coins, j) % UINT64 < amount)
    && (PrefixSum(coins, k) % UINT64 < amount ==> k == |coins|)
  }

  /** What the source returns, for some order of equal coins. */
  ghost predicate Greedy(free: Utxos, amount: nat, selected: seq<OutPoint>, total: nat) {
    exists coins, k ::
      Sorted(coins, free) && Stops(coins, amount, k) && Returned(coins, amount, k, selected, total)
  }

  predicate Returned(coins: seq<Coin>, amount: nat, k: nat, selected: seq<OutPoint>, total: nat)
    requires k <= |coins|
  {
    if PrefixSum(coins, k) % UINT64 < amount then selected == [] && total == 0
    else selected == Outpoints(coins)[..k] && total == PrefixSum(coins, k) % UINT64
  }

  /** The first nonempty prefix that really covers the amount. */
  function FirstCover(coins: seq<Coin>, amount: nat, k: nat): (c: nat)
    requires 0 < k <= |coins| && PrefixSum(coins, |coins|) >= amount
    requires forall j | 0 < j < k :: PrefixSum(coins, j) < amount
    ensures 0 < c <= |coins| && PrefixSum(coins, c) >= amount && forall j | 0 < j < c :: PrefixSum(coins, j) < amount
    decreases |coins| - k
  {
    if PrefixSum(coins, k) >= amount then k else FirstCover(coins, amount, k + 1)
  }

  lemma WrappedSum(x: nat)
    requires UINT64 <= x < 2 * UINT64
    ensures x % UINT64 == x - UINT64
  {
  }

  /** Without a wrap the loop stops at the first covering prefix, with one it goes on past it. */
  lemma StopsAt(coins: seq<Coin>, amount: nat, k: nat, c: nat)
    requires Stops(coins, amount, k) && amount < UINT64 && 0 < c <= |coins| && PrefixSum(coins, c) >= amount
    requires forall j | 0 < j < c :: PrefixSum(coins, j) < amount
    requires forall i | 0 <= i < |coins| :: coins[i].value < UINT64
    ensures if PrefixSum(coins, c) < UINT64 then k == c && PrefixSum(coins, k) % UINT64 == PrefixSum(coins, k) >= amount
            else PrefixSum(coins, k) % UINT64 >= amount ==> k > c
    ensures k > 0
  {
    forall j | 0 < j < c
      ensures PrefixSum(coins, j) % UINT64 < amount
    {
      FitsWord(PrefixSum(coins, j));
    }
    if PrefixSum(coins, c) < UINT64 {
      FitsWord(PrefixSum(coins, c));
    } else {
      assert PrefixSum(coins, c) == PrefixSum(coins, c - 1) + coins[c - 1].value;
      assert PrefixSum(coins, 0) == 0;
      WrappedSum(PrefixSum(coins, c));
    }
  }

  lemma SelectionWithinTotal(free: Utxos, amount: nat, selected: seq<OutPoint>, total: nat)
    requires Selection(free, amount, selected, total)
    ensures amount <= total <= Total(free)
  {
    WorthMonotone(free, Elements(selected), free.Keys);
    assert Pick(free, free.Keys) == free;
  }

  lemma {:induction false} WorthMonotone(free: Utxos, a: set<OutPoint>, b: set<OutPoint>)
    requires a <= b <= free.Keys
    ensures Worth(free, a) <= Worth(free, b)
    decreases |b - a|
  {
    hide Worth;
    if a != b {
      var op :| op in b && op !in a;
      WorthRemove(free, b, op);
      WorthMonotone(free, a, b - {op});
    }
  }

  lemma SortedTotal(coins: seq<Coin>, free: Utxos)
    requires Sorted(coins, free)
    ensures PrefixSum(coins, |coins|) == Total(free)
    ensures coins == [] <==> free == map[]
  {
    hide Worth, Total, Elements;
    PrefixWorth(coins, free, |coins|);
    WorthOfAll(free, Outpoints(coins));
    assert Elements([]) == {} by { NothingIsWorthless(free); }
    if coins != [] {
      assert coins[0].outpoint in free;
    } else {
      assert Outpoints(coins) == [];
      assert free.Keys == {};
    }
  }

  /** What the loop found, against what was asked for. */
  lemma GreedyOutcome(coins: seq<Coin>, free: Utxos, amount: nat, k: nat, accumulated: nat,
                      selected: seq<OutPoint>, total: nat)
    requires Sorted(coins, free) && amount < UINT64 && forall op | op in free :: free[op].value < UINT64
    requires Stops(coins, amount, k) && accumulated == PrefixSum(coins, k) % UINT64
    requires Returned(coins, amount, k, selected, total)
    ensures Greedy(free, amount, selected, total)
    ensures Outcome(free, amount, selected, total) <==> !Overflows(free, amount)
    ensures Overflows(free, amount) ==> (selected == [] && total == 0) || Worth(free, Elements(selected)) >= UINT64
  {
    hide Total, Worth, Elements, Selection;
    SortedTotal(coins, free);
    if Total(free) < amount {
      FitsWord(PrefixSum(coins, |coins|));
      BelowAmount(coins, free, amount, k);
    } else if coins == [] {
      EmptySelection(coins, free);
    } else {
      var c := FirstCover(coins, amount, 1);
      StopsAt(coins, amount, k, c);
      PrefixSelection(coins, free, amount, c);
      CoverOutcome(coins, free, amount, k, c, selected, total);
    }
  }

  lemma BelowAmount(coins: seq<Coin>, free: Utxos, amount: nat, k: nat)
    requires Sorted(coins, free) && Total(free) < amount < UINT64 && Stops(coins, amount, k)
    requires PrefixSum(coins, |coins|) == Total(free)
    ensures PrefixSum(coins, k) % UINT64 < amount && !Overflows(free, amount)
  {
    PrefixMonotone(coins, k, |coins|);
    FitsWord(PrefixSum(coins, k));
    hide Total, Selection, Sorted, Stops, PrefixSum;
    if Overflows(free, amount) {
      var s, t: nat :| Selection(free, amount, s, t) && t >= UINT64;
      SelectionWithinTotal(free, amount, s, t);
    }
  }

  lemma EmptySelection(coins: seq<Coin>, free: Utxos)
    requires Sorted(coins, free) && coins == [] && free == map[]
    ensures Selection(free, 0, [], 0) && !Overflows(free, 0)
  {
    TotalEmpty();
    NothingIsWorthless(free);
    hide Worth;
    if Overflows(free, 0) {
      var s, t: nat :| Selection(free, 0, s, t) && t >= UINT64;
      SelectionWithinTotal(free, 0, s, t);
    }
  }

  lemma CoverOutcome(coins: seq<Coin>, free: Utxos, amount: nat, k: nat, c: nat, selected: seq<OutPoint>, total: nat)
    requires Sorted(coins, free) && Total(free) >= amount && 0 < c <= |coins| && k <= |coins|
    requires Selection(free, amount, Outpoints(coins)[..c], PrefixSum(coins, c))
    requires if PrefixSum(coins, c) < UINT64 then k == c && PrefixSum(coins, k) % UINT64 == PrefixSum(coins, k) >= amount
             else PrefixSum(coins, k) % UINT64 >= amount ==> k > c
    requires Returned(coins, amount, k, selected, total)
    ensures Outcome(free, amount, selected, total) <==> !Overflows(free, amount)
    ensures Overflows(free, amount) ==> (selected == [] && total == 0) || Worth(free, Elements(selected)) >= UINT64
  {
    hide Total, Worth, Selection, PrefixSum, Elements;
    var s, t := Outpoints(coins)[..c], PrefixSum(coins, c);
    if Overflows(free, amount) {
      var s', t': nat :| Selection(free, amount, s', t') && t' >= UINT64;
      SelectionDetermined(free, amount, s, t, s', t');
      PrefixWorth(coins, free, k);
      if k > c {
        PrefixMonotone(coins, c, k);
      }
      if Outcome(free, amount, selected, total) {
        SelectionDetermined(free, amount, s, t, selected, total);
      }
    }
  }

  /** Two coins, the smaller first. */
  lemma TwoCoins(small: OutPoint, large: OutPoint, script: Script)
    requires small != large
    ensures var free: Utxos := map[small := UtxoData(1, script), large := UtxoData(UINT64 - 1, script)];
            var coins := [Coin(small, 1), Coin(large, UINT64 - 1)];
            Sorted(coins, free) && PrefixSum(coins, 1) == 1 && PrefixSum(coins, 2) == UINT64
  {
    var coins := [Coin(small, 1), Coin(large, UINT64 - 1)];
    assert Outpoints(coins) == [small, large];
  }

  /** Coins of 1 and 2^64 - 1 suffice for 2^64 - 1, but the covering sum wraps and nothing is selected. */
  lemma OverflowOccurs(small: OutPoint, large: OutPoint, script: Script)
    requires small != large
    ensures var free: Utxos := map[small := UtxoData(1, script), large := UtxoData(UINT64 - 1, script)];
            && Total(free) == UINT64 && Overflows(free, UINT64 - 1)
            && Greedy(free, UINT64 - 1, [], 0) && !Outcome(free, UINT64 - 1, [], 0)
  {
    var free: Utxos := map[small := UtxoData(1, script), large := UtxoData(UINT64 - 1, script)];
    var coins := [Coin(small, 1), Coin(large, UINT64 - 1)];
    hide Total, Worth, Sorted, Selection, PrefixSum, Greedy, Outcome;
    TwoCoins(small, large, script);
    SortedTotal(coins, free);
    CoverWraps(coins, free);
  }

  lemma CoverWraps(coins: seq<Coin>, free: Utxos)
    requires Sorted(coins, free) && |coins| == 2 && PrefixSum(coins, 1) == 1 && PrefixSum(coins, 2) == UINT64
    requires forall op | op in free :: free[op].value < UINT64
    ensures Overflows(free, UINT64 - 1) && Greedy(free, UINT64 - 1, [], 0) && !Outcome(free, UINT64 - 1, [], 0)
  {
    hide Total, Worth, Selection, PrefixSum, Greedy, Outcome, Elements, Lists;
    PrefixSelection(coins, free, UINT64 - 1, 2);
    assert PrefixSum(coins, 1) % UINT64 == 1 && PrefixSum(coins, 2) % UINT64 == 0;
    GreedyOutcome(coins, free, UINT64 - 1, 2, 0, [], 0);
  }

  lemma SelectedInputs(free: Utxos, tx: Transaction, selected: seq<OutPoint>)
    requires forall op | op in selected :: op in free
    requires |tx.inputs| == |selected| && forall i | 0 <= i < |selected| :: tx.inputs[i].previous == selected[i]
    ensures Inputs(tx) <= free.Keys
  {
  }

  /** A nonempty selection covers its amount. */
  lemma GreedyCovers(free: Utxos, amount: nat, selected: seq<OutPoint>, total: nat)
    requires Greedy(free, amount, selected, total) && total > 0
    ensures Distinct(selected) && Elements(selected) <= free.Keys && amount <= total
    ensures forall op | op in selected :: op in free
    ensures total == Worth(free, Elements(selected)) % UINT64
  {
    hide Worth, PrefixSum;
    var coins, k :| Sorted(coins, free) && Stops(coins, amount, k) && Returned(coins, amount, k, selected, total);
    PrefixWorth(coins, free, k);
    assert forall op | op in selected :: op in Outpoints(coins);
  }

  /** Nothing is selected for nothing. */
  lemma NoPayment(free: Utxos, selected: seq<OutPoint>, toHash: string, amount: nat, ownHash: string, tx: Transaction)
    requires Greedy(free, amount, selected, 0) && tx.inputs == [] && tx.outputs == []
    requires Outcome(free, amount, selected, 0) <==> !Overflows(free, amount)
    ensures !Payment(free, tx, toHash, amount, ownHash)
    ensures !Overflows(free, amount) ==> NothingToPay(free, amount)
  {
    hide Worth, Total, Overflows, Greedy;
    if Outcome(free, amount, selected, 0) && Total(free) >= amount && free != map[] {
      if selected != [] {
        assert Selection(free, amount, selected, 0) && selected[0] in selected;
        ZeroCoin(free, amount, selected);
      }
    }
  }

  lemma ZeroCoin(free: Utxos, amount: nat, selected: seq<OutPoint>)
    requires Selection(free, amount, selected, 0) && selected != []
    ensures amount == 0 && selected[0] in free && free[selected[0]].value == 0
  {
    assert selected[0] in Elements(selected);
    WorthRemove(free, Elements(selected), selected[0]);
  }

  /** A transaction built from a selection with a positive total is a payment unless the sum wrapped. */
  lemma PaymentBuiltIff(free: Utxos, tx: Transaction, selected: seq<OutPoint>, accumulated: nat,
                        toHash: string, amount: nat, ownHash: string)
    requires Distinct(selected) && Elements(selected) <= free.Keys && 0 < accumulated < UINT64 && accumulated >= amount
    requires Outcome(free, amount, selected, accumulated) <==> !Overflows(free, amount)
    requires Overflows(free, amount) ==> Worth(free, Elements(selected)) >= UINT64
    requires |tx.inputs| == |selected| && forall i | 0 <= i < |selected| :: tx.inputs[i].previous == selected[i]
    requires tx.outputs == [TxOutput(amount, "10" + toHash)] +
               if accumulated > amount then [TxOutput(accumulated - amount, "10" + ownHash)] else []
    ensures Payment(free, tx, toHash, amount, ownHash) <==> !Overflows(free, amount) && !NothingToPay(free, amount)
    ensures !Overflows(free, amount) ==> !NothingToPay(free, amount)
  {
    hide Overflows, Worth, Total, Payment, Elements, Distinct;
    if Overflows(free, amount) {
      WorthNotPaid(free, tx, selected, accumulated, toHash, amount, ownHash);
    } else {
      PositiveSelection(free, amount, selected, accumulated);
      PaymentBuilt(free, tx, selected, accumulated, toHash, amount, ownHash);
    }
  }

  lemma PositiveSelection(free: Utxos, amount: nat, selected: seq<OutPoint>, total: nat)
    requires Outcome(free, amount, selected, total) && total > 0
    ensures Chosen(free, selected, total) && !NothingToPay(free, amount)
  {
    hide Worth, Total;
    NothingIsWorthless(free);
    assert free == map[] ==> Elements(selected) == {};
    if amount == 0 && exists op | op in free :: free[op].value == 0 {
      var op :| op in free && free[op].value == 0;
      NothingSuffices(free, selected, total, op);
    }
  }

  /** When nothing is asked for and a coin is worth nothing, nothing is selected. */
  lemma NothingSuffices(free: Utxos, selected: seq<OutPoint>, total: nat, op: OutPoint)
    requires Selection(free, 0, selected, total) && op in free && free[op].value == 0
    ensures total == 0
  {
    hide Worth;
    NothingIsWorthless(free);
    WorthRemove(free, {op}, op);
    assert {op} - {op} == {} && |{op}| == 1;
  }

  /** The outputs add up to less than what the inputs are worth. */
  lemma WorthNotPaid(free: Utxos, tx: Transaction, selected: seq<OutPoint>, accumulated: nat,
                     toHash: string, amount: nat, ownHash: string)
    requires Distinct(selected) && Elements(selected) <= free.Keys && amount <= accumulated < UINT64
    requires Worth(free, Elements(selected)) >= UINT64
    requires |tx.inputs| == |selected| && forall i | 0 <= i < |selected| :: tx.inputs[i].previous == selected[i]
    requires tx.outputs == [TxOutput(amount, "10" + toHash)] +
               if accumulated > amount then [TxOutput(accumulated - amount, "10" + ownHash)] else []
    ensures !Payment(free, tx, toHash, amount, ownHash)
  {
    hide Worth;
    InputsWorth(free, tx.inputs, selected);
    OutputsPaid(tx, accumulated, toHash, amount, ownHash);
  }

  lemma OutputsPaid(tx: Transaction, accumulated: nat, toHash: string, amount: nat, ownHash: string)
    requires amount <= accumulated
    requires tx.outputs == [TxOutput(amount, "10" + toHash)] +
               if accumulated > amount then [TxOutput(accumulated - amount, "10" + ownHash)] else []
    ensures Supply.OutputSum(tx.outputs) == accumulated
  {
    var n := |tx.outputs| - 1;
    assert n > 0 ==> tx.outputs[..n] == [tx.outputs[0]];
    assert [tx.outputs[0]][..0] == [];
    assert Supply.OutputSum([tx.outputs[0]]) == amount;
    assert n == 0 ==> tx.outputs == [tx.outputs[0]];
  }

  /** A payment: distinct listed coins, worth exactly the outputs; the amount to the payee, the rest to the payer. */
  ghost predicate Payment(free: Utxos, tx: Transaction, toHash: string, amount: nat, ownHash: string) {
    && Supply.DistinctInputs(tx)
    && (forall input | input in tx.inputs :: input.previous in free)
    && Supply.InputSum(free, tx.inputs) == Supply.OutputSum(tx.outputs)
    && 1 <= |tx.outputs| <= 2 && tx.outputs[0] == TxOutput(amount, "10" + toHash)
    && (|tx.outputs| == 2 ==> tx.outputs[1].value > 0 && PublicKeyHash(tx.outputs[1].script) == ownHash)
  }

  lemma {:induction false} InputsWorth(free: Utxos, inputs: seq<TxInput>, ops: seq<OutPoint>)
    requires Distinct(ops) && Elements(ops) <= free.Keys && |inputs| == |ops|
    requires forall i | 0 <= i < |ops| :: inputs[i].previous == ops[i]
    ensures forall input | input in inputs :: input.previous in free
    ensures Supply.InputSum(free, inputs) == Worth(free, Elements(ops))
  {
    forall input | input in inputs
      ensures input.previous in free
    {
      var i :| 0 <= i < |inputs| && inputs[i] == input;
      assert ops[i] in Elements(ops);
    }
    var n := |ops| - 1;
    if n < 0 {
      NothingIsWorthless(free);
      assert ops == [];
    } else {
      PrefixElements(ops, n + 1);
      assert ops[..n + 1] == ops;
      InputsWorth(free, inputs[..n], ops[..n]);
      WorthRemove(free, Elements(ops), ops[n]);
    }
  }

  lemma PaymentBuilt(free: Utxos, tx: Transaction, selected: seq<OutPoint>, accumulated: nat,
                     toHash: string, amount: nat, ownHash: string)
    requires Chosen(free, selected, accumulated) && accumulated >= amount && |tx.inputs| == |selected|
    requires forall i | 0 <= i < |selected| :: tx.inputs[i].previous == selected[i]
    requires tx.outputs == [TxOutput(amount, "10" + toHash)] +
               if accumulated > amount then [TxOutput(accumulated - amount, "10" + ownHash)] else []
    ensures Payment(free, tx, toHash, amount, ownHash)
  {
    hide Worth;
    InputsWorth(free, tx.inputs, selected);
    OutputsPaid(tx, accumulated, toHash, amount, ownHash);
  }

  /**
   * What the rest of the node needs of a payment: its inputs pass the guard on reserved outpoints, and it is
   * an ordinary transaction that burns nothing.
   */
  lemma PaymentAccepted(utxos: Utxos, mine: Utxos, pool: Pool, tx: Transaction,
                        toHash: string, amount: nat, ownHash: string)
    requires mine == Owned(utxos, ownHash)
    requires Payment(map op | op in mine && op !in pool.reserved :: mine[op], tx, toHash, amount, ownHash)
    ensures Inputs(tx) !! pool.reserved.Keys
    ensures Supply.Ordinary(utxos, tx)
    ensures Supply.InputSum(utxos, tx.inputs) == Supply.OutputSum(tx.outputs)
  {
    SameInputSum(map op | op in mine && op !in pool.reserved :: mine[op], utxos, tx.inputs);
  }

  lemma {:induction false} SameInputSum(part: Utxos, whole: Utxos, inputs: seq<TxInput>)
    requires forall input | input in inputs :: input.previous in part
    requires forall op | op in part :: op in whole && whole[op] == part[op]
    ensures Supply.InputSum(part, inputs) == Supply.InputSum(whole, inputs)
  {
    if inputs != [] {
      SameInputSum(part, whole, inputs[..|inputs| - 1]);
    }
  }

  lemma ListsExtend(coins: seq<Coin>, free: Utxos, op: OutPoint)
    requires Lists(coins, free) && op in free && op !in Elements(Outpoints(coins))
    ensures Lists(coins + [Coin(op, free[op].value)], free)
    ensures Elements(Outpoints(coins + [Coin(op, free[op].value)])) == Elements(Outpoints(coins)) + {op}
  {
    assert Outpoints(coins + [Coin(op, free[op].value)]) == Outpoints(coins) + [op];
  }

  /** The accumulating loop, with its 64-bit sum. */
  method TakeSmallest(coins: seq<Coin>, amount: nat) returns (k: nat, accumulated: nat)
    ensures Stops(coins, amount, k) && accumulated == PrefixSum(coins, k) % UINT64
  {
    k, accumulated := 0, 0;
    while k < |coins|
      invariant k <= |coins| && accumulated == PrefixSum(coins, k) % UINT64
      invariant forall j | 0 < j <= k :: PrefixSum(coins, j) % UINT64 < amount
    {
      WrapStep(PrefixSum(coins, k), coins[k].value);
      accumulated := (accumulated + coins[k].value) % UINT64;
      k := k + 1;
      if accumulated >= amount {
        break;
      }
    }
  }

  lemma WorthOfAll(free: Utxos, ops: seq<OutPoint>)
    requires Elements(ops) == free.Keys
    ensures Worth(free, Elements(ops[..|ops|])) == Total(free)
  {
    assert ops[..|ops|] == ops;
    assert Pick(free, free.Keys) == free;
  }

  /** The first prefix that reaches the amount is a selection. */
  lemma PrefixSelection(coins: seq<Coin>, free: Utxos, amount: nat, i: nat)
    requires Lists(coins, free) && Ascending(coins) && Elements(Outpoints(coins)) == free.Keys
    requires i <= |coins| && PrefixSum(coins, i) >= amount
    requires i > 1 ==> PrefixSum(coins, i - 1) < amount
    requires i == 0 ==> coins == [] && amount == 0
    ensures Selection(free, amount, Outpoints(coins)[..i], PrefixSum(coins, i))
  {
    hide Worth, Total;
    var ops := Outpoints(coins);
    PrefixChosen(coins, free, i);
    SelectionMinimal(coins, free, i);
    if i == 0 {
      assert free.Keys == {} by { assert ops == []; }
    } else {
      hide PrefixSum;
      PrefixWorth(coins, free, i - 1);
      assert ops[..i][..i - 1] == ops[..i - 1];
      LastIsLargest(coins, free, i);
    }
  }

  lemma PrefixChosen(coins: seq<Coin>, free: Utxos, i: nat)
    requires Lists(coins, free) && Elements(Outpoints(coins)) == free.Keys && i <= |coins|
    ensures Chosen(free, Outpoints(coins)[..i], PrefixSum(coins, i))
  {
    hide Worth, PrefixSum;
    PrefixWorth(coins, free, i);
    assert forall op | op in Outpoints(coins)[..i] :: op in Outpoints(coins);
  }

  lemma SelectionMinimal(coins: seq<Coin>, free: Utxos, i: nat)
    requires Lists(coins, free) && Ascending(coins) && Elements(Outpoints(coins)) == free.Keys && i <= |coins|
    ensures forall ops | ops <= free.Keys && |ops| >= i :: Worth(free, ops) >= PrefixSum(coins, i)
  {
    assert Outpoints(coins)[..|coins|] == Outpoints(coins);
    forall ops | ops <= free.Keys && |ops| >= i
      ensures Worth(free, ops) >= PrefixSum(coins, i)
    {
      SmallestPrefix(coins, free, |coins|, i, ops);
    }
  }

  lemma LastIsLargest(coins: seq<Coin>, free: Utxos, i: nat)
    requires Lists(coins, free) && Ascending(coins) && 0 < i <= |coins|
    ensures forall op | op in Outpoints(coins)[..i] :: free[op].value <= free[Outpoints(coins)[i - 1]].value
  {
    var ops := Outpoints(coins);
    forall op | op in ops[..i]
      ensures free[op].value <= free[ops[i - 1]].value
    {
      var j :| 0 <= j < i && op == ops[j];
      assert free[op].value == coins[j].value;
    }
  }
}
