/**
 * Sort-then-greedy coin selection: it returns the shortest prefix of the sorted coins that covers an amount,
 * and what that means for every other set of coins.
 */
module CoinSelection {
  import opened Ledger
  import Sets

  datatype Coin = Coin(outpoint: OutPoint, value: nat)

  predicate Ascending(coins: seq<Coin>) {
    forall i, j | 0 <= i < j < |coins| :: coins[i].value <= coins[j].value
  }

  function PrefixSum(coins: seq<Coin>, k: nat): nat
    requires k <= |coins|
  {
    if k == 0 then 0 else PrefixSum(coins, k - 1) + coins[k - 1].value
  }

  function Outpoints(coins: seq<Coin>): (ops: seq<OutPoint>)
    ensures |ops| == |coins| && forall i | 0 <= i < |ops| :: ops[i] == coins[i].outpoint
  {
    seq(|coins|, i requires 0 <= i < |coins| => coins[i].outpoint)
  }

  ghost predicate Distinct(ops: seq<OutPoint>) {
    forall i, j | 0 <= i < j < |ops| :: ops[i] != ops[j]
  }

  ghost function Elements(ops: seq<OutPoint>): set<OutPoint> {
    set op | op in ops
  }

  /** The coins list the entries of a map, each once. */
  ghost predicate Lists(coins: seq<Coin>, free: Utxos) {
    && Distinct(Outpoints(coins))
    && (forall i | 0 <= i < |coins| :: coins[i].outpoint in free && free[coins[i].outpoint].value == coins[i].value)
  }

  ghost function Pick(free: Utxos, ops: set<OutPoint>): Utxos {
    map op | op in ops && op in free :: free[op]
  }

  /** What a set of outpoints is worth. */
  ghost function Worth(free: Utxos, ops: set<OutPoint>): nat {
    Total(Pick(free, ops))
  }

  lemma WorthRemove(free: Utxos, ops: set<OutPoint>, op: OutPoint)
    requires op in ops && op in free
    ensures Worth(free, ops) == Worth(free, ops - {op}) + free[op].value
  {
    TotalRemove(Pick(free, ops), op);
    assert Pick(free, ops) - {op} == Pick(free, ops - {op});
  }

  lemma PrefixElements(ops: seq<OutPoint>, k: nat)
    requires Distinct(ops) && 0 < k <= |ops|
    ensures ops[k - 1] in Elements(ops[..k])
    ensures Elements(ops[..k]) - {ops[k - 1]} == Elements(ops[..k - 1])
  {
    assert ops[..k] == ops[..k - 1] + [ops[k - 1]];
  }

  lemma {:induction false} PrefixWorth(coins: seq<Coin>, free: Utxos, k: nat)
    requires Lists(coins, free) && k <= |coins|
    ensures PrefixSum(coins, k) == Worth(free, Elements(Outpoints(coins)[..k]))
    ensures |Elements(Outpoints(coins)[..k])| == k
  {
    hide Elements, Worth;
    var ops := Outpoints(coins);
    if k > 0 {
      PrefixWorth(coins, free, k - 1);
      PrefixElements(ops, k);
      WorthRemove(free, Elements(ops[..k]), ops[k - 1]);
    } else {
      NothingIsWorthless(free);
    }
  }

  lemma NothingIsWorthless(free: Utxos)
    ensures Elements([]) == {} && Worth(free, {}) == 0
  {
    TotalEmpty();
    assert Pick(free, {}) == map[];
  }

  /** Any k of the first n ascending coins are worth at least the k smallest. */
  lemma {:induction false} SmallestPrefix(coins: seq<Coin>, free: Utxos, n: nat, k: nat, ops: set<OutPoint>)
    requires Lists(coins, free) && Ascending(coins) && n <= |coins|
    requires ops <= Elements(Outpoints(coins)[..n]) && k <= |ops| && k <= n
    ensures Worth(free, ops) >= PrefixSum(coins, k)
  {
    hide Elements, Worth;
    if k > 0 {
      var all := Outpoints(coins);
      var last := all[n - 1];
      PrefixElements(all, n);
      if last in ops {
        SmallestPrefix(coins, free, n - 1, k - 1, ops - {last});
        WorthRemove(free, ops, last);
        assert coins[k - 1].value <= coins[n - 1].value;
      } else {
        PrefixWorth(coins, free, n - 1);
        Sets.SubsetSize(ops, Elements(all[..n - 1]));
        SmallestPrefix(coins, free, n - 1, k, ops);
      }
    }
  }

  lemma {:induction false} PrefixMonotone(coins: seq<Coin>, j: nat, k: nat)
    requires j <= k <= |coins|
    ensures PrefixSum(coins, j) <= PrefixSum(coins, k)
  {
    if j < k {
      PrefixMonotone(coins, j, k - 1);
    }
  }

  // ----- what a selection is -----

  /** The coins of a selection: k distinct free outpoints worth the total reported. */
  ghost predicate Chosen(free: Utxos, selected: seq<OutPoint>, total: nat) {
    Distinct(selected) && Elements(selected) <= free.Keys && Worth(free, Elements(selected)) == total
  }

  /**
   * A selection covers the amount; no k free coins are worth less; without its last coin it does not cover
   * the amount any more; and that coin is the largest.
   */
  ghost predicate Selection(free: Utxos, amount: nat, selected: seq<OutPoint>, total: nat) {
    && Chosen(free, selected, total)
    && total >= amount
    && (forall ops | ops <= free.Keys && |ops| >= |selected| :: Worth(free, ops) >= total)
    && (selected == [] ==> amount == 0 && free == map[])
    && (amount == 0 ==> |selected| <= 1)
    && (amount > 0 ==> Worth(free, Elements(selected[..|selected| - 1])) < amount)
    && (forall op | op in selected :: free[op].value <= free[selected[|selected| - 1]].value)
  }

  /** The outcome: nothing when the free coins are worth less than the amount, and a selection otherwise. */
  ghost predicate Outcome(free: Utxos, amount: nat, selected: seq<OutPoint>, total: nat) {
    if Total(free) < amount then selected == [] && total == 0
    else Selection(free, amount, selected, total)
  }

  /** Change is smaller than the largest coin spent. */
  lemma ChangeIsSmall(free: Utxos, amount: nat, selected: seq<OutPoint>, total: nat)
    requires amount > 0 && Selection(free, amount, selected, total)
    ensures selected != [] && total - amount < free[selected[|selected| - 1]].value
  {
    hide Worth, Elements;
    assert selected[..|selected|] == selected;
    PrefixElements(selected, |selected|);
    WorthRemove(free, Elements(selected), selected[|selected| - 1]);
  }

  lemma {:induction false} DistinctCount(ops: seq<OutPoint>)
    requires Distinct(ops)
    ensures |Elements(ops)| == |ops|
  {
    if ops != [] {
      var n := |ops| - 1;
      DistinctCount(ops[..n]);
      assert ops == ops[..n] + [ops[n]];
      assert Elements(ops) == Elements(ops[..n]) + {ops[n]};
    } else {
      assert Elements(ops) == {};
    }
  }

  /** However ties are ordered, any two selections have the same number of coins and the same total. */
  lemma SelectionDetermined(free: Utxos, amount: nat, s: seq<OutPoint>, t: nat, s': seq<OutPoint>, t': nat)
    requires Selection(free, amount, s, t) && Selection(free, amount, s', t')
    ensures |s| == |s'| && t == t'
  {
    DistinctCount(s);
    DistinctCount(s');
    if |s| < |s'| {
      LongerCovers(free, amount, s, t, s');
    } else if |s'| < |s| {
      LongerCovers(free, amount, s', t', s);
    }
  }

  /** Dropping a coin from a longer choice still leaves enough to cover. */
  lemma LongerCovers(free: Utxos, amount: nat, s: seq<OutPoint>, t: nat, longer: seq<OutPoint>)
    requires Selection(free, amount, s, t) && |s| < |longer|
    requires Distinct(longer) && Elements(longer) <= free.Keys
    ensures Worth(free, Elements(longer[..|longer| - 1])) >= amount
    ensures s == [] ==> free != map[]
  {
    var shorter := longer[..|longer| - 1];
    assert forall op | op in shorter :: op in longer;
    DistinctCount(shorter);
    assert longer[0] in Elements(longer);
  }

  // ----- the algorithm -----

  lemma InsertionAscending(coins: seq<Coin>, i: nat, coin: Coin)
    requires Ascending(coins) && i <= |coins|
    requires i > 0 ==> coins[i - 1].value <= coin.value
    requires forall j | i <= j < |coins| :: coins[j].value > coin.value
    ensures Ascending(coins[..i] + [coin] + coins[i..])
  {
  }

  method InsertByValue(coins: seq<Coin>, coin: Coin) returns (r: seq<Coin>)
    requires Ascending(coins)
    ensures Ascending(r) && multiset(r) == multiset(coins) + multiset{coin}
  {
    var i := |coins|;
    while i > 0 && coins[i - 1].value > coin.value
      invariant 0 <= i <= |coins|
      invariant forall j | i <= j < |coins| :: coins[j].value > coin.value
    {
      i := i - 1;
    }
    InsertionAscending(coins, i, coin);
    r := coins[..i] + [coin] + coins[i..];
    assert multiset(r) == multiset(coins) + multiset{coin} by {
      assert coins == coins[..i] + coins[i..];
    }
  }

  /** Some ascending order of the coins; ties may come out either way. */
  method SortByValue(coins: seq<Coin>) returns (r: seq<Coin>)
    ensures Ascending(r) && multiset(r) == multiset(coins)
  {
    r := [];
    for i := 0 to |coins|
      invariant Ascending(r) && multiset(r) == multiset(coins[..i])
    {
      r := InsertByValue(r, coins[i]);
      assert coins[..i + 1] == coins[..i] + [coins[i]];
    }
    assert coins[..|coins|] == coins;
  }

  /** A permutation of a listing is a listing. */
  lemma ListsPermutation(coins: seq<Coin>, sorted: seq<Coin>, free: Utxos)
    requires Lists(coins, free) && multiset(sorted) == multiset(coins)
    ensures Lists(sorted, free)
    ensures Elements(Outpoints(sorted)) == Elements(Outpoints(coins))
  {
    forall i | 0 <= i < |sorted|
      ensures sorted[i] in coins
    {
      assert sorted[i] in multiset(sorted);
    }
    forall i | 0 <= i < |coins|
      ensures coins[i] in sorted
    {
      assert coins[i] in multiset(coins);
    }
    forall i, j | 0 <= i < j < |sorted|
      ensures sorted[i].outpoint != sorted[j].outpoint
    {
      if sorted[i] == sorted[j] {
        ListedOnce(coins, free, sorted[i]);
        OccursTwice(sorted, i, j);
      }
      var k :| 0 <= k < |coins| && coins[k] == sorted[i];
      var l :| 0 <= l < |coins| && coins[l] == sorted[j];
      assert Outpoints(coins)[k] != Outpoints(coins)[l];
    }
    ElementsOf(coins, sorted);
    ElementsOf(sorted, coins);
  }

  lemma ElementsOf(a: seq<Coin>, b: seq<Coin>)
    requires forall i | 0 <= i < |a| :: a[i] in b
    ensures Elements(Outpoints(a)) <= Elements(Outpoints(b))
  {
    forall op | op in Outpoints(a)
      ensures op in Outpoints(b)
    {
      var i :| 0 <= i < |a| && op == Outpoints(a)[i];
      var j :| 0 <= j < |b| && b[j] == a[i];
      assert Outpoints(b)[j] == op;
    }
  }

  lemma ListedOnce(coins: seq<Coin>, free: Utxos, coin: Coin)
    requires Lists(coins, free) && coin in coins
    ensures multiset(coins)[coin] == 1
  {
    var k :| 0 <= k < |coins| && coins[k] == coin;
    assert coins == coins[..k] + [coins[k]] + coins[k + 1..];
    assert forall m | 0 <= m < |coins| && m != k :: Outpoints(coins)[m] != Outpoints(coins)[k];
    assert coin !in coins[..k] && coin !in coins[k + 1..];
  }

  lemma OccursTwice(coins: seq<Coin>, i: nat, j: nat)
    requires i < j < |coins| && coins[i] == coins[j]
    ensures multiset(coins)[coins[i]] >= 2
  {
    assert coins == coins[..j] + [coins[j]] + coins[j + 1..];
    assert coins[i] in coins[..j];
  }
}
