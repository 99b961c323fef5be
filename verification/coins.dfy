/** What the two coin-change functions share: the checks on their
    arguments and the worth and size of a change, a dictionary from coin
    denomination to how many of it are given. */
module Coins {

  /** `min(coins)` of a non-empty list. */
  function Least(coins: seq<int>): (m: int)
    requires coins != []
    ensures m in coins && forall k | 0 <= k < |coins| :: m <= coins[k]
  {
    if |coins| == 1 then coins[0]
    else var rest := Least(coins[1..]); if coins[0] <= rest then coins[0] else rest
  }

  /** The four checks that raise ValueError before any change is counted:
      a non-positive amount, no coins, a non-positive coin, or a smallest
      coin larger than the amount. */
  predicate Rejected(coins: seq<int>, amount: int)
  {
    amount <= 0 || coins == [] || Least(coins) <= 0 || Least(coins) > amount
  }

  /** Arguments that pass the checks have positive coins only. */
  lemma AcceptedCoins(coins: seq<int>, amount: int)
    requires !Rejected(coins, amount)
    ensures amount > 0 && forall k | 0 <= k < |coins| :: 0 < coins[k]
  {
  }

  /** A change with keys has a coin in it. */
  lemma SomeKey(m: map<int, nat>)
    requires m.Keys != {}
    ensures exists k :: k in m
  {
    if forall k :: k !in m {
      assert false;
    }
  }

  /** Some coin of a non-empty change. */
  ghost function Pick(m: map<int, nat>): (k: int)
    requires m.Keys != {}
    ensures k in m && (m - {k}).Keys < m.Keys
  {
    SomeKey(m);
    var k :| k in m; k
  }

  /** The amount a change is worth: each coin times its count. */
  ghost function Worth(m: map<int, nat>): int
    decreases |m.Keys|
  {
    if m.Keys == {} then 0 else var k := Pick(m); k * m[k] + Worth(m - {k})
  }

  /** How many coins a change gives. */
  ghost function Size(m: map<int, nat>): int
    decreases |m.Keys|
  {
    if m.Keys == {} then 0 else var k := Pick(m); m[k] + Size(m - {k})
  }

  /** The worth and the size of a change can be taken apart at any coin. */
  lemma TakeApart(m: map<int, nat>, k: int)
    requires k in m
    ensures Worth(m) == k * m[k] + Worth(m - {k})
    ensures Size(m) == m[k] + Size(m - {k})
  {
    WorthApart(m, k);
    SizeApart(m, k);
  }

  lemma {:induction false} WorthApart(m: map<int, nat>, k: int)
    requires k in m
    ensures Worth(m) == k * m[k] + Worth(m - {k})
    decreases |m.Keys|
  {
    var j := Pick(m);
    if j != k {
      var mj, mk := m - {j}, m - {k};
      var rest := mj - {k};
      assert rest == mk - {j};
      WorthApart(mj, k);
      WorthApart(mk, j);
      assert Worth(m) == j * m[j] + Worth(mj);
    }
  }

  lemma {:induction false} SizeApart(m: map<int, nat>, k: int)
    requires k in m
    ensures Size(m) == m[k] + Size(m - {k})
    decreases |m.Keys|
  {
    var j := Pick(m);
    if j != k {
      var mj, mk := m - {j}, m - {k};
      var rest := mj - {k};
      assert rest == mk - {j};
      SizeApart(mj, k);
      SizeApart(mk, j);
      assert Size(m) == m[j] + Size(mj);
    }
  }

  /** A change whose keys are all among `coins`. */
  ghost predicate Uses(coins: seq<int>, m: map<int, nat>)
  {
    forall k | k in m :: k in coins
  }

  /** One more coin `c` in a change. */
  function AddCoin(m: map<int, nat>, c: int): (m': map<int, nat>)
    ensures m'.Keys == m.Keys + {c} && m'[c] >= 1
  {
    m[c := if c in m then m[c] + 1 else 1]
  }

  /** One more coin adds its denomination to the worth and one to the size. */
  lemma AddCoinTotals(m: map<int, nat>, c: int)
    ensures Worth(AddCoin(m, c)) == Worth(m) + c
    ensures Size(AddCoin(m, c)) == Size(m) + 1
  {
    var m' := AddCoin(m, c);
    var n := if c in m then m[c] else 0;
    assert m'[c] == n + 1;
    TakeApart(m', c);
    assert m' - {c} == m - {c};
    if c in m {
      TakeApart(m, c);
    } else {
      assert m - {c} == m;
    }
    assert Worth(m) == c * n + Worth(m - {c});
    assert c * (n + 1) == c * n + c;
  }

  /** `count` coins `c`, added to a change that has none of them. */
  lemma AddCoinsTotals(m: map<int, nat>, c: int, count: nat)
    requires c !in m
    ensures Worth(m[c := count]) == Worth(m) + c * count
    ensures Size(m[c := count]) == Size(m) + count
  {
    var m' := m[c := count];
    TakeApart(m', c);
    assert m' - {c} == m;
  }

  /** A change of positive coins is worth at least nothing. */
  lemma {:induction false} WorthNonNegative(m: map<int, nat>)
    requires forall k | k in m :: k > 0
    ensures Worth(m) >= 0 && Size(m) >= 0
    decreases |m.Keys|
  {
    if m.Keys != {} {
      var k := Pick(m);
      WorthNonNegative(m - {k});
    }
  }
}
