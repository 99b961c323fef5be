/** `find_coins_greedy`: change for an amount taking each coin, in the
    order given, as many times as it fits into what is left. */
module FindGreedy {
  import opened Wrappers
  import opened Coins

  /** What is left of `rest` once each coin of `coins` in turn has been
      taken as many times as it fits, stopping as soon as nothing is left. */
  function Leftover(coins: seq<int>, rest: nat): (left: nat)
    requires forall k | 0 <= k < |coins| :: coins[k] > 0
    ensures left <= rest
    ensures coins != [] ==> left < coins[|coins| - 1]
  {
    if coins == [] || rest == 0 then rest
    else
      Take(rest, coins[0]);
      Leftover(coins[1..], rest % coins[0])
  }

  /** The change the loop builds on top of `change`: each coin of `coins` in
      turn recorded with `rest // coin`, when that is at least one, until
      nothing is left. */
  function GreedyFrom(change: map<int, nat>, coins: seq<int>, rest: nat): (m: map<int, nat>)
    requires forall k | 0 <= k < |coins| :: coins[k] > 0
    ensures forall k | k in m :: (k in coins && m[k] >= 1) || (k in change && m[k] == change[k])
    decreases |coins|
  {
    if coins == [] || rest == 0 then change
    else
      var coin := coins[0];
      var change' := if rest / coin > 0 then change[coin := rest / coin] else change;
      GreedyFrom(change', coins[1..], rest % coin)
  }

  /** The change `find_coins_greedy` returns for `amount`. */
  function Greedy(coins: seq<int>, amount: nat): (m: map<int, nat>)
    requires forall k | 0 <= k < |coins| :: coins[k] > 0
    ensures forall k | k in m :: k in coins && m[k] >= 1
  {
    GreedyFrom(map[], coins, amount)
  }

  /** Whatever is recorded on top of `change` is worth what is taken off
      `rest`, as long as no coin already recorded could still be taken. */
  lemma {:induction false} GreedyFromWorth(change: map<int, nat>, coins: seq<int>, rest: nat)
    requires forall k | 0 <= k < |coins| :: coins[k] > 0
    requires forall k | k in change :: rest < k
    ensures Worth(GreedyFrom(change, coins, rest)) + Leftover(coins, rest) == Worth(change) + rest
    decreases |coins|
  {
    if coins != [] && rest != 0 {
      var coin := coins[0];
      var count, rest' := rest / coin, rest % coin;
      Take(rest, coin);
      var change' := if count > 0 then change[coin := count] else change;
      assert Worth(change') + rest' == Worth(change) + rest by {
        if count > 0 {
          AddCoinsTotals(change, coin, count);
        }
      }
      assert forall k | k in change' :: rest' < k;
      GreedyFromWorth(change', coins[1..], rest');
      assert GreedyFrom(change, coins, rest) == GreedyFrom(change', coins[1..], rest');
      assert Leftover(coins, rest) == Leftover(coins[1..], rest');
    }
  }

  /** The greedy change and the leftover make up the amount. */
  lemma GreedyWorth(coins: seq<int>, amount: nat)
    requires forall k | 0 <= k < |coins| :: coins[k] > 0
    ensures Worth(Greedy(coins, amount)) + Leftover(coins, amount) == amount
  {
    GreedyFromWorth(map[], coins, amount);
    assert Worth(map[]) == 0;
  }

  /** `rest // coin` coins `coin` leave `rest % coin`, less than the coin
      and no more than `rest`; at least one is taken when the coin fits. */
  lemma Take(rest: nat, coin: int)
    requires coin > 0
    ensures rest % coin < coin && rest % coin <= rest
    ensures rest - coin * (rest / coin) == rest % coin
    ensures rest / coin > 0 <==> coin <= rest
  {
  }

  /** One pass of the loop: coin `coin` taken `rest // coin` times, and
      recorded only when that is at least once. */
  method TakeCoin(change: map<int, nat>, rest: nat, coin: int) returns (change': map<int, nat>, rest': nat)
    requires coin > 0 && (coin <= rest ==> coin !in change)
    ensures rest' == rest % coin && rest' <= rest && rest' < coin
    ensures Worth(change') + rest' == Worth(change) + rest
    ensures change' == if coin <= rest then change[coin := rest / coin] else change
    ensures coin <= rest ==> rest / coin >= 1
  {
    var count := rest / coin;
    Take(rest, coin);
    change', rest' := change, rest;
    if count > 0 {
      AddCoinsTotals(change, coin, count);
      change' := change[coin := count];
      rest' := rest - coin * count;
    }
  }

  /** One coin taken off the front of `coins[i..]`. */
  lemma LeftoverStep(coins: seq<int>, i: nat, rest: nat, change: map<int, nat>)
    requires i < |coins| && rest > 0 && forall k | 0 <= k < |coins| :: coins[k] > 0
    ensures Leftover(coins[i..], rest) == Leftover(coins[i + 1..], rest % coins[i])
    ensures var coin := coins[i];
      GreedyFrom(change, coins[i..], rest)
      == GreedyFrom(if coin <= rest then change[coin := rest / coin] else change, coins[i + 1..], rest % coin)
  {
    Take(rest, coins[i]);
    assert coins[i..][1..] == coins[i + 1..];
  }

  /** With a coin of 1 among the coins, nothing is ever left. */
  lemma {:induction false} UnitCoinLeavesNothing(coins: seq<int>, rest: nat)
    requires forall k | 0 <= k < |coins| :: coins[k] > 0
    requires 1 in coins
    ensures Leftover(coins, rest) == 0
  {
    if rest != 0 && coins[0] != 1 {
      assert 1 in coins[1..];
      UnitCoinLeavesNothing(coins[1..], rest % coins[0]);
    }
  }

  /** The loop of `find_coins_greedy`: each coin in turn taken as many
      times as it fits into what is left, until nothing is left.  What is
      left at the end is `Leftover`, and the change makes up the rest. */
  method TakeEach(coins: seq<int>, amount: nat) returns (change: map<int, nat>, rest: nat)
    requires amount > 0 && forall k | 0 <= k < |coins| :: coins[k] > 0
    ensures rest == Leftover(coins, amount)
    ensures change == Greedy(coins, amount)
    ensures Worth(change) + rest == amount
  {
    change, rest := map[], amount;
    var i := 0;
    while i < |coins|
      invariant 0 <= i <= |coins| && 0 < rest <= amount
      invariant Leftover(coins[i..], rest) == Leftover(coins, amount)
      invariant GreedyFrom(change, coins[i..], rest) == Greedy(coins, amount)
      invariant Worth(change) + rest == amount
      invariant forall k | k in change :: k in coins[..i] && change[k] >= 1 && rest < k
    {
      var coin := coins[i];
      LeftoverStep(coins, i, rest, change);
      assert coins[..i + 1] == coins[..i] + [coin];
      change, rest := TakeCoin(change, rest, coin);
      i := i + 1;
      if rest == 0 {
        assert GreedyFrom(change, coins[i..], rest) == change;
        return;
      }
    }
    assert coins[..i] == coins;
    assert GreedyFrom(change, coins[i..], rest) == change;
  }

  /** `find_coins_greedy`. */
  method FindCoinsGreedy(coins: seq<int>, amount: int) returns (r: Result<map<int, nat>>)
    ensures r.Raise? <==> Rejected(coins, amount) || Leftover(coins, amount) > 0
    ensures r.Raise? ==> r.error == ValueError
    ensures !Rejected(coins, amount) && Leftover(coins, amount) == 0 ==> r == Ok(Greedy(coins, amount))
    ensures r.Ok? ==> (forall k | k in r.value :: k in coins && r.value[k] >= 1) && Worth(r.value) == amount
  {
    if amount <= 0 {
      return Raise(ValueError);
    }
    if coins == [] {
      return Raise(ValueError);
    }
    var least := Least(coins);
    if least <= 0 {
      return Raise(ValueError);
    }
    if least > amount {
      return Raise(ValueError);
    }
    AcceptedCoins(coins, amount);
    var change, rest := TakeEach(coins, amount);
    if rest > 0 {
      return Raise(ValueError);
    }
    return Ok(change);
  }
}
