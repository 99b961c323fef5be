/** `find_min_coins`: the fewest coins that make an amount, by dynamic
    programming over the amounts from 0 up, followed by a walk back along
    the last coin used for each amount. */
module FindDynamic {
  import opened Wrappers
  import opened Coins

  // A count of coins or `None` for `float('inf')`, the count of an amount
  // no coins make.

  function Plus1(a: Option<nat>): (r: Option<nat>)
    ensures r.Some? <==> a.Some?
    ensures r.Some? ==> r.value == a.value + 1
  {
    if a.None? then None else Some(a.value + 1)
  }

  /** `a < b`, where `None` is larger than every number and not smaller
      than itself. */
  predicate Below(a: Option<nat>, b: Option<nat>)
  {
    a.Some? && (b.None? || a.value < b.value)
  }

  /** `a <= b`, where `None` is larger than every number. */
  predicate AtMost(a: Option<nat>, b: Option<nat>)
  {
    b.None? || (a.Some? && a.value <= b.value)
  }

  predicate Positive(coins: seq<int>)
  {
    forall k | 0 <= k < |coins| :: coins[k] > 0
  }

  /** The count the table holds for `x` once the first `j` coins have been
      processed: the count without coin `j - 1`, replaced by one more than
      the count for `x - coins[j - 1]` when that is strictly smaller. */
  function Fewest(coins: seq<int>, j: nat, x: nat): Option<nat>
    requires j <= |coins| && Positive(coins)
    decreases j, x
  {
    if j == 0 then (if x == 0 then Some(0) else None)
    else
      var skip, c := Fewest(coins, j - 1, x), coins[j - 1];
      if c <= x && Below(Plus1(Fewest(coins, j, x - c)), skip) then Plus1(Fewest(coins, j, x - c)) else skip
  }

  /** The table entry is never more than without the last coin, nor more
      than one coin on top of the entry for the amount less that coin. */
  lemma FewestChoice(coins: seq<int>, j: nat, x: nat)
    requires 0 < j <= |coins| && Positive(coins)
    ensures AtMost(Fewest(coins, j, x), Fewest(coins, j - 1, x))
    ensures coins[j - 1] <= x ==> AtMost(Fewest(coins, j, x), Plus1(Fewest(coins, j, x - coins[j - 1])))
  {
  }

  /** Every coin among the first `j`, not only the last, gives one more
      coin than the entry for the amount less that coin, or better. */
  lemma {:induction false} FewestStep(coins: seq<int>, j: nat, x: nat, i: nat)
    requires i < j <= |coins| && Positive(coins) && coins[i] <= x
    ensures AtMost(Fewest(coins, j, x), Plus1(Fewest(coins, j, x - coins[i])))
    decreases j, x
  {
    FewestChoice(coins, j, x);
    if i < j - 1 {
      var c, d := coins[j - 1], coins[i];
      if c <= x - d && Below(Plus1(Fewest(coins, j, x - d - c)), Fewest(coins, j - 1, x - d)) {
        assert Fewest(coins, j, x - d) == Plus1(Fewest(coins, j, x - d - c));
        FewestStep(coins, j, x - c, i);
        assert x - c - d == x - d - c;
      } else {
        assert Fewest(coins, j, x - d) == Fewest(coins, j - 1, x - d);
        FewestStep(coins, j - 1, x, i);
      }
    }
  }

  /** No change from the first `j` coins worth `x` has fewer coins than the
      table entry; when the entry is infinite, there is no such change. */
  lemma {:induction false} FewestBound(coins: seq<int>, j: nat, x: nat, m: map<int, nat>)
    requires j <= |coins| && Positive(coins)
    requires forall k | k in m :: k in coins[..j]
    requires Worth(m) == x
    ensures Fewest(coins, j, x).Some? && Fewest(coins, j, x).value <= Size(m)
    decreases j, Size(m)
  {
    WorthNonNegative(m);
    if j == 0 {
      assert m.Keys == {};
      assert m == map[];
    } else {
      var c := coins[j - 1];
      FewestChoice(coins, j, x);
      if c in m && m[c] >= 1 {
        var fewer := OneLess(m, c);
        FewestBound(coins, j, x - c, fewer);
      } else {
        var without := Without(coins, j, m);
        FewestBound(coins, j - 1, x, without);
      }
    }
  }

  /** The change with one coin `c` fewer. */
  lemma OneLess(m: map<int, nat>, c: int) returns (fewer: map<int, nat>)
    requires c in m && m[c] >= 1 && forall k | k in m :: k > 0
    ensures fewer.Keys == m.Keys
    ensures Worth(fewer) == Worth(m) - c >= 0 && Size(fewer) == Size(m) - 1 >= 0
  {
    fewer := m[c := m[c] - 1];
    assert AddCoin(fewer, c) == m;
    AddCoinTotals(fewer, c);
    WorthNonNegative(fewer);
  }

  /** A change from the first `j` coins with no coin `j - 1` in use is a
      change from the first `j - 1`. */
  lemma Without(coins: seq<int>, j: nat, m: map<int, nat>) returns (without: map<int, nat>)
    requires 0 < j <= |coins|
    requires forall k | k in m :: k in coins[..j]
    requires coins[j - 1] in m ==> m[coins[j - 1]] == 0
    ensures forall k | k in without :: k in coins[..j - 1]
    ensures Worth(without) == Worth(m) && Size(without) == Size(m)
  {
    var c := coins[j - 1];
    without := m - {c};
    if c in m {
      TakeApart(m, c);
    } else {
      assert without == m;
    }
    forall k | k in without ensures k in coins[..j - 1] {
      var i :| 0 <= i < j && coins[..j][i] == k;
    }
  }

  /** What `last_coin[x]` records once the table holds counts: a coin no
      larger than `x` whose own amount `x - coin` takes at least one coin
      fewer. */
  ghost predicate LastOk(coins: seq<int>, dp: seq<Option<nat>>, last: seq<int>, x: nat)
    requires x < |dp| == |last|
  {
    dp[x].Some? ==> last[x] in coins && 0 < last[x] <= x && AtMost(Plus1(dp[x - last[x]]), dp[x])
  }

  /** `find_min_coins`. */
  method FindMinCoins(coins: seq<int>, amount: int) returns (r: Result<map<int, nat>>)
    ensures Rejected(coins, amount) <==> r == Raise(ValueError)
    ensures !Rejected(coins, amount) ==> r.Ok?
    ensures r.Ok? && r.value == map[] ==> forall m :: Uses(coins, m) ==> Worth(m) != amount
    ensures r.Ok? && r.value != map[] ==>
              && (forall k | k in r.value :: k in coins && r.value[k] >= 1)
              && Worth(r.value) == amount
              && forall m :: Uses(coins, m) && Worth(m) == amount ==> Size(r.value) <= Size(m)
  {
    if amount <= 0 {
      return Raise(ValueError);
    }
    if coins == [] {
      return Raise(ValueError);
    }
    var least := Least(coins);
    if least <= 0 {
      return Raise(ValueError);
    }
    if least > amount {
      return Raise(ValueError);
    }
    AcceptedCoins(coins, amount);
    var dp, lastCoin := Table(coins, amount);
    var n := |coins|;
    assert coins[..n] == coins;
    if dp[amount].None? {
      forall m | Uses(coins, m) ensures Worth(m) != amount {
        if Worth(m) == amount {
          FewestBound(coins, n, amount, m);
        }
      }
      return Ok(map[]);
    }
    TableWalkable(coins, dp, lastCoin);
    var result := WalkBack(coins, dp, lastCoin, amount);
    forall m | Uses(coins, m) && Worth(m) == amount ensures Size(result) <= Size(m) {
      FewestBound(coins, n, amount, m);
    }
    return Ok(result);
  }

  /** What the walk back relies on: nothing is made of no coins, and for
      every amount the table can make, `last_coin` names one of the coins
      that fits into it and leaves an amount taking one coin fewer. */
  ghost predicate Walkable(coins: seq<int>, dp: seq<Option<nat>>, last: seq<int>)
  {
    && |dp| == |last| && dp != [] && dp[0] == Some(0)
    && forall x | 0 < x < |dp| && dp[x].Some? ::
         last[x] in coins && 0 < last[x] <= x && dp[x - last[x]].Some? && dp[x - last[x]].value + 1 == dp[x].value
  }

  /** The tables the dynamic programme fills can be walked back. */
  lemma TableWalkable(coins: seq<int>, dp: seq<Option<nat>>, last: seq<int>)
    requires Positive(coins) && 0 < |dp| == |last|
    requires forall y | 0 <= y < |dp| :: dp[y] == Fewest(coins, |coins|, y)
    requires forall y | 0 < y < |dp| :: LastOk(coins, dp, last, y)
    ensures Walkable(coins, dp, last)
  {
    FewestZero(coins, |coins|);
    forall x | 0 < x < |dp| && dp[x].Some?
      ensures last[x] in coins && 0 < last[x] <= x && dp[x - last[x]].Some? && dp[x - last[x]].value + 1 == dp[x].value
    {
      assert LastOk(coins, dp, last, x);
      var i :| 0 <= i < |coins| && coins[i] == last[x];
      FewestStep(coins, |coins|, x, i);
    }
  }

  /** The loop that follows `last_coin` back from `amount` to 0, counting
      each coin it meets: a change worth `amount` with as many coins as
      the table entry for it. */
  method WalkBack(coins: seq<int>, dp: seq<Option<nat>>, lastCoin: seq<int>, amount: nat) returns (result: map<int, nat>)
    requires Walkable(coins, dp, lastCoin) && amount < |dp| && dp[amount].Some?
    ensures forall k | k in result :: k in coins && result[k] >= 1
    ensures Worth(result) == amount && Size(result) == dp[amount].value
  {
    result := map[];
    var rest := amount;
    while rest > 0
      invariant 0 <= rest <= amount && dp[rest].Some?
      invariant forall k | k in result :: k in coins && result[k] >= 1
      invariant Worth(result) + rest == amount
      invariant Size(result) + dp[rest].value == dp[amount].value
    {
      var coin := lastCoin[rest];
      AddCoinTotals(result, coin);
      result := Count(result, coin);
      rest := rest - coin;
    }
  }

  /** `result[coin] += 1`, or `result[coin] = 1` for a new coin. */
  method Count(result: map<int, nat>, coin: int) returns (result': map<int, nat>)
    ensures result' == AddCoin(result, coin)
  {
    if coin in result {
      result' := result[coin := result[coin] + 1];
    } else {
      result' := result[coin := 1];
    }
  }

  /** Nothing is made of no coins. */
  lemma {:induction false} FewestZero(coins: seq<int>, j: nat)
    requires j <= |coins| && Positive(coins)
    ensures Fewest(coins, j, 0) == Some(0)
  {
    if j > 0 {
      FewestZero(coins, j - 1);
    }
  }

  /** The two tables: `dp[x]` the fewest coins that make `x`, and
      `lastCoin[x]` the coin that last lowered `dp[x]`. */
  method Table(coins: seq<int>, amount: nat) returns (dp: seq<Option<nat>>, lastCoin: seq<int>)
    requires Positive(coins)
    ensures |dp| == |lastCoin| == amount + 1
    ensures forall x | 0 <= x <= amount :: dp[x] == Fewest(coins, |coins|, x)
    ensures forall x | 0 < x <= amount :: LastOk(coins, dp, lastCoin, x)
  {
    var table := new Option<nat>[amount + 1](_ => None);
    table[0] := Some(0);
    var last := new int[amount + 1](_ => -1);
    for j := 0 to |coins|
      invariant forall x | 0 <= x <= amount :: table[x] == Fewest(coins, j, x)
      invariant forall x | 0 < x <= amount :: LastOk(coins, table[..], last[..], x)
    {
      var coin := coins[j];
      var x := coin;
      while x <= amount
        invariant coin <= x
        invariant forall y | 0 <= y <= amount :: table[y] == if y < x then Fewest(coins, j + 1, y) else Fewest(coins, j, y)
        invariant forall y | 0 < y <= amount :: LastOk(coins, table[..], last[..], y)
      {
        Relax(coins, j, table, last, x);
        x := x + 1;
      }
    }
    dp, lastCoin := table[..], last[..];
  }

  /** One step of the inner loop: `dp[x]` takes one more coin than
      `dp[x - coin]` when that is strictly fewer. */
  method Relax(coins: seq<int>, j: nat, table: array<Option<nat>>, last: array<int>, x: nat)
    requires j < |coins| && Positive(coins) && coins[j] <= x < table.Length == last.Length
    requires forall y | 0 <= y < table.Length :: table[y] == if y < x then Fewest(coins, j + 1, y) else Fewest(coins, j, y)
    requires forall y | 0 < y < table.Length :: LastOk(coins, table[..], last[..], y)
    modifies table, last
    ensures forall y | 0 <= y < table.Length :: table[y] == if y <= x then Fewest(coins, j + 1, y) else Fewest(coins, j, y)
    ensures forall y | 0 < y < table.Length :: LastOk(coins, table[..], last[..], y)
  {
    var coin := coins[j];
    ghost var before := table[..];
    if Below(Plus1(table[x - coin]), table[x]) {
      table[x] := Plus1(table[x - coin]);
      last[x] := coin;
    }
    forall y | 0 < y < table.Length ensures LastOk(coins, table[..], last[..], y) {
      assert LastOk(coins, before, old(last[..]), y);
    }
  }
}
