/** Choosing dishes within a budget to get the most calories (0/1
    knapsack): a greedy pass in order of calories per unit of cost, and an
    exact dynamic-programming table with a walk back. */
module PriceOptimizer {
  import opened Wrappers
  import opened Seqs

  /** One entry of the `items` dictionary, in insertion order. */
  datatype Item = Item(name: string, cost: int, calories: int)

  datatype SelectionResult = SelectionResult(chosen: seq<string>, totalCost: int, totalCalories: int)

  function Names(s: seq<Item>): seq<string>
  {
    if s == [] then [] else Names(s[..|s| - 1]) + [s[|s| - 1].name]
  }

  function TotalCost(s: seq<Item>): int
  {
    if s == [] then 0 else TotalCost(s[..|s| - 1]) + s[|s| - 1].cost
  }

  function TotalCalories(s: seq<Item>): int
  {
    if s == [] then 0 else TotalCalories(s[..|s| - 1]) + s[|s| - 1].calories
  }

  /** The result reported for the items `s`: their names and their sums. */
  function Selection(s: seq<Item>): SelectionResult
  {
    SelectionResult(Names(s), TotalCost(s), TotalCalories(s))
  }

  /** Cost and calories add up over a concatenation. */
  lemma {:induction false} TotalsAppend(a: seq<Item>, b: seq<Item>)
    ensures TotalCost(a + b) == TotalCost(a) + TotalCost(b)
    ensures TotalCalories(a + b) == TotalCalories(a) + TotalCalories(b)
    decreases |b|
  {
    if b == [] {
      assert a + b == a;
    } else {
      var b' := b[..|b| - 1];
      assert (a + b)[..|a + b| - 1] == a + b';
      assert (a + b)[|a + b| - 1] == b[|b| - 1];
      TotalsAppend(a, b');
    }
  }

  predicate NoNegativeCost(s: seq<Item>)
  {
    forall k | 0 <= k < |s| :: s[k].cost >= 0
  }

  lemma {:induction false} CostNonNegative(s: seq<Item>)
    requires NoNegativeCost(s)
    ensures TotalCost(s) >= 0
  {
    if s != [] {
      CostNonNegative(s[..|s| - 1]);
    }
  }

  /** `p` is `s` with some entries left out and the rest kept in order. */
  predicate Sub(p: seq<Item>, s: seq<Item>)
    decreases |s|
  {
    p == [] || (s != [] && ((p[|p| - 1] == s[|s| - 1] && Sub(p[..|p| - 1], s[..|s| - 1])) || Sub(p, s[..|s| - 1])))
  }

  lemma {:induction false} SubCons(x: Item, p: seq<Item>, s: seq<Item>)
    requires Sub(p, s)
    ensures Sub([x] + p, [x] + s) && Sub(p, [x] + s)
    decreases |s|
  {
    if s == [] {
      assert p == [];
      assert ([x] + p)[..0] == [];
    } else {
      var s' := s[..|s| - 1];
      assert ([x] + s)[..|s|] == [x] + s';
      if p == [] {
        SubCons(x, p, s');
      } else if p[|p| - 1] == s[|s| - 1] && Sub(p[..|p| - 1], s') {
        SubCons(x, p[..|p| - 1], s');
        assert ([x] + p)[..|p|] == [x] + p[..|p| - 1];
      } else {
        SubCons(x, p, s');
      }
    }
  }

  /** Entries kept from `s` are, counted with repeats, among those of `s`. */
  lemma {:induction false} SubMultiset(p: seq<Item>, s: seq<Item>)
    requires Sub(p, s)
    ensures multiset(p) <= multiset(s)
    decreases |s|
  {
    if p != [] {
      var s' := s[..|s| - 1];
      assert s == s' + [s[|s| - 1]];
      if p[|p| - 1] == s[|s| - 1] && Sub(p[..|p| - 1], s') {
        SubMultiset(p[..|p| - 1], s');
        assert p == p[..|p| - 1] + [p[|p| - 1]];
      } else {
        SubMultiset(p, s');
      }
    }
  }

  // The greedy pass

  /** The ratio `calories / cost` as a fraction over a positive
      denominator. */
  function Num(x: Item): int
  {
    if x.cost < 0 then -x.calories else x.calories
  }

  function Den(x: Item): int
  {
    if x.cost < 0 then -x.cost else x.cost
  }

  /** `x` sorts strictly before `y`: a larger ratio, then more calories,
      then a lower cost. */
  predicate Ahead(x: Item, y: Item)
  {
    var a, b := Num(x) * Den(y), Num(y) * Den(x);
    a > b || (a == b && (x.calories > y.calories || (x.calories == y.calories && x.cost < y.cost)))
  }

  /** No item costs nothing, so every ratio is defined. */
  predicate Priced(s: seq<Item>)
  {
    forall k | 0 <= k < |s| :: s[k].cost != 0
  }

  /** Comparing fractions over positive denominators is transitive. */
  lemma CrossTransitive(a: int, p: int, b: int, q: int, c: int, s: int)
    requires p > 0 && q > 0 && s > 0
    requires a * q >= b * p && b * s >= c * q
    ensures a * s >= c * p
    ensures a * q > b * p || b * s > c * q ==> a * s > c * p
  {
    var u, v := a * q - b * p, b * s - c * q;
    assert u * s >= 0 && v * p >= 0;
    assert u > 0 ==> u * s > 0;
    assert v > 0 ==> v * p > 0;
    assert q * (a * s - c * p) == u * s + v * p;
  }

  lemma AheadTransitive(x: Item, y: Item, z: Item)
    requires x.cost != 0 && y.cost != 0 && z.cost != 0
    requires Ahead(x, y) && Ahead(y, z)
    ensures Ahead(x, z)
  {
    CrossTransitive(Num(x), Den(x), Num(y), Den(y), Num(z), Den(z));
  }

  /** `sorted` inserting one more item after every item it does not sort
      strictly before. */
  function Insert(o: seq<Item>, x: Item): (r: seq<Item>)
    ensures multiset(r) == multiset(o) + multiset{x}
  {
    if o == [] then [x]
    else if Ahead(x, o[0]) then [x] + o
    else
      assert o == [o[0]] + o[1..];
      [o[0]] + Insert(o[1..], x)
  }

  /** `sorted(items.items(), key=..., reverse=True)`. */
  function Order(items: seq<Item>): (o: seq<Item>)
    ensures multiset(o) == multiset(items)
  {
    if items == [] then []
    else
      assert items == items[..|items| - 1] + [items[|items| - 1]];
      Insert(Order(items[..|items| - 1]), items[|items| - 1])
  }

  /** No item sorts strictly before one that comes earlier. */
  predicate Ranked(o: seq<Item>)
  {
    forall i, j | 0 <= i < j < |o| :: !Ahead(o[j], o[i])
  }

  lemma PricedMultiset(s: seq<Item>, t: seq<Item>)
    requires Priced(s) && multiset(t) <= multiset(s)
    ensures Priced(t)
  {
    forall k | 0 <= k < |t| ensures t[k].cost != 0 {
      assert t[k] in multiset(t);
      var i :| 0 <= i < |s| && s[i] == t[k];
    }
  }

  lemma NoNegativeMultiset(s: seq<Item>, t: seq<Item>)
    requires NoNegativeCost(s) && multiset(t) <= multiset(s)
    ensures NoNegativeCost(t)
  {
    forall k | 0 <= k < |t| ensures t[k].cost >= 0 {
      assert t[k] in multiset(t);
      var i :| 0 <= i < |s| && s[i] == t[k];
    }
  }

  lemma {:induction false} InsertRanked(o: seq<Item>, x: Item)
    requires Ranked(o) && Priced(o) && x.cost != 0
    ensures Ranked(Insert(o, x))
  {
    if o != [] && Ahead(x, o[0]) {
      RankedFront(o, x);
    } else if o != [] {
      InsertRanked(o[1..], x);
      RankedBehind(o, x, Insert(o[1..], x));
    }
  }

  /** An item that sorts strictly before the first of a ranked sequence
      sorts strictly before none of them. */
  lemma RankedFront(o: seq<Item>, x: Item)
    requires Ranked(o) && Priced(o) && x.cost != 0
    requires o != [] && Ahead(x, o[0])
    ensures Ranked([x] + o)
  {
    var r := [x] + o;
    forall i, j | 0 <= i < j < |r| ensures !Ahead(r[j], r[i]) {
      if i == 0 && Ahead(o[j - 1], x) {
        AheadTransitive(o[j - 1], x, o[0]);
      }
    }
  }

  /** The first of a ranked sequence, in front of the ranked insertion of
      an item it does not sort after. */
  lemma RankedBehind(o: seq<Item>, x: Item, rest: seq<Item>)
    requires Ranked(o) && o != [] && !Ahead(x, o[0])
    requires Ranked(rest) && multiset(rest) == multiset(o[1..]) + multiset{x}
    ensures Ranked([o[0]] + rest)
  {
    var r := [o[0]] + rest;
    forall j | 0 < j < |r| ensures !Ahead(r[j], r[0]) {
      assert rest[j - 1] in multiset(rest);
      if rest[j - 1] != x {
        assert rest[j - 1] in multiset(o[1..]);
        var k :| 0 <= k < |o[1..]| && o[1..][k] == rest[j - 1];
        assert o[k + 1] == rest[j - 1];
      }
    }
  }

  /** The greedy order is ranked and, like `items`, priced. */
  lemma {:induction false} OrderRanked(items: seq<Item>)
    requires Priced(items)
    ensures Ranked(Order(items)) && Priced(Order(items))
  {
    if items != [] {
      var front := items[..|items| - 1];
      assert items == front + [items[|items| - 1]];
      PricedMultiset(items, front);
      OrderRanked(front);
      InsertRanked(Order(front), items[|items| - 1]);
      PricedMultiset(items, Order(items));
    }
  }

  /** The items the greedy loop takes from `s`, having spent `spent`: each
      one whose cost still fits into the budget. */
  function Fill(s: seq<Item>, spent: int, budget: int): (f: seq<Item>)
  {
    if s == [] then []
    else if spent + s[0].cost <= budget then [s[0]] + Fill(s[1..], spent + s[0].cost, budget)
    else Fill(s[1..], spent, budget)
  }

  /** What the greedy loop takes stays within the budget. */
  lemma {:induction false} FillWithin(s: seq<Item>, spent: int, budget: int)
    requires spent <= budget
    ensures spent + TotalCost(Fill(s, spent, budget)) <= budget
  {
    if s != [] {
      var f := Fill(s[1..], spent + s[0].cost, budget);
      if spent + s[0].cost <= budget {
        FillWithin(s[1..], spent + s[0].cost, budget);
        TotalsAppend([s[0]], f);
      } else {
        FillWithin(s[1..], spent, budget);
      }
    }
  }

  /** What the greedy loop takes is in the order it scans. */
  lemma {:induction false} FillSub(s: seq<Item>, spent: int, budget: int)
    ensures Sub(Fill(s, spent, budget), s)
  {
    if s != [] {
      assert s == [s[0]] + s[1..];
      if spent + s[0].cost <= budget {
        FillSub(s[1..], spent + s[0].cost, budget);
        SubCons(s[0], Fill(s[1..], spent + s[0].cost, budget), s[1..]);
      } else {
        FillSub(s[1..], spent, budget);
        SubCons(s[0], Fill(s[1..], spent, budget), s[1..]);
      }
    }
  }

  /** With no negative cost, an item the greedy loop left out does not fit
      next to all it took. */
  lemma {:induction false} FillMaximal(s: seq<Item>, spent: int, budget: int)
    requires NoNegativeCost(s)
    ensures forall k | 0 <= k < |s| && s[k] !in Fill(s, spent, budget) :: spent + TotalCost(Fill(s, spent, budget)) + s[k].cost > budget
  {
    if s != [] {
      var x := s[0];
      assert NoNegativeCost(s[1..]);
      if spent + x.cost <= budget {
        var f := Fill(s[1..], spent + x.cost, budget);
        FillMaximal(s[1..], spent + x.cost, budget);
        TotalsAppend([x], f);
        forall k | 0 < k < |s| && s[k] !in Fill(s, spent, budget)
          ensures spent + TotalCost(Fill(s, spent, budget)) + s[k].cost > budget
        {
          assert s[k] == s[1..][k - 1];
        }
      } else {
        var f := Fill(s[1..], spent, budget);
        FillMaximal(s[1..], spent, budget);
        FillSub(s[1..], spent, budget);
        SubMultiset(f, s[1..]);
        NoNegativeMultiset(s[1..], f);
        CostNonNegative(f);
        forall k | 0 < k < |s| && s[k] !in f ensures spent + TotalCost(f) + s[k].cost > budget {
          assert s[k] == s[1..][k - 1];
        }
      }
    }
  }

  /** The greedy loop at position `k` of `s`: it takes item `k` exactly
      when that still fits, and goes on from `k + 1`. */
  lemma FillStep(s: seq<Item>, k: nat, spent: int, budget: int)
    requires k < |s|
    ensures Fill(s[k..], spent, budget)
      == if spent + s[k].cost <= budget then [s[k]] + Fill(s[k + 1..], spent + s[k].cost, budget)
         else Fill(s[k + 1..], spent, budget)
  {
    assert s[k..][1..] == s[k + 1..];
  }

  /** `greedy_algorithm`. */
  method GreedyAlgorithm(items: seq<Item>, budget: int) returns (r: Result<SelectionResult>)
    ensures budget < 0 ==> r == Raise(ValueError)
    ensures budget >= 0 && !Priced(items) ==> r == Raise(ZeroDivisionError)
    ensures budget >= 0 && Priced(items) ==> r == Ok(Selection(Fill(Order(items), 0, budget)))
  {
    if budget < 0 {
      return Raise(ValueError);
    }
    if !Priced(items) {
      return Raise(ZeroDivisionError);
    }
    var ordered := Order(items);
    var chosen: seq<string> := [];
    var totalCost, totalCalories := 0, 0;
    ghost var taken: seq<Item> := [];
    for k := 0 to |ordered|
      invariant chosen == Names(taken) && totalCost == TotalCost(taken) && totalCalories == TotalCalories(taken)
      invariant taken + Fill(ordered[k..], totalCost, budget) == Fill(ordered, 0, budget)
    {
      var item := ordered[k];
      FillStep(ordered, k, totalCost, budget);
      if totalCost + item.cost <= budget {
        Associative(taken, [item], Fill(ordered[k + 1..], totalCost + item.cost, budget));
        assert (taken + [item])[..|taken|] == taken;
        chosen := chosen + [item.name];
        totalCost := totalCost + item.cost;
        totalCalories := totalCalories + item.calories;
        taken := taken + [item];
      }
    }
    assert ordered[|ordered|..] == [];
    assert taken + [] == taken;
    assert taken == Fill(ordered, 0, budget);
    return Ok(SelectionResult(chosen, totalCost, totalCalories));
  }

  // The dynamic-programming table

  /** Whether the table marks `take[i][b]`: one more of item `i - 1` beats
      the best without it. */
  predicate Takes(items: seq<Item>, i: nat, b: int)
    requires 1 <= i <= |items|
    decreases i, 0
  {
    var x := items[i - 1];
    x.cost <= b && Best(items, i - 1, b - x.cost) + x.calories > Best(items, i - 1, b)
  }

  /** `dp[i][b]`: the calories the table holds for the first `i` items and
      budget `b`. */
  function Best(items: seq<Item>, i: nat, b: int): int
    requires i <= |items|
    decreases i, 1
  {
    if i == 0 then 0
    else if Takes(items, i, b) then Best(items, i - 1, b - items[i - 1].cost) + items[i - 1].calories
    else Best(items, i - 1, b)
  }

  /** The items the walk back collects from `take`, in input order. */
  function Pick(items: seq<Item>, i: nat, b: int): seq<Item>
    requires i <= |items|
  {
    if i == 0 then []
    else if Takes(items, i, b) then Pick(items, i - 1, b - items[i - 1].cost) + [items[i - 1]]
    else Pick(items, i - 1, b)
  }

  /** The entries are at least what leaving the item out or putting it in
      would give. */
  lemma BestChoice(items: seq<Item>, i: nat, b: int)
    requires 1 <= i <= |items|
    ensures Best(items, i, b) >= Best(items, i - 1, b)
    ensures items[i - 1].cost <= b ==> Best(items, i, b) >= Best(items, i - 1, b - items[i - 1].cost) + items[i - 1].calories
  {
  }

  /** The walk back collects items of the first `i`, in their order, that
      fit into `b` and give exactly `dp[i][b]` calories. */
  lemma {:induction false} PickAchieves(items: seq<Item>, i: nat, b: int)
    requires i <= |items| && b >= 0
    ensures Sub(Pick(items, i, b), items[..i])
    ensures TotalCost(Pick(items, i, b)) <= b
    ensures TotalCalories(Pick(items, i, b)) == Best(items, i, b)
  {
    if i > 0 {
      var x := items[i - 1];
      assert items[..i][..i - 1] == items[..i - 1];
      if Takes(items, i, b) {
        var p := Pick(items, i - 1, b - x.cost);
        PickAchieves(items, i - 1, b - x.cost);
        assert (p + [x])[..|p|] == p;
      } else {
        PickAchieves(items, i - 1, b);
      }
    }
  }

  /** `dp[i][b]` is the most calories of any choice among the first `i`
      items, each used at most once, that costs at most `b`. */
  lemma {:induction false} BestIsMax(items: seq<Item>, i: nat, b: int, choice: seq<Item>)
    requires i <= |items| && NoNegativeCost(items)
    requires multiset(choice) <= multiset(items[..i])
    requires TotalCost(choice) <= b
    ensures TotalCalories(choice) <= Best(items, i, b)
    decreases i
  {
    if i == 0 {
      assert items[..i] == [];
      assert |choice| == |multiset(choice)| == 0;
    } else if items[i - 1] in choice {
      var x := items[i - 1];
      var rest := TakeOut(items, i, b, choice);
      BestIsMax(items, i - 1, b - x.cost, rest);
      BestChoice(items, i, b);
    } else {
      LeaveOut(items, i, choice);
      BestIsMax(items, i - 1, b, choice);
      BestChoice(items, i, b);
    }
  }

  /** A choice among the first `i` items without item `i - 1` is a choice
      among the first `i - 1`. */
  lemma LeaveOut(items: seq<Item>, i: nat, choice: seq<Item>)
    requires 1 <= i <= |items|
    requires multiset(choice) <= multiset(items[..i]) && items[i - 1] !in choice
    ensures multiset(choice) <= multiset(items[..i - 1])
  {
    Shrink(items, i, choice);
    assert multiset(choice) - multiset{items[i - 1]} == multiset(choice);
  }

  /** A choice among the first `i` items that holds item `i - 1`, without
      it: a choice among the first `i - 1` within what is left of `b`. */
  lemma TakeOut(items: seq<Item>, i: nat, b: int, choice: seq<Item>) returns (rest: seq<Item>)
    requires 1 <= i <= |items| && NoNegativeCost(items)
    requires multiset(choice) <= multiset(items[..i]) && TotalCost(choice) <= b
    requires items[i - 1] in choice
    ensures multiset(rest) <= multiset(items[..i - 1])
    ensures items[i - 1].cost <= b && TotalCost(rest) <= b - items[i - 1].cost
    ensures TotalCalories(choice) == TotalCalories(rest) + items[i - 1].calories
  {
    var k :| 0 <= k < |choice| && choice[k] == items[i - 1];
    rest := RemoveAt(choice, k);
    Shrink(items, i, choice);
    NoNegativeMultiset(items, items[..i - 1]);
    NoNegativeMultiset(items[..i - 1], rest);
    CostNonNegative(rest);
  }

  /** A choice without entry `k`. */
  lemma RemoveAt(choice: seq<Item>, k: nat) returns (rest: seq<Item>)
    requires k < |choice|
    ensures multiset(rest) == multiset(choice) - multiset{choice[k]}
    ensures TotalCost(rest) == TotalCost(choice) - choice[k].cost
    ensures TotalCalories(rest) == TotalCalories(choice) - choice[k].calories
  {
    var x := choice[k];
    rest := choice[..k] + choice[k + 1..];
    assert choice == choice[..k] + [x] + choice[k + 1..];
    TotalsAppend(choice[..k] + [x], choice[k + 1..]);
    TotalsAppend(choice[..k], [x]);
    TotalsAppend(choice[..k], choice[k + 1..]);
  }

  /** Taking item `i - 1` out of a choice among the first `i` leaves a
      choice among the first `i - 1`. */
  lemma Shrink(items: seq<Item>, i: nat, choice: seq<Item>)
    requires 1 <= i <= |items|
    requires multiset(choice) <= multiset(items[..i])
    ensures multiset(choice) - multiset{items[i - 1]} <= multiset(items[..i - 1])
    ensures multiset(items[..i - 1]) <= multiset(items)
  {
    assert items[..i] == items[..i - 1] + [items[i - 1]];
    assert items == items[..i - 1] + items[i - 1..];
  }

  /** When neither function raises (no cost is zero or negative), the
      table's choice has at least the calories of the greedy one. */
  lemma DynamicBeatsGreedy(items: seq<Item>, budget: int)
    requires budget >= 0 && Priced(items) && NoNegativeCost(items)
    ensures TotalCalories(Fill(Order(items), 0, budget)) <= TotalCalories(Pick(items, |items|, budget))
  {
    var greedy := Fill(Order(items), 0, budget);
    FillWithin(Order(items), 0, budget);
    FillSub(Order(items), 0, budget);
    SubMultiset(greedy, Order(items));
    assert items[..|items|] == items;
    BestIsMax(items, |items|, budget, greedy);
    PickAchieves(items, |items|, budget);
  }

  /** The greedy pass can miss the best choice: with budget 3, the dish of
      ratio 3/2 is taken first and the one of 4 calories no longer fits. */
  lemma GreedyNotOptimal()
    ensures var items := [Item("a", 2, 3), Item("b", 3, 4)];
            TotalCalories(Fill(Order(items), 0, 3)) < TotalCalories(Pick(items, 2, 3))
  {
    var a, b := Item("a", 2, 3), Item("b", 3, 4);
    var items := [a, b];
    assert items[..1] == [a];
    assert Order([a]) == [a];
    assert Order(items) == [a, b];
    assert Fill([b], 2, 3) == [];
    assert Fill([a, b], 0, 3) == [a];
    assert Best(items, 1, 3) == 3 && Best(items, 1, 0) == 0;
    assert Pick(items, 1, 0) == [];
    assert Pick(items, 2, 3) == [b];
  }

  /** One step of the walk back, for the invariant that what is left to
      collect, followed by what was collected so far, is the whole pick. */
  lemma PickStep(items: seq<Item>, i: nat, b: int, chosen: seq<Item>)
    requires 1 <= i <= |items|
    ensures Takes(items, i, b) ==>
              Pick(items, i, b) + Reversed(chosen) == Pick(items, i - 1, b - items[i - 1].cost) + Reversed(chosen + [items[i - 1]])
    ensures !Takes(items, i, b) ==> Pick(items, i, b) + Reversed(chosen) == Pick(items, i - 1, b) + Reversed(chosen)
  {
    var x := items[i - 1];
    assert (chosen + [x])[..|chosen|] == chosen;
    assert Reversed(chosen + [x]) == [x] + Reversed(chosen);
  }

  /** `dynamic_programming`. */
  method DynamicProgramming(items: seq<Item>, budget: int) returns (r: Result<SelectionResult>)
    ensures budget < 0 ==> r == Raise(ValueError)
    ensures budget >= 0 && !NoNegativeCost(items) ==> r == Raise(IndexError)
    ensures budget >= 0 && NoNegativeCost(items) ==> r == Ok(Selection(Pick(items, |items|, budget)))
  {
    if budget < 0 {
      return Raise(ValueError);
    }
    var ok, dp, take := Tables(items, budget);
    if !ok {
      return Raise(IndexError);
    }
    var chosen := WalkBack(items, budget, take);
    return Ok(Selection(chosen));
  }

  /** The nested loops that fill `dp` and `take`; `ok` is false where the
      source raises IndexError. */
  method Tables(items: seq<Item>, budget: nat) returns (ok: bool, dp: array2<int>, take: array2<bool>)
    ensures ok <==> NoNegativeCost(items)
    ensures dp.Length0 == take.Length0 == |items| + 1 && dp.Length1 == take.Length1 == budget + 1
    ensures ok ==> forall row, b | 0 <= row <= |items| && 0 <= b <= budget :: dp[row, b] == Best(items, row, b)
    ensures ok ==> forall row, b | 1 <= row <= |items| && 0 <= b <= budget :: take[row, b] == Takes(items, row, b)
  {
    var n := |items|;
    dp := new int[n + 1, budget + 1]((_, _) => 0);
    take := new bool[n + 1, budget + 1]((_, _) => false);
    for i := 1 to n + 1
      invariant forall k | 0 <= k < i - 1 :: items[k].cost >= 0
      invariant forall row, b | 0 <= row < i && 0 <= b <= budget :: dp[row, b] == Best(items, row, b)
      invariant forall row, b | 1 <= row < i && 0 <= b <= budget :: take[row, b] == Takes(items, row, b)
      invariant forall row, b | i <= row <= n && 0 <= b <= budget :: !take[row, b]
    {
      ok := FillRow(items, i, dp, take);
      if !ok {
        return;
      }
    }
    ok := true;
  }

  /** The walk back from `take[n][budget]`, then `chosen.reverse()`. */
  method WalkBack(items: seq<Item>, budget: nat, take: array2<bool>) returns (chosen: seq<Item>)
    requires NoNegativeCost(items)
    requires take.Length0 == |items| + 1 && take.Length1 == budget + 1
    requires forall row, b | 1 <= row <= |items| && 0 <= b <= budget :: take[row, b] == Takes(items, row, b)
    ensures chosen == Pick(items, |items|, budget)
  {
    var n := |items|;
    chosen := [];
    var b := budget;
    var i := n;
    while i > 0
      invariant 0 <= i <= n && 0 <= b <= budget
      invariant Pick(items, n, budget) == Pick(items, i, b) + Reversed(chosen)
    {
      PickStep(items, i, b, chosen);
      if take[i, b] {
        var item := items[i - 1];
        chosen := chosen + [item];
        b := b - item.cost;
      }
      i := i - 1;
    }
    assert Pick(items, 0, b) == [];
    assert [] + Reversed(chosen) == Reversed(chosen);
    chosen := Reversed(chosen);
  }

  /** Row `i` of both tables, over every budget from 0 up; `false` where
      the source raises IndexError, reading `dp[i - 1]` past its end for a
      negative cost. */
  method FillRow(items: seq<Item>, i: nat, dp: array2<int>, take: array2<bool>) returns (ok: bool)
    requires 1 <= i <= |items| && dp.Length0 == take.Length0 == |items| + 1 && dp.Length1 == take.Length1 >= 1
    requires forall row, b | 0 <= row < i && 0 <= b < dp.Length1 :: dp[row, b] == Best(items, row, b)
    requires forall b | 0 <= b < dp.Length1 :: !take[i, b]
    modifies dp, take
    ensures ok <==> items[i - 1].cost >= 0
    ensures ok ==> forall b | 0 <= b < dp.Length1 :: dp[i, b] == Best(items, i, b)
    ensures ok ==> forall b | 0 <= b < dp.Length1 :: take[i, b] == Takes(items, i, b)
    ensures forall row, b | 0 <= row < dp.Length0 && row != i && 0 <= b < dp.Length1 :: dp[row, b] == old(dp[row, b]) && take[row, b] == old(take[row, b])
  {
    var x := items[i - 1];
    for b := 0 to dp.Length1
      invariant forall c | 0 <= c < b :: dp[i, c] == Best(items, i, c) && take[i, c] == Takes(items, i, c)
      invariant forall c | b <= c < dp.Length1 :: !take[i, c]
      invariant forall row, c | 0 <= row < i && 0 <= c < dp.Length1 :: dp[row, c] == Best(items, row, c)
      invariant forall row, c | 0 <= row < dp.Length0 && row != i && 0 <= c < dp.Length1 :: dp[row, c] == old(dp[row, c]) && take[row, c] == old(take[row, c])
      invariant x.cost < 0 && b > 0 ==> b - 1 - x.cost < dp.Length1
    {
      var best := dp[i - 1, b];
      if x.cost <= b {
        if b - x.cost >= dp.Length1 {
          return false;
        }
        var alt := dp[i - 1, b - x.cost] + x.calories;
        if alt > best {
          best := alt;
          take[i, b] := true;
        }
      }
      dp[i, b] := best;
    }
    return true;
  }
}
