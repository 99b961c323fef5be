/** `hanoi_tower`: moving the top `n` disks of one rod to another through a
    third, on a dictionary of rods whose lists it pops and appends. */
module HanoiTower {
  import opened Wrappers

  function Pow2(n: nat): (p: nat)
    ensures p >= 1
  {
    if n == 0 then 1 else 2 * Pow2(n - 1)
  }

  /** The top `n` disks of a rod, bottom first. */
  function Top(s: seq<int>, n: nat): seq<int>
    requires n <= |s|
  {
    s[|s| - n..]
  }

  /** A rod whose disks shrink from the bottom up. */
  predicate Descending(s: seq<int>)
  {
    forall i, j | 0 <= i < j < |s| :: s[i] > s[j]
  }

  /** Every disk of `top` is smaller than every disk of `s`. */
  predicate Smaller(top: seq<int>, s: seq<int>)
  {
    forall i, j | 0 <= i < |top| && 0 <= j < |s| :: top[i] < s[j]
  }

  /** A start from which moving the top `n` disks of rod `s` is a legal
      puzzle: every rod descending, and those disks smaller than every
      disk on the target `t` and the auxiliary `a`. */
  predicate Legal(s: seq<int>, t: seq<int>, a: seq<int>, n: nat)
  {
    && n <= |s|
    && Descending(s) && Descending(t) && Descending(a)
    && Smaller(Top(s, n), t) && Smaller(Top(s, n), a)
  }

  lemma DescendingAppend(s: seq<int>, t: seq<int>)
    requires Descending(s) && Descending(t) && Smaller(t, s)
    ensures Descending(s + t)
  {
    forall i, j | 0 <= i < j < |s + t| ensures (s + t)[i] > (s + t)[j] {
      if j >= |s| && i < |s| {
        assert (s + t)[j] == t[j - |s|];
      }
    }
  }

  /** The top `n` disks are the `n`-th from the top under the top `n - 1`. */
  lemma TopSplit(s: seq<int>, n: nat)
    requires 1 <= n <= |s|
    ensures Top(s, n) == [s[|s| - n]] + Top(s, n - 1)
  {
  }

  /** Disks put on a rod are its top ones, over what it held. */
  lemma OnTop(a: seq<int>, top: seq<int>)
    ensures Top(a + top, |top|) == top && (a + top)[..|a|] == a
  {
  }

  /** The disk moved between the calls, under the `n - 1` moved after it,
      are the top `n` disks of the source. */
  lemma Restack(t: seq<int>, s: seq<int>, n: nat)
    requires 1 <= n <= |s|
    ensures t + [s[|s| - n]] + Top(s, n - 1) == t + Top(s, n)
  {
    TopSplit(s, n);
  }

  /** The first recursive call starts legal. */
  lemma LegalFirst(s: seq<int>, t: seq<int>, a: seq<int>, n: nat)
    requires n >= 2 && Legal(s, t, a, n)
    ensures Legal(s, a, t, n - 1)
  {
    assert Top(s, n - 1) == Top(s, n)[1..];
  }

  /** The move between the two calls puts a disk on a larger one or on
      an empty rod, and keeps the target descending. */
  lemma LegalMove(s: seq<int>, t: seq<int>, a: seq<int>, n: nat)
    requires n >= 1 && Legal(s, t, a, n)
    ensures t == [] || t[|t| - 1] > s[|s| - n]
    ensures Descending(t + [s[|s| - n]])
  {
    var d := s[|s| - n];
    assert Top(s, n)[0] == d;
    DescendingAppend(t, [d]);
  }

  /** The second recursive call starts legal, from the rods the first
      call and the move leave. */
  lemma LegalSecond(s: seq<int>, t: seq<int>, a: seq<int>, n: nat)
    requires n >= 2 && Legal(s, t, a, n)
    ensures Legal(a + Top(s, n - 1), t + [s[|s| - n]], s[..|s| - n], n - 1)
  {
    var top := Top(s, n - 1);
    TopSplit(s, n);
    DescendingAppend(a, top);
    LegalMove(s, t, a, n);
    assert Top(a + top, n - 1) == top;
    TopSmaller(s, t, n);
    TopAbove(s, n);
  }

  /** The top `n - 1` disks are smaller than the target with the disk
      under them on it. */
  lemma TopSmaller(s: seq<int>, t: seq<int>, n: nat)
    requires 2 <= n <= |s| && Descending(s) && Smaller(Top(s, n), t)
    ensures Smaller(Top(s, n - 1), t + [s[|s| - n]])
  {
    var top, t' := Top(s, n - 1), t + [s[|s| - n]];
    forall i, j | 0 <= i < |top| && 0 <= j < |t'| ensures top[i] < t'[j] {
      assert top[i] == s[|s| - n + 1 + i] == Top(s, n)[i + 1];
    }
  }

  /** The top `n - 1` disks are smaller than what stays under the top `n`. */
  lemma TopAbove(s: seq<int>, n: nat)
    requires 1 <= n <= |s| && Descending(s)
    ensures Smaller(Top(s, n - 1), s[..|s| - n])
  {
    var top, rest := Top(s, n - 1), s[..|s| - n];
    forall i, j | 0 <= i < |top| && 0 <= j < |rest| ensures top[i] < rest[j] {
      assert top[i] == s[|s| - n + 1 + i];
    }
  }

  class Rods<Rod(==)> {
    var rods: map<Rod, seq<int>>
    /** How many disks have been moved. */
    ghost var moves: nat
    /** Whether no disk has been put on a smaller one. */
    ghost var legal: bool

    constructor(rods: map<Rod, seq<int>>)
      ensures this.rods == rods && moves == 0 && legal
    {
      this.rods := rods;
      moves := 0;
      legal := true;
    }

    /** `disk = rods[source].pop(); rods[target].append(disk)`. */
    method Move(source: Rod, target: Rod)
      requires source in rods && target in rods && source != target && rods[source] != []
      modifies this
      ensures rods.Keys == old(rods.Keys)
      ensures var s := old(rods[source]); rods[source] == s[..|s| - 1] && rods[target] == old(rods[target]) + [s[|s| - 1]]
      ensures forall k | k in rods && k != source && k != target :: rods[k] == old(rods[k])
      ensures moves == old(moves) + 1
      ensures var s, t := old(rods[source]), old(rods[target]);
              legal == (old(legal) && (t == [] || t[|t| - 1] > s[|s| - 1]))
    {
      var from := rods[source];
      var disk := from[|from| - 1];
      rods := rods[source := from[..|from| - 1]];
      var onto := rods[target];
      legal := legal && (onto == [] || onto[|onto| - 1] > disk);
      rods := rods[target := onto + [disk]];
      moves := moves + 1;
    }

    /** `hanoi_tower(n, source, target, auxiliary, rods)`. */
    method Hanoi(n: nat, source: Rod, target: Rod, auxiliary: Rod)
      requires n >= 1
      requires source in rods && target in rods && auxiliary in rods
      requires source != target && target != auxiliary && source != auxiliary
      requires n <= |rods[source]|
      modifies this
      ensures rods.Keys == old(rods.Keys)
      ensures var s := old(rods[source]); rods[source] == s[..|s| - n] && rods[target] == old(rods[target]) + Top(s, n)
      ensures forall k | k in rods && k != source && k != target :: rods[k] == old(rods[k])
      ensures moves == old(moves) + Pow2(n) - 1
      ensures Legal(old(rods[source]), old(rods[target]), old(rods[auxiliary]), n) ==>
                (old(legal) ==> legal) && Descending(rods[source]) && Descending(rods[target]) && Descending(rods[auxiliary])
      decreases n
    {
      ghost var s, t, a := rods[source], rods[target], rods[auxiliary];
      ghost var ok := Legal(s, t, a, n);
      if n == 1 {
        if ok {
          LegalMove(s, t, a, n);
        }
        Move(source, target);
        assert Top(s, 1) == [s[|s| - 1]];
        return;
      }
      if ok {
        LegalFirst(s, t, a, n);
        LegalMove(s, t, a, n);
        LegalSecond(s, t, a, n);
      }
      Hanoi(n - 1, source, auxiliary, target);
      assert rods[source] == s[..|s| - (n - 1)];
      assert rods[auxiliary] == a + Top(s, n - 1);
      assert rods[target] == t;
      assert s[..|s| - (n - 1)][..|s| - n] == s[..|s| - n];
      Move(source, target);
      assert rods[source] == s[..|s| - n];
      assert rods[auxiliary] == a + Top(s, n - 1);
      assert rods[target] == t + [s[|s| - n]];
      Hanoi(n - 1, auxiliary, target, source);
      OnTop(a, Top(s, n - 1));
      Restack(t, s, n);
    }
  }

  /** `list(range(n, 0, -1))`: disks `n` down to 1, largest at the bottom. */
  function Countdown(n: nat): (s: seq<int>)
    ensures |s| == n && forall i | 0 <= i < n :: s[i] == n - i
  {
    if n == 0 then [] else [n] + Countdown(n - 1)
  }

  /** The whole puzzle: `n` disks on rod 'A', moved to 'C' through 'B',
      end all on 'C' in the same order, and no disk is ever put on a
      smaller one.  For `n <= 0` the recursion never reaches its base case
      `n == 1` and Python stops it with a RecursionError, which the menu
      loop catches. */
  method SolvePuzzle(n: int) returns (r: Result<(seq<int>, seq<int>, seq<int>)>, ghost legal: bool)
    ensures n <= 0 <==> r == Raise(RecursionError)
    ensures n >= 1 ==> r == Ok(([], [], Countdown(n))) && legal
  {
    if n <= 0 {
      return Raise(RecursionError), false;
    }
    var disks := Countdown(n);
    var rods := new Rods(map['A' := disks, 'B' := [], 'C' := []]);
    assert Legal(disks, [], [], n);
    rods.Hanoi(n, 'A', 'C', 'B');
    var a, b, c := rods.rods['A'], rods.rods['B'], rods.rods['C'];
    legal := rods.legal;
    assert Top(disks, n) == disks;
    assert a == [] && b == [] && c == disks;
    r := Ok((a, b, c));
  }
}
