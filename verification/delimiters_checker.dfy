/** A stack over a growable list, and the bracket checker that uses it:
    a text is symmetric when its round, square and curly brackets, read
    alone, are balanced and properly nested. */
module Delimiters {
  import opened Wrappers

  /** `Stack`: the last element of `items` is the top. */
  class Stack<T> {
    var items: seq<T>

    constructor()
      ensures items == []
    {
      items := [];
    }

    method Push(item: T)
      modifies this
      ensures items == old(items) + [item]
    {
      items := items + [item];
    }

    /** Removes and returns the top; `None`, changing nothing, when empty. */
    method Pop() returns (r: Option<T>)
      modifies this
      ensures old(items) == [] ==> r == None && items == []
      ensures old(items) != [] ==> r == Some(old(items)[|old(items)| - 1]) && items == old(items)[..|old(items)| - 1]
    {
      if |items| < 1 {
        return None;
      }
      r := Some(items[|items| - 1]);
      items := items[..|items| - 1];
    }

    function IsEmpty(): (b: bool)
      reads this
      ensures b <==> |items| == 0
    {
      |items| == 0
    }

    /** The top without removing it; `None` when empty. */
    function Peek(): (r: Option<T>)
      reads this
      ensures r.None? <==> IsEmpty()
      ensures r.Some? ==> r.value == items[|items| - 1]
    {
      if !IsEmpty() then Some(items[|items| - 1]) else None
    }
  }

  /** A push followed by a pop hands back the pushed item and leaves the
      stack as it was. */
  method PushThenPop<T>(s: Stack<T>, item: T) returns (r: Option<T>)
    modifies s
    ensures r == Some(item) && s.items == old(s.items)
  {
    s.Push(item);
    r := s.Pop();
    assert s.items == (old(s.items) + [item])[..|old(s.items)|];
  }

  const Symmetric: string := "Симетрично"
  const Asymmetric: string := "Несиметрично"

  predicate IsOpening(c: char)
  {
    c == '(' || c == '{' || c == '['
  }

  predicate IsClosing(c: char)
  {
    c == ')' || c == '}' || c == ']'
  }

  /** `matching_pairs`: the opening bracket each closing bracket closes. */
  function OpeningOf(c: char): (o: char)
    requires IsClosing(c)
    ensures IsOpening(o)
  {
    if c == ')' then '(' else if c == '}' then '{' else '['
  }

  /** The brackets of `s`, in order, without any other character. */
  function Brackets(s: string): (d: string)
    ensures forall k | 0 <= k < |d| :: IsOpening(d[k]) || IsClosing(d[k])
  {
    if s == [] then []
    else if IsOpening(s[0]) || IsClosing(s[0]) then [s[0]] + Brackets(s[1..])
    else Brackets(s[1..])
  }

  /** Balanced and properly nested brackets: empty, or an opening bracket,
      a nested inside, its own closing bracket and a nested rest. */
  predicate Nested(d: string)
    decreases |d|
  {
    d == [] ||
    (IsOpening(d[0]) &&
     exists i | 1 <= i < |d| :: IsClosing(d[i]) && OpeningOf(d[i]) == d[0] && Nested(d[1..i]) && Nested(d[i + 1..]))
  }

  /** What the checker's loop does with a stack `st` and the rest `s` of
      the text: the final stack, or `None` when a closing bracket finds an
      empty stack or the wrong opening bracket on top. */
  function Scan(st: seq<char>, s: string): Option<seq<char>>
    decreases |s|
  {
    if s == [] then Some(st)
    else if IsOpening(s[0]) then Scan(st + [s[0]], s[1..])
    else if IsClosing(s[0]) then
      if st == [] || st[|st| - 1] != OpeningOf(s[0]) then None else Scan(st[..|st| - 1], s[1..])
    else Scan(st, s[1..])
  }

  /** `check_delimiters`: pushes opening brackets, pops on a matching
      closing bracket, gives up on a mismatch, and at the end is
      symmetric when the stack is empty. */
  method CheckDelimiters(sequence: string) returns (r: string)
    ensures r == Symmetric || r == Asymmetric
    ensures r == Symmetric <==> Nested(Brackets(sequence))
  {
    var stack := new Stack<char>();
    ScanMeaning(sequence);
    for i := 0 to |sequence|
      invariant Scan(stack.items, sequence[i..]) == Scan([], sequence)
    {
      var c := sequence[i];
      assert sequence[i..] == [c] + sequence[i + 1..];
      if IsOpening(c) {
        stack.Push(c);
      } else if IsClosing(c) {
        if stack.IsEmpty() || stack.Peek() != Some(OpeningOf(c)) {
          return Asymmetric;
        }
        var _ := stack.Pop();
      }
    }
    assert sequence[|sequence|..] == [];
    return if stack.IsEmpty() then Symmetric else Asymmetric;
  }

  /** The checker accepts exactly the texts whose brackets are nested. */
  lemma ScanMeaning(s: string)
    ensures Scan([], s) == Some([]) <==> Nested(Brackets(s))
  {
    OnlyBrackets([], s);
    var d := Brackets(s);
    if Nested(d) {
      assert d[..|d|] == d;
      NestedScan(d, |d|, []);
      assert d[|d|..] == [];
    }
    if Scan([], d) == Some([]) {
      ScanNested([], d);
      assert [] + d == d;
    }
  }

  /** Characters other than brackets do not change what the loop does. */
  lemma {:induction false} OnlyBrackets(st: seq<char>, s: string)
    ensures Scan(st, s) == Scan(st, Brackets(s))
    decreases |s|
  {
    if s != [] {
      var d := Brackets(s[1..]);
      if IsOpening(s[0]) {
        OnlyBrackets(st + [s[0]], s[1..]);
        assert Brackets(s) == [s[0]] + d;
      } else if IsClosing(s[0]) {
        assert Brackets(s) == [s[0]] + d;
        if st != [] && st[|st| - 1] == OpeningOf(s[0]) {
          OnlyBrackets(st[..|st| - 1], s[1..]);
        }
      } else {
        OnlyBrackets(st, s[1..]);
      }
    }
  }

  /** A nested start of the text leaves the stack as it found it. */
  lemma {:induction false} NestedScan(s: string, n: nat, st: seq<char>)
    requires n <= |s| && Nested(s[..n])
    ensures Scan(st, s) == Scan(st, s[n..])
    decreases n
  {
    if n > 0 {
      var x := s[..n];
      var i :| 1 <= i < |x| && IsClosing(x[i]) && OpeningOf(x[i]) == x[0] && Nested(x[1..i]) && Nested(x[i + 1..]);
      var o, t, r, q := s[0], s[1..], s[i..], s[i + 1..];
      PieceSlices(s, n, i);
      ScanOpen(st, s);
      NestedScan(t, i - 1, st + [o]);
      ScanClose(st, o, r);
      NestedScan(q, n - i - 1, st);
    }
  }

  /** How the pieces of a nested start `s[..n]`, split at `i`, sit in `s`. */
  lemma PieceSlices(s: string, n: nat, i: nat)
    requires 1 <= i < n <= |s|
    ensures s[1..][..i - 1] == s[..n][1..i] && s[1..][i - 1..] == s[i..]
    ensures s[i..][0] == s[..n][i] && s[i..][1..] == s[i + 1..]
    ensures s[i + 1..][..n - i - 1] == s[..n][i + 1..] && s[i + 1..][n - i - 1..] == s[n..]
  {
  }

  /** An opening bracket is pushed. */
  lemma ScanOpen(st: seq<char>, s: string)
    requires s != [] && IsOpening(s[0])
    ensures Scan(st, s) == Scan(st + [s[0]], s[1..])
  {
  }

  /** A closing bracket pops its own opening bracket. */
  lemma ScanClose(st: seq<char>, o: char, s: string)
    requires s != [] && IsClosing(s[0]) && OpeningOf(s[0]) == o
    ensures Scan(st + [o], s) == Scan(st, s[1..])
  {
    assert (st + [o])[..|st|] == st;
  }

  /** A closing bracket that the loop gets past found its own opening
      bracket on top of the stack. */
  lemma ScanClosed(st: seq<char>, s: string)
    requires s != [] && IsClosing(s[0]) && Scan(st, s).Some?
    ensures st != [] && st[|st| - 1] == OpeningOf(s[0]) && Scan(st[..|st| - 1], s[1..]) == Scan(st, s)
  {
  }

  /** When the loop, started with a stack of opening brackets on a text of
      brackets, ends with an empty stack, the stack followed by the text
      is nested. */
  lemma {:induction false} ScanNested(st: seq<char>, d: string)
    requires forall k | 0 <= k < |st| :: IsOpening(st[k])
    requires forall k | 0 <= k < |d| :: IsOpening(d[k]) || IsClosing(d[k])
    requires Scan(st, d) == Some([])
    ensures Nested(st + d)
    decreases |d|
  {
    if d == [] {
      assert st + d == [];
    } else if IsOpening(d[0]) {
      ScanOpen(st, d);
      ScanNested(st + [d[0]], d[1..]);
      assert st + [d[0]] + d[1..] == st + d;
    } else {
      ScanClosed(st, d);
      var below, o, c := st[..|st| - 1], st[|st| - 1], d[0];
      ScanNested(below, d[1..]);
      InsertPair(below + d[1..], |below|, o, c);
      SpliceTop(st, d);
    }
  }

  /** The stack and the text with the top and the closing bracket taken
      out, and put back in. */
  lemma SpliceTop(st: seq<char>, d: string)
    requires st != [] && d != []
    ensures var below := st[..|st| - 1];
      Splice(below + d[1..], |below|, [st[|st| - 1], d[0]]) == st + d
  {
    var below := st[..|st| - 1];
    var w := below + d[1..];
    assert w[..|below|] == below && w[|below|..] == d[1..];
  }

  /** `w` with `p` put in before position `k`. */
  function Splice(w: string, k: nat, p: string): (z: string)
    requires k <= |w|
    ensures |z| == |w| + |p|
  {
    w[..k] + p + w[k..]
  }

  /** A matching pair of brackets put anywhere into a nested text keeps it
      nested. */
  lemma {:induction false} InsertPair(w: string, k: nat, o: char, c: char)
    requires Nested(w) && k <= |w|
    requires IsClosing(c) && OpeningOf(c) == o
    ensures Nested(Splice(w, k, [o, c]))
    decreases |w|
  {
    if k == 0 {
      InsertFront(w, o, c);
    } else {
      var i := Split(w);
      if k <= i {
        InsertPair(w[1..i], k - 1, o, c);
        InsertInside(w, k, [o, c], i);
      } else {
        InsertPair(w[i + 1..], k - i - 1, o, c);
        InsertAfter(w, k, [o, c], i);
      }
    }
  }

  /** Where the first bracket of a non-empty nested text is closed. */
  lemma Split(w: string) returns (i: nat)
    requires Nested(w) && w != []
    ensures 1 <= i < |w| && IsOpening(w[0]) && IsClosing(w[i]) && OpeningOf(w[i]) == w[0]
    ensures Nested(w[1..i]) && Nested(w[i + 1..])
  {
    i :| 1 <= i < |w| && IsClosing(w[i]) && OpeningOf(w[i]) == w[0] && Nested(w[1..i]) && Nested(w[i + 1..]);
  }

  /** A matching pair put in front of a nested text keeps it nested. */
  lemma InsertFront(w: string, o: char, c: char)
    requires Nested(w) && IsClosing(c) && OpeningOf(c) == o
    ensures Nested(Splice(w, 0, [o, c]))
  {
    var z := Splice(w, 0, [o, c]);
    assert z == [o, c] + w;
    assert z[1..1] == [] && z[2..] == w;
    Witness(z, 1);
  }

  /** Putting `p` in inside `w[1..i]` puts it in that part of the text. */
  lemma SpliceInside(w: string, k: nat, p: string, i: nat)
    requires 1 <= k <= i < |w|
    ensures var z, m := Splice(w, k, p), i + |p|;
      z[0] == w[0] && z[1..m] == Splice(w[1..i], k - 1, p) && z[m] == w[i] && z[m + 1..] == w[i + 1..]
  {
    var z, m, a := Splice(w, k, p), i + |p|, w[1..i];
    assert z == [w[0]] + (a[..k - 1] + p + a[k - 1..]) + w[i..];
  }

  /** Putting `p` in after position `i` puts it in `w[i + 1..]`. */
  lemma SpliceAfter(w: string, k: nat, p: string, i: nat)
    requires 1 <= i < k <= |w|
    ensures var z := Splice(w, k, p);
      z[0] == w[0] && z[1..i] == w[1..i] && z[i] == w[i] && z[i + 1..] == Splice(w[i + 1..], k - i - 1, p)
  {
    var z, b := Splice(w, k, p), w[i + 1..];
    assert z == w[..i + 1] + (b[..k - i - 1] + p + b[k - i - 1..]);
  }

  /** Nested text put into the inside of the first bracket pair keeps the
      text nested. */
  lemma InsertInside(w: string, k: nat, p: string, i: nat)
    requires 1 <= k <= i < |w| && IsOpening(w[0]) && IsClosing(w[i]) && OpeningOf(w[i]) == w[0]
    requires Nested(Splice(w[1..i], k - 1, p)) && Nested(w[i + 1..])
    ensures Nested(Splice(w, k, p))
  {
    SpliceInside(w, k, p, i);
    Witness(Splice(w, k, p), i + |p|);
  }

  /** Nested text put in after the first bracket pair keeps the text
      nested. */
  lemma InsertAfter(w: string, k: nat, p: string, i: nat)
    requires 1 <= i < k <= |w| && IsOpening(w[0]) && IsClosing(w[i]) && OpeningOf(w[i]) == w[0]
    requires Nested(w[1..i]) && Nested(Splice(w[i + 1..], k - i - 1, p))
    ensures Nested(Splice(w, k, p))
  {
    var z := Splice(w, k, p);
    SpliceAfter(w, k, p, i);
    Witness(z, i);
  }

  /** Names the split that makes `d` nested. */
  lemma Witness(d: string, i: nat)
    requires 1 <= i < |d| && IsOpening(d[0]) && IsClosing(d[i]) && OpeningOf(d[i]) == d[0]
    requires Nested(d[1..i]) && Nested(d[i + 1..])
    ensures Nested(d)
  {
  }
}
