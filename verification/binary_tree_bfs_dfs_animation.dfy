/** The colour helpers and the node collection of the tree traversal
    animation: colours written as "#RRGGBB", a gradient of colours from a
    start colour to an end colour, and the nodes of a linked tree in
    preorder, collected with an explicit stack. */
module Animation {
  import opened Wrappers
  import opened Pyramid
  import Seqs

  // ---------------------------------------------------------------------
  // Hexadecimal colours.

  type Rgb = (int, int, int)

  predicate IsHexDigit(c: char)
  {
    '0' <= c <= '9' || 'a' <= c <= 'f' || 'A' <= c <= 'F'
  }

  function HexValue(c: char): (d: nat)
    requires IsHexDigit(c)
    ensures d < 16
  {
    if '0' <= c <= '9' then c as int - '0' as int
    else if 'a' <= c <= 'f' then c as int - 'a' as int + 10
    else c as int - 'A' as int + 10
  }

  /** The upper-case digit of `d`. */
  function HexChar(d: nat): (c: char)
    requires d < 16
    ensures IsHexDigit(c) && HexValue(c) == d && !('a' <= c <= 'z')
  {
    if d < 10 then ('0' as int + d) as char else ('A' as int + d - 10) as char
  }

  /** `int(g, 16)` for the one or two characters a slice of the colour
      gives: hexadecimal digits read as a number, anything else (an empty
      slice included) a ValueError. */
  function ParseHexGroup(g: string): (r: Result<int>)
    ensures r.Ok? <==> 1 <= |g| <= 2 && forall k | 0 <= k < |g| :: IsHexDigit(g[k])
    ensures r.Ok? ==> 0 <= r.value < 256
    ensures r.Raise? ==> r.error == ValueError
  {
    if |g| == 1 && IsHexDigit(g[0]) then Ok(HexValue(g[0]))
    else if |g| == 2 && IsHexDigit(g[0]) && IsHexDigit(g[1]) then Ok(16 * HexValue(g[0]) + HexValue(g[1]))
    else Raise(ValueError)
  }

  /** `s.lstrip("#")`. */
  function StripHashes(s: string): (t: string)
    ensures t == [] || t[0] != '#'
    ensures |t| <= |s| && t == s[|s| - |t|..]
  {
    if s != [] && s[0] == '#' then StripHashes(s[1..]) else s
  }

  /** A single '#' before a character that is not '#' is dropped. */
  lemma StripOne(s: string)
    requires |s| >= 2 && s[0] == '#' && s[1] != '#'
    ensures StripHashes(s) == s[1..]
  {
    assert StripHashes(s) == StripHashes(s[1..]);
  }

  /** Python's slice `s[i:j]` for `0 <= i <= j`: the bounds are cut down to
      the length. */
  function Slice(s: string, i: nat, j: nat): (t: string)
    requires i <= j
    ensures |t| <= j - i
  {
    if |s| <= i then [] else if |s| <= j then s[i..] else s[i..j]
  }

  /** `hex_to_rgb`: the leading '#' characters are dropped and the first
      three pairs of characters read as hexadecimal numbers. */
  function HexToRgb(hexColor: string): (r: Result<Rgb>)
    ensures r.Ok? ==> 0 <= r.value.0 < 256 && 0 <= r.value.1 < 256 && 0 <= r.value.2 < 256
    ensures r.Raise? ==> r.error == ValueError
  {
    var h := StripHashes(hexColor);
    match (ParseHexGroup(Slice(h, 0, 2)), ParseHexGroup(Slice(h, 2, 4)), ParseHexGroup(Slice(h, 4, 6)))
    case (Ok(r), Ok(g), Ok(b)) => Ok((r, g, b))
    case _ => Raise(ValueError)
  }

  /** The upper-case hexadecimal digits of `n`, without leading zeros. */
  function HexDigits(n: nat): (t: string)
    ensures 1 <= |t| && forall k | 0 <= k < |t| :: IsHexDigit(t[k])
    ensures n < 16 <==> |t| == 1
  {
    if n < 16 then [HexChar(n)] else HexDigits(n / 16) + [HexChar(n % 16)]
  }

  /** `f"{x:02X}"`: upper-case hexadecimal, padded with zeros to two
      characters; a negative number gets a minus sign before its digits. */
  function Hex2(x: int): (t: string)
    ensures |t| >= 2
    ensures 0 <= x < 256 ==> |t| == 2
  {
    if x < 0 then "-" + HexDigits(-x)
    else if x < 16 then "0" + HexDigits(x)
    else HexDigits(x)
  }

  /** `rgb_to_hex`: '#' and at least two characters per component, exactly
      two for a component from 0 to 255. */
  function RgbToHex(c: Rgb): (h: string)
    ensures |h| >= 7 && h[0] == '#'
    ensures InByteRange(c) ==> |h| == 7
  {
    "#" + Hex2(c.0) + Hex2(c.1) + Hex2(c.2)
  }

  predicate InByteRange(c: Rgb)
  {
    0 <= c.0 < 256 && 0 <= c.1 < 256 && 0 <= c.2 < 256
  }

  /** A component from 0 to 255 is written as exactly two upper-case
      digits, which read back as the component. */
  lemma Hex2Byte(x: int)
    requires 0 <= x < 256
    ensures Hex2(x) == [HexChar(x / 16), HexChar(x % 16)]
    ensures ParseHexGroup(Hex2(x)) == Ok(x)
  {
    if x >= 16 {
      assert HexDigits(x / 16) == [HexChar(x / 16)];
    }
  }

  /** A colour with components from 0 to 255 is written as '#' and six
      upper-case hexadecimal digits. */
  lemma RgbToHexShape(c: Rgb)
    requires InByteRange(c)
    ensures var t := RgbToHex(c);
      |t| == 7 && t[0] == '#' && forall k | 1 <= k < 7 :: IsHexDigit(t[k]) && !('a' <= t[k] <= 'z')
  {
    Hex2Byte(c.0);
    Hex2Byte(c.1);
    Hex2Byte(c.2);
  }

  /** `hex_to_rgb(rgb_to_hex(c)) == c` for components from 0 to 255. */
  lemma RgbRoundTrip(c: Rgb)
    requires InByteRange(c)
    ensures HexToRgb(RgbToHex(c)) == Ok(c)
  {
    var t := RgbToHex(c);
    RgbToHexShape(c);
    Hex2Byte(c.0);
    Hex2Byte(c.1);
    Hex2Byte(c.2);
    StripOne(t);
    var h := t[1..];
    assert Slice(h, 0, 2) == Hex2(c.0);
    assert Slice(h, 2, 4) == Hex2(c.1);
    assert Slice(h, 4, 6) == Hex2(c.2);
  }

  function UpperChar(c: char): char
  {
    if 'a' <= c <= 'z' then (c as int - 'a' as int + 'A' as int) as char else c
  }

  /** `s.upper()` on ASCII text. */
  function Upper(s: string): (t: string)
    ensures |t| == |s| && forall k | 0 <= k < |s| :: t[k] == UpperChar(s[k])
  {
    if s == [] then [] else [UpperChar(s[0])] + Upper(s[1..])
  }

  /** '#' followed by exactly six hexadecimal digits. */
  predicate CanonicalHex(s: string)
  {
    |s| == 7 && s[0] == '#' && forall k | 1 <= k < 7 :: IsHexDigit(s[k])
  }

  /** Two hexadecimal digits read and written back come out upper-cased. */
  lemma HexPairRoundTrip(d1: char, d2: char)
    requires IsHexDigit(d1) && IsHexDigit(d2)
    ensures Hex2(16 * HexValue(d1) + HexValue(d2)) == [UpperChar(d1), UpperChar(d2)]
  {
    var x := 16 * HexValue(d1) + HexValue(d2);
    Hex2Byte(x);
    assert x / 16 == HexValue(d1) && x % 16 == HexValue(d2);
  }

  /** A canonical colour is read, and written back upper-cased. */
  lemma CanonicalRoundTrip(s: string)
    requires CanonicalHex(s)
    ensures HexToRgb(s).Ok? && RgbToHex(HexToRgb(s).value) == Upper(s)
  {
    CanonicalRead(s);
    CanonicalWritten(s);
    CanonicalUpper(s);
  }

  /** '#' and the six digits of a canonical colour, upper-cased. */
  function UpperDigits(s: string): string
    requires CanonicalHex(s)
  {
    ['#', UpperChar(s[1]), UpperChar(s[2]), UpperChar(s[3]), UpperChar(s[4]), UpperChar(s[5]), UpperChar(s[6])]
  }

  lemma CanonicalWritten(s: string)
    requires CanonicalHex(s)
    ensures RgbToHex(CanonicalValue(s)) == UpperDigits(s)
  {
    var c := CanonicalValue(s);
    HexPairRoundTrip(s[1], s[2]);
    HexPairRoundTrip(s[3], s[4]);
    HexPairRoundTrip(s[5], s[6]);
    assert RgbToHex(c) == "#" + [UpperChar(s[1]), UpperChar(s[2])] + [UpperChar(s[3]), UpperChar(s[4])] + [UpperChar(s[5]), UpperChar(s[6])];
  }

  lemma CanonicalUpper(s: string)
    requires CanonicalHex(s)
    ensures Upper(s) == UpperDigits(s)
  {
    var u, w := Upper(s), UpperDigits(s);
    assert forall k | 0 <= k < 7 :: u[k] == w[k];
  }

  /** The three components a canonical colour spells. */
  function CanonicalValue(s: string): Rgb
    requires CanonicalHex(s)
  {
    (16 * HexValue(s[1]) + HexValue(s[2]), 16 * HexValue(s[3]) + HexValue(s[4]), 16 * HexValue(s[5]) + HexValue(s[6]))
  }

  lemma CanonicalRead(s: string)
    requires CanonicalHex(s)
    ensures HexToRgb(s) == Ok(CanonicalValue(s))
  {
    StripOne(s);
    var h := s[1..];
    assert Slice(h, 0, 2) == [s[1], s[2]];
    assert Slice(h, 2, 4) == [s[3], s[4]];
    assert Slice(h, 4, 6) == [s[5], s[6]];
  }

  // ---------------------------------------------------------------------
  // Gradients.

  /** Python's `int(x)` of a quotient `p / q`, `q > 0`: rounded toward
      zero. */
  function TruncDiv(p: int, q: int): int
    requires q > 0
  {
    if p >= 0 then p / q else -((-p) / q)
  }

  /** `int(a + (b - a) * t)` with `t = i / m`, in exact arithmetic. */
  function Mix(a: int, b: int, i: nat, m: nat): int
    requires m > 0
  {
    TruncDiv(a * m + (b - a) * i, m)
  }

  function MixRgb(s: Rgb, e: Rgb, i: nat, m: nat): Rgb
    requires m > 0
  {
    (Mix(s.0, e.0, i, m), Mix(s.1, e.1, i, m), Mix(s.2, e.2, i, m))
  }

  /** The `i`-th colour of a gradient of `m + 1` colours from `s` to `e`. */
  function GradientColor(s: Rgb, e: Rgb, i: nat, m: nat): string
    requires m > 0
  {
    RgbToHex(MixRgb(s, e, i, m))
  }

  /** The values of `f` at `0`, `1`, ..., `n - 1`, in order. */
  function Tabulate(f: nat -> string, n: nat): (g: seq<string>)
    ensures |g| == n
  {
    if n == 0 then [] else Tabulate(f, n - 1) + [f(n - 1)]
  }

  /** Each entry of `Tabulate` is the value at its own index. */
  lemma {:induction false} TabulateAt(f: nat -> string, n: nat, k: nat)
    requires k < n
    ensures Tabulate(f, n)[k] == f(k)
  {
    if k < n - 1 {
      TabulateAt(f, n - 1, k);
      assert Tabulate(f, n) == Tabulate(f, n - 1) + [f(n - 1)];
    }
  }

  /** The first `n` colours of a gradient of `m + 1` colours. */
  function Gradient(s: Rgb, e: Rgb, n: nat, m: nat): (g: seq<string>)
    requires m > 0
  {
    Tabulate((i: nat) => GradientColor(s, e, i, m), n)
  }

  /** Colour `k` of the gradient is the colour mixed at step `k`. */
  lemma GradientAt(s: Rgb, e: Rgb, n: nat, m: nat, k: nat)
    requires m > 0 && k < n
    ensures |Gradient(s, e, n, m)| == n
    ensures Gradient(s, e, n, m)[k] == GradientColor(s, e, k, m)
  {
    TabulateAt((i: nat) => GradientColor(s, e, i, m), n, k);
  }

  /** A mixed component lies between the two components it mixes, and is
      each of them at either end. */
  lemma MixBetween(a: int, b: int, i: nat, m: nat)
    requires m > 0 && i <= m && a >= 0 && b >= 0
    ensures a <= b ==> a <= Mix(a, b, i, m) <= b
    ensures b <= a ==> b <= Mix(a, b, i, m) <= a
    ensures i == 0 ==> Mix(a, b, i, m) == a
    ensures i == m ==> Mix(a, b, i, m) == b
  {
    var p := a * m + (b - a) * i;
    NonNegativeProduct(a, m - i);
    NonNegativeProduct(b, i);
    assert p == a * (m - i) + b * i;
    if a <= b {
      NonNegativeProduct(b - a, i);
      NonNegativeProduct(b - a, m - i);
      assert p - a * m == (b - a) * i;
      assert b * m - p == (b - a) * (m - i);
      DivBetween(p, m, a, b);
    } else {
      NonNegativeProduct(a - b, i);
      NonNegativeProduct(a - b, m - i);
      assert a * m - p == (a - b) * i;
      assert p - b * m == (a - b) * (m - i);
      DivBetween(p, m, b, a);
    }
    if i == 0 {
      DivBetween(p, m, a, a);
    }
    if i == m {
      assert p == b * m;
      DivBetween(p, m, b, b);
    }
  }

  lemma NonNegativeProduct(x: int, y: int)
    requires x >= 0 && y >= 0
    ensures x * y >= 0
  {
  }

  /** A quotient by `m` of a number between `lo * m` and `hi * m` lies
      between `lo` and `hi`. */
  lemma DivBetween(p: int, m: int, lo: int, hi: int)
    requires m > 0 && lo * m <= p <= hi * m
    ensures lo <= p / m <= hi
  {
    var q := p / m;
    assert p == m * q + p % m;
    if q < lo {
      MulMonotone(m, q + 1, lo);
      assert false;
    }
    if q > hi {
      MulMonotone(m, hi + 1, q);
      assert false;
    }
  }

  lemma MulMonotone(m: int, x: int, y: int)
    requires m >= 0 && x <= y
    ensures m * x <= m * y
  {
    NonNegativeProduct(m, y - x);
  }

  /** Every colour of a gradient between colours with components from 0 to
      255 is itself a canonical colour. */
  lemma GradientColorCanonical(s: Rgb, e: Rgb, i: nat, m: nat)
    requires m > 0 && i <= m && InByteRange(s) && InByteRange(e)
    ensures CanonicalHex(GradientColor(s, e, i, m))
  {
    MixBetween(s.0, e.0, i, m);
    MixBetween(s.1, e.1, i, m);
    MixBetween(s.2, e.2, i, m);
    RgbToHexShape(MixRgb(s, e, i, m));
  }

  /** The first colour of a gradient between canonical colours is the start
      colour and the last is the end colour, both upper-cased. */
  lemma GradientEnds(startHex: string, endHex: string, m: nat)
    requires m > 0 && CanonicalHex(startHex) && CanonicalHex(endHex)
    ensures HexToRgb(startHex).Ok? && HexToRgb(endHex).Ok?
    ensures GradientColor(HexToRgb(startHex).value, HexToRgb(endHex).value, 0, m) == Upper(startHex)
    ensures GradientColor(HexToRgb(startHex).value, HexToRgb(endHex).value, m, m) == Upper(endHex)
  {
    CanonicalRoundTrip(startHex);
    CanonicalRoundTrip(endHex);
    var s, e := HexToRgb(startHex).value, HexToRgb(endHex).value;
    MixBetween(s.0, e.0, 0, m);
    MixBetween(s.1, e.1, 0, m);
    MixBetween(s.2, e.2, 0, m);
    MixBetween(s.0, e.0, m, m);
    MixBetween(s.1, e.1, m, m);
    MixBetween(s.2, e.2, m, m);
    assert MixRgb(s, e, 0, m) == s && MixRgb(s, e, m, m) == e;
  }

  /** `make_gradient_colors`: no colours for `n <= 0`, the end colour
      upper-cased for `n == 1`, and otherwise `n` colours stepping from the
      start colour to the end colour; an unreadable start or end colour is
      a ValueError. */
  method MakeGradientColors(n: int, startHex: string, endHex: string) returns (r: Result<seq<string>>)
    ensures n <= 0 ==> r == Ok([])
    ensures n == 1 ==> r == Ok([Upper(endHex)])
    ensures n >= 2 && (HexToRgb(startHex).Raise? || HexToRgb(endHex).Raise?) ==> r == Raise(ValueError)
    ensures n >= 2 && HexToRgb(startHex).Ok? && HexToRgb(endHex).Ok? ==>
              r == Ok(Gradient(HexToRgb(startHex).value, HexToRgb(endHex).value, n, n - 1))
  {
    if n <= 0 {
      return Ok([]);
    }
    if n == 1 {
      return Ok([Upper(endHex)]);
    }
    var start := HexToRgb(startHex);
    if start.Raise? {
      return Raise(start.error);
    }
    var end := HexToRgb(endHex);
    if end.Raise? {
      return Raise(end.error);
    }
    var s, e := start.value, end.value;
    var colors: seq<string> := [];
    for i := 0 to n
      invariant colors == Gradient(s, e, i, n - 1)
    {
      colors := colors + [GradientColor(s, e, i, n - 1)];
    }
    return Ok(colors);
  }

  // ---------------------------------------------------------------------
  // Collecting the nodes of a linked tree.

  /** The shape of a linked tree, naming its node objects. */
  datatype Shape = Empty | Branch(node: Node, left: Shape, right: Shape)

  /** The nodes of a shape. */
  function Objects(t: Shape): set<Node>
  {
    match t
    case Empty => {}
    case Branch(x, l, r) => {x} + Objects(l) + Objects(r)
  }

  /** `n` is the root of a linked tree of shape `t`: every node's `left`
      and `right` fields lead to the roots of its subtrees. */
  predicate Links(n: Node?, t: Shape)
    reads Objects(t)
  {
    match t
    case Empty => n == null
    case Branch(x, l, r) => n == x && Links(x.left, l) && Links(x.right, r)
  }

  /** The nodes in preorder: a node, then its left subtree, then its right
      subtree. */
  function Preorder(t: Shape): seq<Node>
  {
    match t
    case Empty => []
    case Branch(x, l, r) => [x] + Preorder(l) + Preorder(r)
  }

  /** The nodes still to visit for a stack of subtrees, the top last. */
  function Pending(stack: seq<Shape>): seq<Node>
  {
    if stack == [] then [] else Preorder(stack[|stack| - 1]) + Pending(stack[..|stack| - 1])
  }

  /** The nodes of a stack of subtrees. */
  function Forest(stack: seq<Shape>): set<Node>
  {
    if stack == [] then {} else Forest(stack[..|stack| - 1]) + Objects(stack[|stack| - 1])
  }

  /** `nodes` holds the roots of a stack of non-empty linked subtrees. */
  predicate Stacked(nodes: seq<Node>, stack: seq<Shape>)
    reads Forest(stack)
  {
    |nodes| == |stack| &&
    (stack != [] ==>
      var top := stack[|stack| - 1];
      top.Branch? && Links(nodes[|nodes| - 1], top) && Stacked(nodes[..|nodes| - 1], stack[..|stack| - 1]))
  }

  /** `collect_nodes_iterative`: pops a node, appends it, and pushes its
      right child and then its left child, until the stack is empty.  The
      nodes come out in preorder. */
  method CollectNodes(root: Node, ghost tree: Shape) returns (nodes: seq<Node>)
    requires Links(root, tree)
    ensures nodes == Preorder(tree)
  {
    nodes := [];
    var stack: seq<Node> := [root];
    ghost var shapes: seq<Shape> := [tree];
    assert Stacked(stack, shapes) by {
      assert stack[..0] == [] && shapes[..0] == [];
    }
    while stack != []
      invariant Stacked(stack, shapes)
      invariant nodes + Pending(shapes) == Preorder(tree)
      decreases |Pending(shapes)|
    {
      var top := |stack| - 1;
      var node := stack[top];
      ghost var t, rest, done := shapes[top], shapes[..top], nodes;
      assert shapes == rest + [t];
      Pop(stack, shapes);
      stack, shapes := stack[..top], rest;
      nodes := nodes + [node];
      if node.right != null {
        Push(stack, shapes, node.right, t.right);
        stack, shapes := stack + [node.right], shapes + [t.right];
      }
      ghost var withRight := shapes;
      if node.left != null {
        Push(stack, shapes, node.left, t.left);
        stack, shapes := stack + [node.left], shapes + [t.left];
      }
      PendingPush(rest, t.left, t.right, withRight, shapes);
      PopStep(done, t, rest);
    }
  }

  /** The top of a well-formed stack is the root of a non-empty linked
      subtree whose children are the roots of its subtrees, and below it
      the stack is well formed. */
  lemma Pop(nodes: seq<Node>, stack: seq<Shape>)
    requires Stacked(nodes, stack) && stack != []
    ensures var n, t := nodes[|nodes| - 1], stack[|stack| - 1];
      t.Branch? && n == t.node && Links(n.left, t.left) && Links(n.right, t.right)
    ensures Stacked(nodes[..|nodes| - 1], stack[..|stack| - 1])
  {
  }

  /** Pushing the root of a non-empty linked subtree keeps the stack
      well formed. */
  lemma Push(nodes: seq<Node>, stack: seq<Shape>, n: Node, t: Shape)
    requires Stacked(nodes, stack) && t.Branch? && Links(n, t)
    ensures Stacked(nodes + [n], stack + [t])
  {
    assert (nodes + [n])[..|nodes|] == nodes;
    assert (stack + [t])[..|stack|] == stack;
  }

  /** Visiting the node on top of the stack and pushing its subtrees keeps
      the visited nodes followed by the pending ones the same. */
  lemma PopStep(done: seq<Node>, t: Shape, rest: seq<Shape>)
    requires t.Branch?
    ensures (done + [t.node]) + (Preorder(t.left) + Preorder(t.right) + Pending(rest)) == done + Pending(rest + [t])
  {
    assert (rest + [t])[..|rest|] == rest;
    assert Pending(rest + [t]) == Preorder(t) + Pending(rest);
  }

  /** No node occurs twice in the shape. */
  predicate NoRepeats(t: Shape)
  {
    match t
    case Empty => true
    case Branch(x, l, r) =>
      x !in Objects(l) && x !in Objects(r) && Objects(l) !! Objects(r) && NoRepeats(l) && NoRepeats(r)
  }

  /** The preorder lists every node of the tree and nothing else. */
  lemma {:induction false} PreorderMember(t: Shape, y: Node)
    ensures y in Preorder(t) <==> y in Objects(t)
  {
    match t
    case Empty =>
    case Branch(x, l, r) =>
      PreorderMember(l, y);
      PreorderMember(r, y);
      assert Preorder(t) == [x] + Preorder(l) + Preorder(r);
  }

  /** When no node occurs twice in the tree, the preorder lists each node
      exactly once. */
  lemma {:induction false} PreorderOnce(t: Shape)
    requires NoRepeats(t)
    ensures forall i, j | 0 <= i < j < |Preorder(t)| :: Preorder(t)[i] != Preorder(t)[j]
  {
    match t
    case Empty =>
    case Branch(x, l, r) =>
      PreorderOnce(l);
      PreorderOnce(r);
      var s, sl, sr := Preorder(t), Preorder(l), Preorder(r);
      assert s == [x] + sl + sr;
      forall i, j | 0 <= i < j < |s| ensures s[i] != s[j] {
        if i == 0 {
          if j <= |sl| {
            assert s[j] == sl[j - 1];
            PreorderMember(l, s[j]);
          } else {
            assert s[j] == sr[j - 1 - |sl|];
            PreorderMember(r, s[j]);
          }
        } else if j <= |sl| {
          assert s[i] == sl[i - 1] && s[j] == sl[j - 1];
        } else if i > |sl| {
          assert s[i] == sr[i - 1 - |sl|] && s[j] == sr[j - 1 - |sl|];
        } else {
          assert s[i] == sl[i - 1] && s[j] == sr[j - 1 - |sl|];
          PreorderMember(l, s[i]);
          PreorderMember(r, s[j]);
        }
      }
  }

  /** Pushing a subtree puts its nodes first among those still to visit. */
  lemma PendingSnoc(stack: seq<Shape>, t: Shape)
    ensures Pending(stack + [t]) == Preorder(t) + Pending(stack)
  {
    var pushed := stack + [t];
    assert pushed[..|pushed| - 1] == stack;
  }

  /** The stack after one step holds the popped node's subtrees, the left
      one on top, above the rest; an empty subtree is not pushed. */
  lemma PendingPush(rest: seq<Shape>, l: Shape, r: Shape, withRight: seq<Shape>, after: seq<Shape>)
    requires withRight == if r.Branch? then rest + [r] else rest
    requires after == if l.Branch? then withRight + [l] else withRight
    ensures Pending(after) == Preorder(l) + Preorder(r) + Pending(rest)
  {
    var pl, pr, pn := Preorder(l), Preorder(r), Pending(rest);
    assert Pending(withRight) == pr + pn by {
      if r.Branch? {
        PendingSnoc(rest, r);
      } else {
        assert pr == [] && [] + pn == pn;
      }
    }
    if l.Branch? {
      PendingSnoc(withRight, l);
    } else {
      assert pl == [] && [] + (pr + pn) == pr + pn;
    }
    Seqs.Associative(pl, pr, pn);
  }
}
