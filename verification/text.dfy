/** Decimal text of integers, as Python's `str` writes them, and lists of
    integers joined by a separator, with a parser that reads them back. */
module Text {
  import opened Wrappers

  predicate IsDigit(c: char)
  {
    '0' <= c <= '9'
  }

  function DigitChar(d: nat): (c: char)
    requires d < 10
    ensures IsDigit(c) && c as int - '0' as int == d
  {
    ('0' as int + d) as char
  }

  /** `str(n)` for `n >= 0`: the decimal digits, most significant first,
      with no leading zeros. */
  function NatText(n: nat): (t: string)
    ensures t != [] && forall k | 0 <= k < |t| :: IsDigit(t[k])
  {
    if n < 10 then [DigitChar(n)] else NatText(n / 10) + [DigitChar(n % 10)]
  }

  /** `str(x)`: a minus sign before the digits of a negative number. */
  function IntText(x: int): (t: string)
    ensures t != [] && (t[0] == '-' <==> x < 0)
  {
    if x < 0 then "-" + NatText(-x) else NatText(x)
  }

  /** The values written with `IntText` and joined by "->", as
      `"->".join(str(v) for v in values)` builds them. */
  function Joined(s: seq<int>): (t: string)
    ensures t == [] <==> s == []
  {
    if s == [] then ""
    else if |s| == 1 then IntText(s[0])
    else IntText(s[0]) + "->" + Joined(s[1..])
  }

  /** Adding a value at the end adds a separator and its text. */
  lemma {:induction false} JoinedSnoc(s: seq<int>, x: int)
    ensures Joined(s + [x]) == if s == [] then IntText(x) else Joined(s) + "->" + IntText(x)
  {
    var sx := s + [x];
    if |s| > 1 {
      assert sx[1..] == s[1..] + [x];
      assert Joined(sx) == IntText(s[0]) + "->" + Joined(s[1..] + [x]);
      JoinedSnoc(s[1..], x);
      assert Joined(s) == IntText(s[0]) + "->" + Joined(s[1..]);
    } else if |s| == 1 {
      assert sx[1..] == [x];
      assert Joined(sx) == IntText(s[0]) + "->" + Joined([x]);
    }
  }

  /** How many characters at the start of `t` are digits. */
  function LeadingDigits(t: string): (n: nat)
    ensures n <= |t| && (forall k | 0 <= k < n :: IsDigit(t[k])) && (n < |t| ==> !IsDigit(t[n]))
  {
    if t == [] || !IsDigit(t[0]) then 0 else 1 + LeadingDigits(t[1..])
  }

  function DigitValue(c: char): (d: nat)
    requires IsDigit(c)
    ensures d < 10
  {
    c as int - '0' as int
  }

  /** The number a string of digits denotes. */
  function DigitsValue(t: string): nat
    requires forall k | 0 <= k < |t| :: IsDigit(t[k])
  {
    if t == [] then 0
    else DigitsValue(t[..|t| - 1]) * 10 + DigitValue(t[|t| - 1])
  }

  /** Reads an optional minus sign and at least one digit from the front of
      `t`; returns the number and the text after it. */
  function ParseInt(t: string): (r: Option<(int, string)>)
    ensures r.Some? ==> |r.value.1| < |t|
  {
    if t != [] && t[0] == '-' then
      var k := LeadingDigits(t[1..]);
      if k == 0 then None else Some((-(DigitsValue(t[1..][..k]) as int), t[1..][k..]))
    else
      var k := LeadingDigits(t);
      if k == 0 then None else Some((DigitsValue(t[..k]), t[k..]))
  }

  /** Reads one or more numbers separated by "->" filling all of `t`. */
  function ParseItems(t: string): Option<seq<int>>
    decreases |t|
  {
    match ParseInt(t)
    case None => None
    case Some((x, rest)) =>
      if rest == "" then Some([x])
      else if |rest| >= 2 && rest[..2] == "->" then
        match ParseItems(rest[2..])
        case None => None
        case Some(xs) => Some([x] + xs)
      else None
  }

  /** Reads back a string built by `Joined`. */
  function ParseJoined(t: string): Option<seq<int>>
  {
    if t == "" then Some([]) else ParseItems(t)
  }

  /** The digits of `n` denote `n`. */
  lemma {:induction false} NatTextValue(n: nat)
    ensures DigitsValue(NatText(n)) == n
  {
    var t := NatText(n);
    if n >= 10 {
      NatTextValue(n / 10);
      assert t[..|t| - 1] == NatText(n / 10);
    }
  }

  /** The digits of `n`, followed by text that does not start with a digit,
      are read back as `n`. */
  lemma NatTextPrefix(n: nat, rest: string)
    requires rest == [] || !IsDigit(rest[0])
    ensures LeadingDigits(NatText(n) + rest) == |NatText(n)|
    ensures (NatText(n) + rest)[..|NatText(n)|] == NatText(n)
    ensures (NatText(n) + rest)[|NatText(n)|..] == rest
  {
    var t, u := NatText(n), NatText(n) + rest;
    var k := LeadingDigits(u);
    assert forall i | 0 <= i < |t| :: IsDigit(u[i]) by {
      forall i | 0 <= i < |t| ensures IsDigit(u[i]) { assert u[i] == t[i]; }
    }
    if rest != [] {
      assert u[|t|] == rest[0];
    }
  }

  /** `IntText(x)` followed by text starting with a minus sign, or by
      nothing, is read back as `x`. */
  lemma IntTextParse(x: int, rest: string)
    requires rest == [] || rest[0] == '-'
    ensures ParseInt(IntText(x) + rest) == Some((x, rest))
  {
    if x < 0 {
      NegativeParse(x, rest);
    } else {
      NonNegativeParse(x, rest);
    }
  }

  lemma NegativeParse(x: int, rest: string)
    requires x < 0 && (rest == [] || rest[0] == '-')
    ensures ParseInt(IntText(x) + rest) == Some((x, rest))
  {
    assert IntText(x) + rest == "-" + NatText(-x) + rest;
    MinusNatText(-x, rest);
  }

  /** A minus sign before the digits of `n` reads as `-n`. */
  lemma MinusNatText(n: nat, rest: string)
    requires rest == [] || !IsDigit(rest[0])
    ensures ParseInt("-" + NatText(n) + rest) == Some((-(n as int), rest))
  {
    var t := NatText(n);
    var u, v := "-" + t + rest, t + rest;
    assert u[0] == '-' && u[1..] == v;
    NatTextPrefix(n, rest);
    NatTextValue(n);
    assert LeadingDigits(v) == |t| && v[..|t|] == t && v[|t|..] == rest;
  }

  lemma NonNegativeParse(x: int, rest: string)
    requires x >= 0 && (rest == [] || rest[0] == '-')
    ensures ParseInt(IntText(x) + rest) == Some((x, rest))
  {
    var u, t := IntText(x) + rest, NatText(x);
    assert u == t + rest && u[0] != '-';
    NatTextPrefix(x, rest);
    NatTextValue(x);
    var k := LeadingDigits(u);
    assert k == |t| && u[..k] == t && u[k..] == rest;
    assert DigitsValue(u[..k]) == x;
  }

  /** A number, a separator and more numbers read as one list. */
  lemma ParseItemsStep(t: string, more: string, xs: seq<int>)
    requires xs != [] && ParseInt(t) == Some((xs[0], "->" + more)) && ParseItems(more) == Some(xs[1..])
    ensures ParseItems(t) == Some(xs)
  {
    Arrow(more);
    HeadTail(xs);
  }

  lemma Arrow(more: string)
    ensures var rest := "->" + more; |rest| >= 2 && rest[..2] == "->" && rest[2..] == more
  {
  }

  lemma HeadTail(xs: seq<int>)
    requires xs != []
    ensures [xs[0]] + xs[1..] == xs
  {
  }

  /** The text of one number reads as a one-element list. */
  lemma SingleItem(x: int)
    ensures ParseItems(IntText(x)) == Some([x])
  {
    IntTextParse(x, "");
    assert IntText(x) + "" == IntText(x);
  }

  /** Reading back the text of a non-empty list gives the list. */
  lemma {:induction false} JoinedItems(s: seq<int>)
    requires s != []
    ensures ParseItems(Joined(s)) == Some(s)
  {
    if |s| == 1 {
      SingleItem(s[0]);
      assert s == [s[0]];
    } else {
      var more := Joined(s[1..]);
      assert Joined(s) == IntText(s[0]) + ("->" + more);
      IntTextParse(s[0], "->" + more);
      JoinedItems(s[1..]);
      ParseItemsStep(Joined(s), more, s);
    }
  }

  /** `ParseJoined` inverts `Joined`. */
  lemma JoinedRoundTrip(s: seq<int>)
    ensures ParseJoined(Joined(s)) == Some(s)
  {
    if s != [] {
      JoinedItems(s);
    }
  }
}
