/** String helpers with the semantics of the JavaScript built-ins the source
    relies on: `String.prototype.split` on a one-character separator,
    `Array.prototype.join`, `startsWith`, and number-to-string conversion. */
module Strings {

  /** `s.startsWith(p)`. */
  predicate StartsWith(s: string, p: string) {
    |p| <= |s| && s[..|p|] == p
  }

  /** A text starting with `p` starts with `p + q` exactly when its rest after `p` starts with `q`. */
  lemma StartsWithAppend(s: string, p: string, q: string)
    requires StartsWith(s, p)
    ensures StartsWith(s, p + q) <==> StartsWith(s[|p|..], q)
  {
    if StartsWith(s[|p|..], q) {
      assert s[..|p + q|] == s[..|p|] + s[|p|..][..|q|];
    }
    if StartsWith(s, p + q) {
      assert s[|p|..][..|q|] == s[..|p + q|][|p|..];
    }
  }

  /** A text starting with `p + q` starts with `p`. */
  lemma StartsWithShorter(s: string, p: string, q: string)
    ensures StartsWith(s, p + q) ==> StartsWith(s, p)
  {
    if StartsWith(s, p + q) {
      assert s[..|p|] == (p + q)[..|p|];
    }
  }

  /** `parts.join(c)`: the parts with one `c` between neighbours; `[].join(c)` is "". */
  function Join(parts: seq<string>, c: char): string
  {
    if |parts| == 0 then ""
    else if |parts| == 1 then parts[0]
    else parts[0] + [c] + Join(parts[1..], c)
  }

  /** The position of the first `c` in `s`, or `|s|` when there is none. */
  function FirstIndexOf(s: string, c: char): (i: nat)
    ensures i <= |s|
    ensures c !in s[..i]
    ensures i < |s| <==> c in s
    ensures i < |s| ==> s[i] == c
  {
    if |s| == 0 then 0
    else if s[0] == c then 0
    else
      assert s[1..][..FirstIndexOf(s[1..], c)] == s[1..1 + FirstIndexOf(s[1..], c)];
      1 + FirstIndexOf(s[1..], c)
  }

  /** `s.split(c)` for a one-character separator `c`: the text before the
      first `c`, then the segments of the text after it. There is always at
      least one segment ("".split(":") is [""]) and no segment contains `c`. */
  function Split(s: string, c: char): (parts: seq<string>)
    ensures |parts| >= 1
    ensures forall i :: 0 <= i < |parts| ==> c !in parts[i]
    decreases |s|
  {
    var i := FirstIndexOf(s, c);
    if i == |s| then [s]
    else [s[..i]] + Split(s[i + 1..], c)
  }

  /** A separator right after a separator-free prefix is the first one. */
  lemma {:induction false} FirstIndexOfAfter(a: string, c: char, b: string)
    requires c !in a
    ensures FirstIndexOf(a + [c] + b, c) == |a|
    decreases |a|
  {
    if |a| > 0 {
      assert (a + [c] + b)[1..] == a[1..] + [c] + b;
      FirstIndexOfAfter(a[1..], c, b);
    }
  }

  /** A separator-free text is its own single segment. */
  lemma SplitNoSeparator(s: string, c: char)
    requires c !in s
    ensures Split(s, c) == [s]
  {
  }

  /** A separator-free text followed by the separator is the first segment:
      `(a + c + b).split(c)` is `[a]` followed by `b.split(c)`. */
  lemma SplitAfter(a: string, c: char, b: string)
    requires c !in a
    ensures Split(a + [c] + b, c) == [a] + Split(b, c)
  {
    var s := a + [c] + b;
    FirstIndexOfAfter(a, c, b);
    assert s[..|a|] == a;
    assert s[|a| + 1..] == b;
  }

  /** Joining the segments of `s` back with the separator gives `s`. */
  lemma {:induction false} JoinSplit(s: string, c: char)
    ensures Join(Split(s, c), c) == s
    decreases |s|
  {
    var i := FirstIndexOf(s, c);
    if i < |s| {
      var t := s[i + 1..];
      assert Split(s, c) == [s[..i]] + Split(t, c);
      JoinSplit(t, c);
      JoinCons(s[..i], Split(t, c), c);
      assert s == s[..i] + [c] + t;
    } else {
      assert Split(s, c) == [s];
    }
  }

  /** Joining a part in front of a non-empty list puts one separator between. */
  lemma JoinCons(x: string, rest: seq<string>, c: char)
    requires |rest| >= 1
    ensures Join([x] + rest, c) == x + [c] + Join(rest, c)
  {
    assert ([x] + rest)[1..] == rest;
  }

  /** Splitting the join of separator-free parts gives the parts back. */
  lemma {:induction false} SplitJoin(parts: seq<string>, c: char)
    requires |parts| >= 1
    requires forall i :: 0 <= i < |parts| ==> c !in parts[i]
    ensures Split(Join(parts, c), c) == parts
    decreases |parts|
  {
    if |parts| > 1 {
      SplitJoin(parts[1..], c);
      SplitAfter(parts[0], c, Join(parts[1..], c));
      assert parts == [parts[0]] + parts[1..];
    }
  }

  /** The second segment runs from just after the first separator up to the
      next separator or the end. */
  lemma SplitSecondSegment(s: string, c: char)
    requires |Split(s, c)| >= 2
    ensures var p := Split(s, c);
      && StartsWith(s, p[0] + [c] + p[1])
      && (|p[0] + [c] + p[1]| == |s| || s[|p[0] + [c] + p[1]|] == c)
  {
    var i := FirstIndexOf(s, c);
    var t := s[i + 1..];
    var p := Split(s, c);
    var pt := Split(t, c);
    assert p[0] == s[..i] && p[1] == pt[0] by {
      assert p == [s[..i]] + pt;
    }
    SplitFirstSegment(t, c);
    SecondSegmentPrefix(s, i, c, pt[0]);
  }

  /** The first segment, the separator and a second segment `q` read from
      the rest form a prefix of `s` that ends at a separator or at the end. */
  lemma SecondSegmentPrefix(s: string, i: nat, c: char, q: string)
    requires i < |s| && s[i] == c
    requires StartsWith(s[i + 1..], q)
    requires |q| < |s[i + 1..]| ==> s[i + 1..][|q|] == c
    ensures StartsWith(s, s[..i] + [c] + q)
    ensures |s[..i] + [c] + q| == |s| || s[|s[..i] + [c] + q|] == c
  {
    var n := i + 1 + |q|;
    assert s[..n] == s[..i] + [c] + s[i + 1..][..|q|];
  }

  /** A string with exactly three segments is its segments joined by the separator. */
  lemma SplitThreeSegments(s: string, c: char)
    requires |Split(s, c)| == 3
    ensures var p := Split(s, c); s == p[0] + [c] + p[1] + [c] + p[2]
  {
    JoinSplit(s, c);
    JoinThree(Split(s, c), c);
  }

  /** Three parts joined are the parts with a separator between neighbours. */
  lemma JoinThree(p: seq<string>, c: char)
    requires |p| == 3
    ensures Join(p, c) == p[0] + [c] + p[1] + [c] + p[2]
  {
    assert p[1..][0] == p[1] && p[1..][1..] == p[2..] && p[2..][0] == p[2];
    assert Join(p[1..], c) == p[1] + [c] + p[2];
  }

  /** The first segment is the text before the first separator; there is a
      single segment exactly when `s` has no separator. */
  lemma SplitFirstSegment(s: string, c: char)
    ensures var p := Split(s, c);
      && StartsWith(s, p[0])
      && (|p[0]| < |s| ==> s[|p[0]|] == c)
      && (|p| == 1 <==> c !in s)
  {
  }

  /** A decimal digit. */
  predicate IsDigit(ch: char) {
    '0' <= ch <= '9'
  }

  /** Text made of decimal digits only. */
  predicate AllDigits(s: string) {
    forall i :: 0 <= i < |s| ==> IsDigit(s[i])
  }

  /** The character of a decimal digit value. */
  function DigitChar(d: nat): (ch: char)
    requires d < 10
    ensures IsDigit(ch)
  {
    (('0' as int) + d) as char
  }

  /** The value of a decimal digit character. */
  function DigitValue(ch: char): (d: nat)
    requires IsDigit(ch)
    ensures d < 10 && DigitChar(d) == ch
  {
    (ch as int - '0' as int) as nat
  }

  /** The decimal text of `n`, as JavaScript prints a non-negative integer:
      at least one digit, and no leading zero unless `n` is zero. */
  function NatToString(n: nat): (s: string)
    ensures |s| >= 1 && AllDigits(s)
    ensures s[0] == '0' ==> n == 0 && |s| == 1
    decreases n
  {
    if n < 10 then [DigitChar(n)]
    else NatToString(n / 10) + [DigitChar(n % 10)]
  }

  /** The value of a string of decimal digits; the inverse of `NatToString`. */
  function ParseDecimal(s: string): nat
    requires AllDigits(s)
    decreases |s|
  {
    if |s| == 0 then 0
    else ParseDecimal(s[..|s| - 1]) * 10 + DigitValue(s[|s| - 1])
  }

  /** Reading back the decimal text of `n` gives `n`. */
  lemma {:induction false} ParseNatToString(n: nat)
    ensures ParseDecimal(NatToString(n)) == n
    decreases n
  {
    var s := NatToString(n);
    if n < 10 {
      assert DigitValue(DigitChar(n)) == n;
    } else {
      ParseNatToString(n / 10);
      assert s[..|s| - 1] == NatToString(n / 10);
      assert DigitValue(DigitChar(n % 10)) == n % 10;
    }
  }

  /** The decimal texts of two numbers are equal only if the numbers are. */
  lemma NatToStringInjective(m: nat, n: nat)
    requires NatToString(m) == NatToString(n)
    ensures m == n
  {
    ParseNatToString(m);
    ParseNatToString(n);
  }

  /** Digits without a superfluous leading zero: the only text `NatToString`
      produces. */
  predicate CanonicalDigits(s: string) {
    |s| >= 1 && AllDigits(s) && (s[0] == '0' ==> |s| == 1)
  }

  /** Digits that start with a non-zero digit spell a positive number. */
  lemma {:induction false} ParseDecimalPositive(s: string)
    requires |s| >= 1 && AllDigits(s) && s[0] != '0'
    ensures ParseDecimal(s) >= 1
    decreases |s|
  {
    if |s| > 1 {
      ParseDecimalPositive(s[..|s| - 1]);
    }
  }

  /** Printing the value of canonical digits gives the digits back, so
      `NatToString` and `ParseDecimal` are inverse bijections between the
      naturals and the canonical digit strings. */
  lemma {:induction false} NatToStringParse(s: string)
    requires CanonicalDigits(s)
    ensures NatToString(ParseDecimal(s)) == s
    decreases |s|
  {
    var init, last := s[..|s| - 1], s[|s| - 1];
    if |s| == 1 {
      assert DigitChar(DigitValue(last)) == last;
    } else {
      assert init[0] == s[0];
      ParseDecimalPositive(init);
      NatToStringParse(init);
      var n := ParseDecimal(s);
      assert n == ParseDecimal(init) * 10 + DigitValue(last);
      assert n / 10 == ParseDecimal(init) && n % 10 == DigitValue(last);
      assert s == init + [last];
    }
  }

  /** JavaScript's conversion of an integer to text (`${k}`): a minus sign
      before the digits of a negative number, plain canonical digits
      otherwise. */
  function IntToString(k: int): (s: string)
    ensures |s| >= 1
    ensures k < 0 <==> s[0] == '-'
    ensures k >= 0 ==> CanonicalDigits(s) && ParseDecimal(s) == k
    ensures k < 0 ==> CanonicalDigits(s[1..]) && ParseDecimal(s[1..]) == -k
  {
    ParseNatToString(if k < 0 then -k else k);
    if k < 0 then
      assert ("-" + NatToString(-k))[1..] == NatToString(-k);
      "-" + NatToString(-k)
    else NatToString(k)
  }
}
