/** Sequence operations with the semantics of the JavaScript and underscore.js
    helpers the source uses: `Array.prototype.indexOf`, `_.uniq`,
    `_.flatten` (one level is all the source needs) and order-keeping filters. */
module Sequences {

  /** No element occurs twice. */
  predicate NoDuplicates<T(==)>(s: seq<T>) {
    forall i, j :: 0 <= i < j < |s| ==> s[i] != s[j]
  }

  /** The first two elements of a duplicate-free sequence differ. */
  lemma NoDuplicatesFirstTwo<T>(s: seq<T>)
    requires |s| > 1
    ensures NoDuplicates(s) ==> s[0] != s[1]
  {
  }

  /** `s.indexOf(x)`: the position of the first `x` in `s`, or -1 when `s`
      holds no `x`. */
  function IndexOf<T(==)>(s: seq<T>, x: T): (k: int)
    ensures -1 <= k < |s|
    ensures k == -1 <==> x !in s
    ensures k >= 0 ==> s[k] == x && x !in s[..k]
  {
    if |s| == 0 then -1
    else if s[0] == x then 0
    else
      var k := IndexOf(s[1..], x);
      if k == -1 then -1
      else
        assert s[..k + 1] == [s[0]] + s[1..][..k];
        k + 1
  }

  /** A position holding `x` with no `x` before it is the position `indexOf` reports. */
  lemma {:induction false} IndexOfFirst<T>(s: seq<T>, k: nat, x: T)
    requires k < |s| && s[k] == x && x !in s[..k]
    ensures IndexOf(s, x) == k
    decreases k
  {
    if k > 0 {
      assert s[0] == s[..k][0];
      assert s[1..][..k - 1] == s[..k][1..];
      IndexOfFirst(s[1..], k - 1, x);
    }
  }

  /** In a sequence without duplicates, the position of an element is its index. */
  lemma IndexOfDistinct<T>(s: seq<T>, i: nat)
    requires NoDuplicates(s) && i < |s|
    ensures IndexOf(s, s[i]) == i
  {
    assert forall j :: 0 <= j < i ==> s[..i][j] != s[i];
    IndexOfFirst(s, i, s[i]);
  }

  /** Appending never moves the first occurrence of an element already present. */
  lemma IndexOfAppend<T>(s: seq<T>, t: seq<T>, x: T)
    requires x in s
    ensures IndexOf(s + t, x) == IndexOf(s, x)
  {
    var k := IndexOf(s, x);
    assert (s + t)[..k] == s[..k];
    IndexOfFirst(s + t, k, x);
  }

  /** `_.uniq(xs)`: walk `xs` from the front, keeping each element the first
      time it is seen. Nothing is lost and nothing is repeated. */
  function Uniq<T(==,!new)>(xs: seq<T>): (r: seq<T>)
    ensures NoDuplicates(r)
    ensures forall x :: x in r <==> x in xs
    decreases |xs|
  {
    if |xs| == 0 then []
    else
      var prefix := xs[..|xs| - 1];
      var last := xs[|xs| - 1];
      var r := Uniq(prefix);
      assert xs == prefix + [last];
      if last in r then r else r + [last]
  }

  /** The deduplicated prefix is a prefix of the deduplicated whole. */
  lemma {:induction false} UniqPrefix<T(!new)>(xs: seq<T>, n: nat)
    requires n <= |xs|
    ensures |Uniq(xs[..n])| <= |Uniq(xs)|
    ensures Uniq(xs[..n]) == Uniq(xs)[..|Uniq(xs[..n])|]
    decreases |xs| - n
  {
    if n < |xs| {
      var ys := xs[..|xs| - 1];
      assert ys[..n] == xs[..n];
      UniqPrefix(ys, n);
    } else {
      assert xs[..n] == xs;
    }
  }

  /** Positions are handed out in first-seen order: an element's position in
      `_.uniq(xs)` is the number of distinct elements seen before its first
      occurrence in `xs`. */
  lemma UniqIndex<T(!new)>(xs: seq<T>, x: T)
    requires x in xs
    ensures IndexOf(Uniq(xs), x) == |Uniq(xs[..IndexOf(xs, x)])|
  {
    var k := IndexOf(xs, x);
    var before := Uniq(xs[..k]);
    var upTo := Uniq(xs[..k + 1]);
    assert xs[..k + 1][..k] == xs[..k];
    assert xs[..k + 1][k] == x;
    assert x !in before;
    assert upTo == before + [x];
    UniqPrefix(xs, k + 1);
    var r := Uniq(xs);
    assert r[|before|] == upTo[|before|] == x;
    IndexOfDistinct(r, |before|);
  }

  /** Elements of `_.uniq(xs)` come in the order of their first occurrences in `xs`. */
  lemma {:induction false} UniqFirstSeenOrder<T(!new)>(xs: seq<T>, i: nat, j: nat)
    requires i < j < |Uniq(xs)|
    ensures IndexOf(xs, Uniq(xs)[i]) < IndexOf(xs, Uniq(xs)[j])
    decreases |xs|
  {
    var prefix, last := xs[..|xs| - 1], xs[|xs| - 1];
    var r := Uniq(prefix);
    assert xs == prefix + [last];
    var a := Uniq(xs)[i];
    assert a in r;
    IndexOfAppend(prefix, [last], a);
    if j < |r| {
      UniqFirstSeenOrder(prefix, i, j);
      IndexOfAppend(prefix, [last], Uniq(xs)[j]);
    } else {
      assert Uniq(xs)[j] == last && last !in prefix;
      assert IndexOf(xs, last) == |xs| - 1;
    }
  }

  /** Concatenation of a sequence of sequences (`_.flatten` of an array of arrays). */
  function Flatten<T(!new)>(ss: seq<seq<T>>): (r: seq<T>)
    ensures forall x :: x in r <==> exists i :: 0 <= i < |ss| && x in ss[i]
  {
    if |ss| == 0 then []
    else ss[0] + Flatten(ss[1..])
  }

  /** The elements of `s` that satisfy `p`, in their original order. */
  function Filter<T>(s: seq<T>, p: T -> bool): (r: seq<T>)
    ensures |r| <= |s|
  {
    if |s| == 0 then []
    else (if p(s[0]) then [s[0]] else []) + Filter(s[1..], p)
  }

  /** The filter keeps exactly the elements that satisfy the predicate. */
  lemma {:induction false} FilterMembers<T>(s: seq<T>, p: T -> bool)
    ensures forall x :: x in Filter(s, p) <==> x in s && p(x)
    decreases |s|
  {
    if |s| > 0 {
      FilterMembers(s[1..], p);
      assert s == [s[0]] + s[1..];
    }
  }

  /** The complement of a predicate. */
  function Not<T>(p: T -> bool): T -> bool {
    x => !p(x)
  }

  /** Splitting by a predicate and its complement loses and invents nothing. */
  lemma {:induction false} FilterPartition<T>(s: seq<T>, p: T -> bool)
    ensures multiset(Filter(s, p)) + multiset(Filter(s, Not(p))) == multiset(s)
    decreases |s|
  {
    if |s| > 0 {
      FilterPartition(s[1..], p);
      assert s == [s[0]] + s[1..];
      assert Not(p)(s[0]) == !p(s[0]);
    }
  }
}
