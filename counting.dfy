/**
 * Counting values the way the queries do: `collections.Counter` (a dict that
 * remembers the order in which values were first seen), its `most_common`
 * (a stable sort by count, largest first), and the ascending group-by of
 * `DataFrame.groupby(...).count()`.
 */
module Counting {
  import opened Common

  // ---------------------------------------------------------------------
  // Positions.

  /** The index of the first occurrence of `x` in `xs`. */
  function First<T(==)>(xs: seq<T>, x: T): (i: nat)
    requires x in xs
    ensures i < |xs| && xs[i] == x
    ensures forall j :: 0 <= j < i ==> xs[j] != x
  {
    if xs[0] == x then 0 else 1 + First(xs[1..], x)
  }

  /** The values of a tally, in order. */
  function Keys<T>(t: seq<(T, nat)>): (ks: seq<T>)
    ensures |ks| == |t|
    ensures forall i :: 0 <= i < |t| ==> ks[i] == t[i].0
  {
    seq(|t|, i requires 0 <= i < |t| => t[i].0)
  }

  /** The sum of the counts of a tally. */
  function Total<T>(t: seq<(T, nat)>): nat {
    if t == [] then 0 else t[0].1 + Total(t[1..])
  }

  // ---------------------------------------------------------------------
  // `Counter(xs)`.

  /**
   * `t` is `Counter(xs)` listed in its own order: each value of `xs` once,
   * with the number of its occurrences, in the order values were first seen.
   */
  predicate IsTally<T(==)>(xs: seq<T>, t: seq<(T, nat)>) {
    && Distinct(Keys(t))
    && (forall i :: 0 <= i < |t| ==> t[i].0 in xs && t[i].1 == multiset(xs)[t[i].0])
    && (forall x :: x in xs ==> x in Keys(t))
    && (forall i, j :: 0 <= i < j < |t| ==> First(xs, t[i].0) < First(xs, t[j].0))
  }

  /** `counter[x] += 1`: the entry of `x` goes up by one, or `x` is added at the end. */
  function Bump<T(==)>(t: seq<(T, nat)>, x: T): (r: seq<(T, nat)>) {
    if x in Keys(t) then
      var i := First(Keys(t), x);
      t[i := (x, t[i].1 + 1)]
    else t + [(x, 1)]
  }

  /** `Counter(xs)`, one value after the other. */
  function Count<T(==)>(xs: seq<T>): (t: seq<(T, nat)>)
    ensures IsTally(xs, t)
  {
    if xs == [] then []
    else
      var init := xs[..|xs| - 1];
      assert xs == init + [xs[|xs| - 1]];
      BumpTally(init, Count(init), xs[|xs| - 1]);
      Bump(Count(init), xs[|xs| - 1])
  }

  lemma FirstOfAppend<T>(xs: seq<T>, x: T, y: T)
    requires y in xs
    ensures y in xs + [x] && First(xs + [x], y) == First(xs, y)
  {
    var i := First(xs, y);
    var ys := xs + [x];
    assert ys[i] == y;
    FirstIs(ys, y, i);
  }

  lemma FirstIs<T>(xs: seq<T>, x: T, i: nat)
    requires i < |xs| && xs[i] == x
    requires forall j :: 0 <= j < i ==> xs[j] != x
    ensures First(xs, x) == i
  {
  }

  /** Counting one more value keeps the tally a tally of the longer sequence. */
  lemma BumpTally<T>(xs: seq<T>, t: seq<(T, nat)>, x: T)
    requires IsTally(xs, t)
    ensures IsTally(xs + [x], Bump(t, x))
  {
    var ys := xs + [x];
    var r := Bump(t, x);
    assert multiset(ys) == multiset(xs) + multiset{x};
    forall y | y in xs ensures First(ys, y) == First(xs, y) {
      FirstOfAppend(xs, x, y);
    }
    if x in Keys(t) {
      var i := First(Keys(t), x);
      assert Keys(r) == Keys(t);
      forall k | 0 <= k < |r| ensures r[k].0 in ys && r[k].1 == multiset(ys)[r[k].0] {
        if k != i {
          assert r[k] == t[k] && t[k].0 != x;
        }
      }
    } else {
      assert x !in xs;
      FirstIs(ys, x, |xs|);
      assert Keys(r) == Keys(t) + [x];
      forall y | y in ys ensures y in Keys(r) {
        if y != x {
          assert y in Keys(t);
        }
      }
    }
  }

  /** The counts of `Counter(xs)` add up to `|xs|`. */
  lemma {:induction false} CountTotal<T>(xs: seq<T>)
    ensures Total(Count(xs)) == |xs|
    decreases |xs|
  {
    if xs != [] {
      var init := xs[..|xs| - 1];
      var x := xs[|xs| - 1];
      CountTotal(init);
      BumpTotal(Count(init), x);
    }
  }

  lemma BumpTotal<T>(t: seq<(T, nat)>, x: T)
    ensures Total(Bump(t, x)) == Total(t) + 1
  {
    if x in Keys(t) {
      var i := First(Keys(t), x);
      TotalUpdate(t, i, (x, t[i].1 + 1));
    } else {
      TotalAppend(t, (x, 1));
    }
  }

  lemma {:induction false} TotalAppend<T>(t: seq<(T, nat)>, e: (T, nat))
    ensures Total(t + [e]) == Total(t) + e.1
  {
    if t != [] {
      assert (t + [e])[1..] == t[1..] + [e];
      TotalAppend(t[1..], e);
    }
  }

  lemma {:induction false} TotalUpdate<T>(t: seq<(T, nat)>, i: nat, e: (T, nat))
    requires i < |t|
    ensures Total(t[i := e]) + t[i].1 == Total(t) + e.1
  {
    if i > 0 {
      assert t[i := e][1..] == t[1..][i - 1 := e];
      TotalUpdate(t[1..], i - 1, e);
    }
  }

  // ---------------------------------------------------------------------
  // A stable sort by count, largest first.

  /** `s` lists counts from the largest down. */
  predicate Descending<T>(s: seq<(T, nat)>) {
    forall i, j :: 0 <= i < j < |s| ==> s[i].1 >= s[j].1
  }

  /** `e` in front of the first entry of `s` whose count is not larger than its own. */
  function Insert<T>(e: (T, nat), s: seq<(T, nat)>): (r: seq<(T, nat)>)
    requires Descending(s)
    ensures multiset(r) == multiset(s) + multiset{e}
    ensures Descending(r)
    ensures Total(r) == Total(s) + e.1
  {
    if s == [] || s[0].1 <= e.1 then
      InsertFront(e, s);
      [e] + s
    else
      var rest := Insert(e, s[1..]);
      InsertBehind(e, s, rest);
      [s[0]] + rest
  }

  /** `e` goes in front of a list whose counts are at most its own. */
  lemma InsertFront<T>(e: (T, nat), s: seq<(T, nat)>)
    requires Descending(s) && (s == [] || s[0].1 <= e.1)
    ensures multiset([e] + s) == multiset(s) + multiset{e}
    ensures Descending([e] + s)
    ensures Total([e] + s) == Total(s) + e.1
  {
    assert ([e] + s)[1..] == s;
  }

  /** The head of `s` stays in front of `e` inserted into the rest of `s`. */
  lemma InsertBehind<T>(e: (T, nat), s: seq<(T, nat)>, rest: seq<(T, nat)>)
    requires s != [] && Descending(s) && e.1 < s[0].1
    requires Descending(rest) && multiset(rest) == multiset(s[1..]) + multiset{e}
    requires Total(rest) == Total(s[1..]) + e.1
    ensures multiset([s[0]] + rest) == multiset(s) + multiset{e}
    ensures Descending([s[0]] + rest)
    ensures Total([s[0]] + rest) == Total(s) + e.1
  {
    assert s == [s[0]] + s[1..];
    InsertBelow(s[0], e, s[1..], rest);
    assert ([s[0]] + rest)[1..] == rest;
  }

  /** An entry whose count is at least every count of `s` and of `e` can go in front of `e` inserted into `s`. */
  lemma InsertBelow<T>(h: (T, nat), e: (T, nat), s: seq<(T, nat)>, rest: seq<(T, nat)>)
    requires Descending(s) && Descending(rest)
    requires forall k :: 0 <= k < |s| ==> s[k].1 <= h.1
    requires e.1 <= h.1
    requires multiset(rest) == multiset(s) + multiset{e}
    ensures Descending([h] + rest)
  {
    forall k | 0 <= k < |rest| ensures rest[k].1 <= h.1 {
      assert rest[k] in multiset(rest);
      if rest[k] != e {
        assert rest[k] in multiset(s);
      }
    }
  }

  /** `sorted(t, key=count, reverse=True)`: a stable sort, largest count first. */
  function Rank<T>(t: seq<(T, nat)>): (r: seq<(T, nat)>)
    ensures multiset(r) == multiset(t)
    ensures Descending(r)
    ensures Total(r) == Total(t)
  {
    if t == [] then []
    else
      assert t == [t[0]] + t[1..];
      Insert(t[0], Rank(t[1..]))
  }

  /** Where `x` was first seen in `xs` (`|xs|` when it never was). */
  function Seen<T(==)>(xs: seq<T>, x: T): (i: nat)
    ensures i <= |xs|
    ensures i < |xs| <==> x in xs
  {
    if x in xs then First(xs, x) else |xs|
  }

  /** Entry `a` goes before entry `b` in `most_common`: a larger count, or the same count and seen earlier. */
  predicate Before<T(==)>(xs: seq<T>, a: (T, nat), b: (T, nat)) {
    a.1 > b.1 || (a.1 == b.1 && Seen(xs, a.0) < Seen(xs, b.0))
  }

  /** `r` is in the order `Counter(xs).most_common()` lists entries. */
  predicate Ranked<T(==)>(xs: seq<T>, r: seq<(T, nat)>) {
    forall i, j :: 0 <= i < j < |r| ==> Before(xs, r[i], r[j])
  }

  /** Entries are listed in the order their values were first seen in `xs`. */
  predicate SeenOrder<T(==)>(xs: seq<T>, t: seq<(T, nat)>) {
    forall i, j :: 0 <= i < j < |t| ==> Seen(xs, t[i].0) < Seen(xs, t[j].0)
  }

  /** Every entry of `r` is a value of `xs` with its exact number of occurrences. */
  predicate Exact<T(==)>(xs: seq<T>, r: seq<(T, nat)>) {
    forall i :: 0 <= i < |r| ==> r[i].0 in xs && r[i].1 == multiset(xs)[r[i].0]
  }

  lemma BeforeAsymmetric<T>(xs: seq<T>, a: (T, nat), b: (T, nat))
    requires Before(xs, a, b)
    ensures !Before(xs, b, a) && a != b
  {
  }

  /** The stable sort by count of a tally listed in first-seen order is in `most_common` order. */
  lemma {:induction false} RankOrder<T>(xs: seq<T>, t: seq<(T, nat)>)
    requires SeenOrder(xs, t)
    ensures Ranked(xs, Rank(t))
    decreases |t|
  {
    if t != [] {
      var s := Rank(t[1..]);
      RankOrder(xs, t[1..]);
      forall k | 0 <= k < |s| ensures Seen(xs, t[0].0) < Seen(xs, s[k].0) {
        assert s[k] in multiset(t[1..]);
        var m :| 0 <= m < |t[1..]| && t[1..][m] == s[k];
        assert t[m + 1] == s[k];
      }
      InsertRanked(xs, t[0], s);
    }
  }

  /** Inserting an entry seen before every entry of `s` keeps `s` in `most_common` order. */
  lemma {:induction false} InsertRanked<T>(xs: seq<T>, e: (T, nat), s: seq<(T, nat)>)
    requires Descending(s) && Ranked(xs, s)
    requires forall k :: 0 <= k < |s| ==> Seen(xs, e.0) < Seen(xs, s[k].0)
    ensures Ranked(xs, Insert(e, s))
    decreases |s|
  {
    if s == [] || s[0].1 <= e.1 {
      InsertRankedFront(xs, e, s);
    } else {
      var rest := Insert(e, s[1..]);
      InsertRanked(xs, e, s[1..]);
      assert Insert(e, s) == [s[0]] + rest;
      forall k | 0 <= k < |rest| ensures Before(xs, s[0], rest[k]) {
        assert rest[k] in multiset(rest);
        if rest[k] != e {
          assert rest[k] in multiset(s[1..]);
          var m :| 0 <= m < |s[1..]| && s[1..][m] == rest[k];
          assert s[m + 1] == rest[k];
        }
      }
      RankedCons(xs, s[0], rest);
    }
  }

  lemma InsertRankedFront<T>(xs: seq<T>, e: (T, nat), s: seq<(T, nat)>)
    requires Descending(s) && Ranked(xs, s)
    requires forall k :: 0 <= k < |s| ==> Seen(xs, e.0) < Seen(xs, s[k].0)
    requires s == [] || s[0].1 <= e.1
    ensures Ranked(xs, [e] + s)
  {
    forall k | 0 <= k < |s| ensures Before(xs, e, s[k]) {
      assert s[k].1 <= s[0].1;
    }
    RankedCons(xs, e, s);
  }

  lemma RankedCons<T>(xs: seq<T>, h: (T, nat), s: seq<(T, nat)>)
    requires Ranked(xs, s)
    requires forall k :: 0 <= k < |s| ==> Before(xs, h, s[k])
    ensures Ranked(xs, [h] + s)
  {
    var r := [h] + s;
    forall i, j | 0 <= i < j < |r| ensures Before(xs, r[i], r[j]) {
      assert r[j] == s[j - 1];
      if i > 0 {
        assert r[i] == s[i - 1];
      }
    }
  }

  /** Two sequences in `most_common` order that hold the same entries are equal. */
  lemma {:induction false} RankedUnique<T>(xs: seq<T>, r1: seq<(T, nat)>, r2: seq<(T, nat)>)
    requires Ranked(xs, r1) && Ranked(xs, r2)
    requires forall e :: e in r1 <==> e in r2
    ensures r1 == r2
    decreases |r1|
  {
    assert |r2| > 0 ==> r2[0] in r1;
    if r1 != [] {
      assert r1[0] in r2 && r2 != [];
      assert r2[0] in r1;
      var m :| 0 <= m < |r2| && r2[m] == r1[0];
      var p :| 0 <= p < |r1| && r1[p] == r2[0];
      if m > 0 && p > 0 {
        BeforeAsymmetric(xs, r1[0], r2[0]);
        assert false;
      }
      assert r1[0] == r2[0];
      forall e ensures e in r1[1..] <==> e in r2[1..] {
        if e in r1[1..] {
          var k :| 0 <= k < |r1[1..]| && r1[1..][k] == e;
          assert Before(xs, r1[0], r1[k + 1]);
          assert e in r2;
        }
        if e in r2[1..] {
          var k :| 0 <= k < |r2[1..]| && r2[1..][k] == e;
          assert Before(xs, r2[0], r2[k + 1]);
          assert e in r1;
        }
      }
      RankedUnique(xs, r1[1..], r2[1..]);
      assert r1 == [r1[0]] + r1[1..] && r2 == [r2[0]] + r2[1..];
    }
  }

  /**
   * `Counter(xs).most_common()`: every value of `xs` once, with its exact
   * count, largest count first and ties in first-seen order. pandas'
   * `value_counts()` gives the same entries in the same count order.
   */
  function ValueCounts<T(==)>(xs: seq<T>): (r: seq<(T, nat)>)
    ensures Exact(xs, r) && Ranked(xs, r)
    ensures forall x :: x in xs ==> x in Keys(r)
    ensures Total(r) == |xs|
  {
    var t := Count(xs);
    TallySeenOrder(xs, t);
    RankOrder(xs, t);
    CountTotal(xs);
    PermutedTally(xs, t, Rank(t));
    Rank(t)
  }

  lemma TallySeenOrder<T>(xs: seq<T>, t: seq<(T, nat)>)
    requires IsTally(xs, t)
    ensures SeenOrder(xs, t)
  {
  }

  /** A reordering of `Counter(xs)` still counts every value of `xs` exactly. */
  lemma PermutedTally<T>(xs: seq<T>, t: seq<(T, nat)>, r: seq<(T, nat)>)
    requires IsTally(xs, t) && multiset(r) == multiset(t)
    ensures Exact(xs, r)
    ensures forall x :: x in xs ==> x in Keys(r)
  {
    forall i | 0 <= i < |r| ensures r[i].0 in xs && r[i].1 == multiset(xs)[r[i].0] {
      assert r[i] in multiset(t);
      var m :| 0 <= m < |t| && t[m] == r[i];
    }
    forall x | x in xs ensures x in Keys(r) {
      var i :| 0 <= i < |t| && Keys(t)[i] == x;
      assert t[i] in multiset(r);
      var k :| 0 <= k < |r| && r[k] == t[i];
      assert Keys(r)[k] == x;
    }
  }

  /** There are as many entries as distinct values. */
  lemma ValueCountsLength<T>(xs: seq<T>)
    ensures |ValueCounts(xs)| == |Count(xs)|
  {
    assert ValueCounts(xs) == Rank(Count(xs));
    assert |multiset(Rank(Count(xs)))| == |multiset(Count(xs))|;
  }

  /** An exact, complete tally of `xs` in `most_common` order is `ValueCounts(xs)`: the order determines it. */
  lemma ValueCountsUnique<T>(xs: seq<T>, r: seq<(T, nat)>)
    requires Exact(xs, r) && Ranked(xs, r)
    requires forall x :: x in xs ==> x in Keys(r)
    ensures r == ValueCounts(xs)
  {
    var v := ValueCounts(xs);
    forall e ensures e in r <==> e in v {
      if e in r {
        ExactEntry(xs, r, v, e);
      }
      if e in v {
        ExactEntry(xs, v, r, e);
      }
    }
    RankedUnique(xs, r, v);
  }

  /** An exact entry of one tally is an entry of every exact tally that lists all values. */
  lemma ExactEntry<T>(xs: seq<T>, r: seq<(T, nat)>, v: seq<(T, nat)>, e: (T, nat))
    requires Exact(xs, r) && Exact(xs, v) && e in r
    requires forall x :: x in xs ==> x in Keys(v)
    ensures e in v
  {
    var i :| 0 <= i < |r| && r[i] == e;
    var k :| 0 <= k < |v| && Keys(v)[k] == e.0;
    assert v[k] == e;
  }

  /** The values of a ranking are all different. */
  lemma RankedDistinct<T>(xs: seq<T>, r: seq<(T, nat)>)
    requires Exact(xs, r) && Ranked(xs, r)
    ensures Distinct(Keys(r))
  {
    forall i, j | 0 <= i < j < |r| ensures r[i].0 != r[j].0 {
      assert Before(xs, r[i], r[j]);
    }
  }

  /** In `most_common` order the counts never go up. */
  lemma RankedDescending<T>(xs: seq<T>, r: seq<(T, nat)>)
    requires Ranked(xs, r)
    ensures Descending(r)
  {
    forall i, j | 0 <= i < j < |r| ensures r[i].1 >= r[j].1 {
      assert Before(xs, r[i], r[j]);
    }
  }

  /** The first `n` entries of `t` (`head(n)`, `most_common(n)`). */
  function Take<E>(t: seq<E>, n: nat): (r: seq<E>)
    ensures |r| == if n < |t| then n else |t|
    ensures forall k :: 0 <= k < |r| ==> r[k] == t[k]
  {
    if n < |t| then t[..n] else t
  }

  /**
   * `Counter(xs).most_common(n)`: at most `n` entries, exact counts, in
   * order; every value left out ranks after every value kept, and when
   * fewer than `n` come out, no value was left out.
   */
  function MostCommon<T(==)>(xs: seq<T>, n: nat): (r: seq<(T, nat)>)
    ensures |r| <= n
    ensures Exact(xs, r) && Ranked(xs, r) && Distinct(Keys(r))
    ensures forall x :: x in xs && x !in Keys(r) ==>
      forall k :: 0 <= k < |r| ==> Before(xs, r[k], (x, multiset(xs)[x]))
    ensures |r| < n ==> forall x :: x in xs ==> x in Keys(r)
  {
    var r := Take(ValueCounts(xs), n);
    RankedDistinct(xs, r);
    TakeRanked(xs, ValueCounts(xs), n);
    r
  }

  /** Every value of a ranking that a prefix leaves out ranks after every value the prefix keeps. */
  lemma TakeRanked<T>(xs: seq<T>, v: seq<(T, nat)>, n: nat)
    requires Exact(xs, v) && Ranked(xs, v)
    requires forall x :: x in xs ==> x in Keys(v)
    ensures forall x :: x in xs && x !in Keys(Take(v, n)) ==>
      forall k :: 0 <= k < |Take(v, n)| ==> Before(xs, Take(v, n)[k], (x, multiset(xs)[x]))
  {
    var r := Take(v, n);
    forall x, k | x in xs && x !in Keys(r) && 0 <= k < |r| ensures Before(xs, r[k], (x, multiset(xs)[x])) {
      var m :| 0 <= m < |v| && Keys(v)[m] == x;
      assert v[m] == (x, multiset(xs)[x]);
      assert Keys(r) == Keys(v)[..|r|];
      assert m >= |r|;
      assert r[k] == v[k];
    }
  }

  // ---------------------------------------------------------------------
  // `groupby(column).count()`: groups in ascending order.

  /** `f` applied to every element, in order. */
  function Map<X, Y>(xs: seq<X>, f: X -> Y): (ys: seq<Y>)
    ensures |ys| == |xs|
    ensures forall k :: 0 <= k < |xs| ==> ys[k] == f(xs[k])
  {
    seq(|xs|, k requires 0 <= k < |xs| => f(xs[k]))
  }

  /** `f` applied to every element, the results one after the other. */
  function FlatMap<X, Y>(xs: seq<X>, f: X -> seq<Y>): seq<Y> {
    if xs == [] then [] else f(xs[0]) + FlatMap(xs[1..], f)
  }

  lemma {:induction false} FlatMapAppend<X, Y>(xs: seq<X>, x: X, f: X -> seq<Y>)
    ensures FlatMap(xs + [x], f) == FlatMap(xs, f) + f(x)
    decreases |xs|
  {
    if xs != [] {
      assert (xs + [x])[1..] == xs[1..] + [x];
      FlatMapAppend(xs[1..], x, f);
    } else {
      assert [] + [x] == [x];
    }
  }

  /** One more element of `xs` adds its image to the flattened prefix. */
  lemma FlatMapPrefix<X, Y>(xs: seq<X>, i: nat, f: X -> seq<Y>)
    requires i < |xs|
    ensures FlatMap(xs[..i + 1], f) == FlatMap(xs[..i], f) + f(xs[i])
  {
    assert xs[..i + 1] == xs[..i] + [xs[i]];
    FlatMapAppend(xs[..i], xs[i], f);
  }

  /** No value occurs more often than the sequence is long. */
  lemma {:induction false} CountBound<T>(xs: seq<T>, x: T)
    ensures multiset(xs)[x] <= |xs|
    decreases |xs|
  {
    if xs != [] {
      assert xs == [xs[0]] + xs[1..];
      CountBound(xs[1..], x);
    }
  }

  /** Different values have different sort keys. */
  ghost predicate Injective<T(!new)>(key: T -> int) {
    forall a, b :: key(a) == key(b) ==> a == b
  }

  /** Sort keys strictly increase along `g`. */
  predicate Increasing<T>(g: seq<(T, nat)>, key: T -> int) {
    forall i, j :: 0 <= i < j < |g| ==> key(g[i].0) < key(g[j].0)
  }

  /** `e` in its place by sort key, in a list ordered by key that does not hold `e`'s key. */
  function InsertKey<T>(e: (T, nat), s: seq<(T, nat)>, key: T -> int): (r: seq<(T, nat)>)
    requires Increasing(s, key)
    requires forall k :: 0 <= k < |s| ==> key(s[k].0) != key(e.0)
    ensures multiset(r) == multiset(s) + multiset{e}
    ensures Increasing(r, key)
  {
    if s == [] || key(e.0) < key(s[0].0) then
      InsertKeyFront(e, s, key);
      [e] + s
    else
      var rest := InsertKey(e, s[1..], key);
      InsertKeyBehind(e, s, rest, key);
      [s[0]] + rest
  }

  /** `e` goes in front of a list whose keys are all larger than its own. */
  lemma InsertKeyFront<T>(e: (T, nat), s: seq<(T, nat)>, key: T -> int)
    requires Increasing(s, key) && (s == [] || key(e.0) < key(s[0].0))
    ensures multiset([e] + s) == multiset(s) + multiset{e}
    ensures Increasing([e] + s, key)
  {
    assert ([e] + s)[1..] == s;
  }

  /** The head of `s` stays in front of `e` placed by key into the rest of `s`. */
  lemma InsertKeyBehind<T>(e: (T, nat), s: seq<(T, nat)>, rest: seq<(T, nat)>, key: T -> int)
    requires s != [] && Increasing(s, key) && key(s[0].0) < key(e.0)
    requires Increasing(rest, key) && multiset(rest) == multiset(s[1..]) + multiset{e}
    ensures multiset([s[0]] + rest) == multiset(s) + multiset{e}
    ensures Increasing([s[0]] + rest, key)
  {
    assert s == [s[0]] + s[1..];
    forall k | 0 <= k < |rest| ensures key(s[0].0) < key(rest[k].0) {
      assert rest[k] in multiset(rest);
      if rest[k] != e {
        assert rest[k] in multiset(s[1..]);
      }
    }
    assert ([s[0]] + rest)[1..] == rest;
  }

  /** A tally with distinct values, reordered by sort key. */
  function SortKeys<T(!new)>(t: seq<(T, nat)>, key: T -> int): (r: seq<(T, nat)>)
    requires Distinct(Keys(t)) && Injective(key)
    ensures multiset(r) == multiset(t)
    ensures Increasing(r, key)
  {
    if t == [] then []
    else
      assert t == [t[0]] + t[1..];
      DistinctTail(t);
      var s := SortKeys(t[1..], key);
      NewKey(t, s);
      InsertKey(t[0], s, key)
  }

  lemma DistinctTail<T>(t: seq<(T, nat)>)
    requires t != [] && Distinct(Keys(t))
    ensures Distinct(Keys(t[1..]))
  {
    forall i, j | 0 <= i < j < |t| - 1 ensures t[1..][i].0 != t[1..][j].0 {
      assert Keys(t)[i + 1] != Keys(t)[j + 1];
    }
  }

  lemma NewKey<T>(t: seq<(T, nat)>, s: seq<(T, nat)>)
    requires t != [] && Distinct(Keys(t)) && multiset(s) == multiset(t[1..])
    ensures forall k :: 0 <= k < |s| ==> s[k].0 != t[0].0
  {
    forall k | 0 <= k < |s| ensures s[k].0 != t[0].0 {
      assert s[k] in multiset(t[1..]);
      var m :| 0 <= m < |t[1..]| && t[1..][m] == s[k];
      assert Keys(t)[0] != Keys(t)[m + 1];
    }
  }

  /**
   * `groupby(column).count()` over the values `xs` of the column: every
   * value once, in ascending order of `key`, with its number of occurrences.
   */
  function GroupCount<T(==,!new)>(xs: seq<T>, key: T -> int): (g: seq<(T, nat)>)
    requires Injective(key)
    ensures Increasing(g, key) && Exact(xs, g)
    ensures forall x :: x in xs ==> x in Keys(g)
    ensures Total(g) == |xs|
  {
    var t := Count(xs);
    CountTotal(xs);
    PermutedTally(xs, t, SortKeys(t, key));
    PermutedTotal(t, SortKeys(t, key));
    SortKeys(t, key)
  }

  /** Reordering entries keeps their total. */
  lemma {:induction false} PermutedTotal<T>(t: seq<(T, nat)>, r: seq<(T, nat)>)
    requires multiset(r) == multiset(t)
    ensures Total(r) == Total(t)
    decreases |t|
  {
    if t != [] {
      assert t[0] in multiset(r);
      var i :| 0 <= i < |r| && r[i] == t[0];
      var rest := r[..i] + r[i + 1..];
      RemovedPermuted(t, r, i);
      PermutedTotal(t[1..], rest);
      TotalSplit(r[..i], r[i], r[i + 1..]);
      assert r[..i] + [r[i]] + r[i + 1..] == r;
    }
  }

  /** Taking from `r` an occurrence of the first entry of `t` leaves a reordering of the rest of `t`. */
  lemma RemovedPermuted<T>(t: seq<(T, nat)>, r: seq<(T, nat)>, i: nat)
    requires multiset(r) == multiset(t) && t != [] && i < |r| && r[i] == t[0]
    ensures multiset(r[..i] + r[i + 1..]) == multiset(t[1..])
  {
    assert r == r[..i] + [r[i]] + r[i + 1..];
    assert t == [t[0]] + t[1..];
    assert multiset(r[..i] + r[i + 1..]) + multiset{t[0]} == multiset(r);
    assert multiset(t[1..]) + multiset{t[0]} == multiset(t);
    assert multiset(r[..i] + r[i + 1..]) == multiset(r) - multiset{t[0]};
    assert multiset(t[1..]) == multiset(t) - multiset{t[0]};
  }

  lemma {:induction false} TotalSplit<T>(a: seq<(T, nat)>, e: (T, nat), b: seq<(T, nat)>)
    ensures Total(a + [e] + b) == Total(a + b) + e.1
    decreases |a|
  {
    if a == [] {
      assert ([e] + b)[1..] == b;
      assert [] + [e] + b == [e] + b;
      assert [] + b == b;
      assert Total([e] + b) == e.1 + Total(b);
    } else {
      TotalSplit(a[1..], e, b);
      assert (a + [e] + b)[1..] == a[1..] + [e] + b;
      assert (a + b)[1..] == a[1..] + b;
    }
  }

  // ---------------------------------------------------------------------
  // Sums of counts.

  /** The number of elements of `xs` equal to some element of `ks`, counted once per element of `ks`. */
  function Occurrences<T(==)>(ks: seq<T>, xs: seq<T>): nat {
    if ks == [] then 0 else multiset(xs)[ks[0]] + Occurrences(ks[1..], xs)
  }

  lemma {:induction false} OccurrencesAppend<T>(ks: seq<T>, xs: seq<T>, x: T)
    ensures Occurrences(ks, xs + [x]) == Occurrences(ks, xs) + multiset(ks)[x]
    decreases |ks|
  {
    if ks != [] {
      OccurrencesAppend(ks[1..], xs, x);
      assert ks == [ks[0]] + ks[1..];
    }
  }

  /** Counting, over distinct keys that cover every element, each key's occurrences counts every element once. */
  lemma {:induction false} CoverSum<T>(ks: seq<T>, xs: seq<T>)
    requires Distinct(ks)
    requires forall x :: x in xs ==> x in ks
    ensures Occurrences(ks, xs) == |xs|
    decreases |xs|
  {
    if xs != [] {
      var init := xs[..|xs| - 1];
      var x := xs[|xs| - 1];
      assert xs == init + [x];
      assert x in ks;
      assert forall y :: y in init ==> y in xs;
      CoverSum(ks, init);
      OccurrencesAppend(ks, init, x);
      DistinctOnce(ks, x);
      assert multiset(ks)[x] == 1;
    } else {
      OccurrencesEmpty(ks, xs);
    }
  }

  lemma {:induction false} OccurrencesEmpty<T>(ks: seq<T>, xs: seq<T>)
    requires xs == []
    ensures Occurrences(ks, xs) == 0
    decreases |ks|
  {
    if ks != [] {
      OccurrencesEmpty(ks[1..], xs);
    }
  }
}
