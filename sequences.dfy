/** The two JavaScript library behaviours the controller relies on for
    ordering: the insertion order of a `Set` (first occurrence wins) and the
    stable `Array.prototype.sort`, used with a descending numeric comparator. */
module Sequences {

  predicate NoDuplicates<T(==)>(xs: seq<T>) {
    forall i, j :: 0 <= i < j < |xs| ==> xs[i] != xs[j]
  }

  /** Index of the first occurrence of `x` in `xs`. */
  function FirstIndex<T(==)>(xs: seq<T>, x: T): (i: nat)
    requires x in xs
    ensures i < |xs| && xs[i] == x && x !in xs[..i]
  {
    if xs[0] == x then 0 else 1 + FirstIndex(xs[1..], x)
  }

  lemma SnocMembers<T>(a: seq<T>, y: T, x: T)
    ensures x in a + [y] <==> x in a || x == y
  {
    if x in a {
      var i :| 0 <= i < |a| && a[i] == x;
      assert (a + [y])[i] == x;
    }
    assert (a + [y])[|a|] == y;
  }

  lemma ConcatMembers<T>(a: seq<T>, b: seq<T>, x: T)
    ensures x in a + b <==> x in a || x in b
  {
    if x in a + b {
      var i :| 0 <= i < |a + b| && (a + b)[i] == x;
      if i >= |a| {
        assert b[i - |a|] == x;
      }
    }
  }

  /** The elements of `xs` in order of first occurrence, each once: the
      iteration order of `new Set(xs)`, and the key order of an object whose
      keys are set in the order of `xs`. */
  function Distinct<T(==)>(xs: seq<T>): (d: seq<T>)
    ensures NoDuplicates(d)
    ensures forall i :: 0 <= i < |d| ==> d[i] in xs
    ensures forall i :: 0 <= i < |xs| ==> xs[i] in d
    ensures |d| <= |xs|
    decreases |xs|
  {
    if xs == [] then []
    else
      var d := Distinct(xs[..|xs| - 1]);
      var last := xs[|xs| - 1];
      assert xs == xs[..|xs| - 1] + [last];
      if last in d then d else d + [last]
  }

  lemma FirstIndexUnique<T>(xs: seq<T>, x: T, i: nat)
    requires i < |xs| && xs[i] == x && x !in xs[..i]
    ensures FirstIndex(xs, x) == i
  {
    var j := FirstIndex(xs, x);
    assert xs[..i] == xs[..i];
  }

  lemma FirstIndexPrefix<T>(xs: seq<T>, k: nat, x: T)
    requires k <= |xs| && x in xs[..k]
    ensures FirstIndex(xs[..k], x) == FirstIndex(xs, x)
  {
    var i := FirstIndex(xs[..k], x);
    assert xs[..k][..i] == xs[..i];
    FirstIndexUnique(xs, x, i);
  }

  /** `Distinct` lists the elements in strictly increasing order of their
      first occurrence in the input. */
  lemma {:induction false} DistinctFirstOccurrenceOrder<T>(xs: seq<T>)
    ensures forall i, j :: 0 <= i < j < |Distinct(xs)| ==>
      FirstIndex(xs, Distinct(xs)[i]) < FirstIndex(xs, Distinct(xs)[j])
    decreases |xs|
  {
    if xs != [] {
      var n := |xs| - 1;
      var p := xs[..n];
      var d' := Distinct(p);
      var last := xs[n];
      DistinctFirstOccurrenceOrder(p);
      var d := Distinct(xs);
      assert d == if last in d' then d' else d' + [last];
      if last !in d' {
        assert last !in xs[..n];
        FirstIndexUnique(xs, last, n);
      }
      forall i, j | 0 <= i < j < |d| ensures FirstIndex(xs, d[i]) < FirstIndex(xs, d[j]) {
        assert d[i] == d'[i] && d'[i] in p;
        FirstIndexPrefix(xs, n, d'[i]);
        if j < |d'| {
          assert d[j] == d'[j] && d'[j] in p;
          FirstIndexPrefix(xs, n, d'[j]);
        }
      }
    }
  }

  lemma NoDuplicatesSnoc<T>(xs: seq<T>, x: T)
    requires NoDuplicates(xs) && x !in xs
    ensures NoDuplicates(xs + [x])
  {
    var ys := xs + [x];
    forall i, j | 0 <= i < j < |ys| ensures ys[i] != ys[j] {
      if j == |xs| {
        assert ys[i] == xs[i];
      }
    }
  }

  /** A sequence without repetitions is its own `Distinct`. */
  lemma {:induction false} DistinctOfNoDuplicates<T>(xs: seq<T>)
    requires NoDuplicates(xs)
    ensures Distinct(xs) == xs
    decreases |xs|
  {
    if xs != [] {
      var n := |xs| - 1;
      assert NoDuplicates(xs[..n]);
      DistinctOfNoDuplicates(xs[..n]);
      assert xs[n] !in xs[..n];
      assert xs == xs[..n] + [xs[n]];
    }
  }

  /** Deduplicating twice is the same as deduplicating once. */
  lemma DistinctIdempotent<T>(xs: seq<T>)
    ensures Distinct(Distinct(xs)) == Distinct(xs)
  {
    DistinctOfNoDuplicates(Distinct(xs));
  }

  /** A prefix without repetitions keeps its place at the head of the result. */
  lemma {:induction false} DistinctKeepsPrefix<T>(a: seq<T>, b: seq<T>)
    requires NoDuplicates(a)
    ensures |Distinct(a + b)| >= |a| && Distinct(a + b)[..|a|] == a
    decreases |b|
  {
    if b == [] {
      assert a + b == a;
      DistinctOfNoDuplicates(a);
    } else {
      var n := |b| - 1;
      DistinctKeepsPrefix(a, b[..n]);
      assert (a + b)[..|a + b| - 1] == a + b[..n];
    }
  }

  // ---------------------------------------------------------------------
  // Stable sort by a numeric score, highest first.

  /** An item paired with the number the comparator looks at. */
  datatype Scored<T> = Scored(item: T, score: int)

  predicate SortedDesc<T>(s: seq<Scored<T>>) {
    forall i, j :: 0 <= i < j < |s| ==> s[i].score >= s[j].score
  }

  function Items<T>(s: seq<Scored<T>>): (r: seq<T>)
    ensures |r| == |s|
    ensures forall i :: 0 <= i < |s| ==> r[i] == s[i].item
    decreases |s|
  {
    if s == [] then [] else [s[0].item] + Items(s[1..])
  }

  /** The subsequence of `s` whose score is `k`. */
  function WithScore<T>(s: seq<Scored<T>>, k: int): (r: seq<Scored<T>>)
    ensures |r| <= |s|
    decreases |s|
  {
    if s == [] then []
    else (if s[0].score == k then [s[0]] else []) + WithScore(s[1..], k)
  }

  lemma {:induction false} WithScoreAppend<T>(a: seq<Scored<T>>, b: seq<Scored<T>>, k: int)
    ensures WithScore(a + b, k) == WithScore(a, k) + WithScore(b, k)
    decreases |a|
  {
    if a != [] {
      assert (a + b)[1..] == a[1..] + b;
      WithScoreAppend(a[1..], b, k);
    } else {
      assert a + b == b;
    }
  }

  /** Places `x` in front of the first element whose score is not above its own. */
  function InsertDesc<T(==)>(x: Scored<T>, s: seq<Scored<T>>): (r: seq<Scored<T>>)
    ensures |r| == |s| + 1
    decreases |s|
  {
    if s == [] || x.score >= s[0].score then [x] + s
    else [s[0]] + InsertDesc(x, s[1..])
  }

  /** The inserted sequence starts with `x` or with the old head. */
  lemma {:induction false} InsertDescHead<T>(x: Scored<T>, s: seq<Scored<T>>)
    ensures InsertDesc(x, s)[0] == x || (s != [] && InsertDesc(x, s)[0] == s[0])
  {
  }

  /** Inserting adds exactly `x`. */
  lemma {:induction false} InsertDescPerm<T>(x: Scored<T>, s: seq<Scored<T>>)
    ensures multiset(InsertDesc(x, s)) == multiset(s) + multiset{x}
    decreases |s|
  {
    var r := InsertDesc(x, s);
    if s == [] || x.score >= s[0].score {
      assert r == [x] + s;
    } else {
      InsertDescPerm(x, s[1..]);
      assert r == [s[0]] + InsertDesc(x, s[1..]);
      assert s == [s[0]] + s[1..];
    }
  }

  /** Inserting keeps a sorted sequence sorted. */
  lemma {:induction false} InsertDescKeepsSorted<T>(x: Scored<T>, s: seq<Scored<T>>)
    requires SortedDesc(s)
    ensures SortedDesc(InsertDesc(x, s))
    decreases |s|
  {
    var r := InsertDesc(x, s);
    if s == [] || x.score >= s[0].score {
      assert r == [x] + s;
    } else {
      var rest := InsertDesc(x, s[1..]);
      assert SortedDesc(s[1..]);
      InsertDescKeepsSorted(x, s[1..]);
      InsertDescHead(x, s[1..]);
      assert r == [s[0]] + rest;
      assert rest[0].score <= s[0].score;
      forall i, j | 0 <= i < j < |r| ensures r[i].score >= r[j].score {
        if i == 0 {
          assert r[j] == rest[j - 1];
        } else {
          assert r[i] == rest[i - 1] && r[j] == rest[j - 1];
        }
      }
    }
  }

  /** Stable sort, highest score first: the order `Array.prototype.sort`
      gives with the comparator `(a, b) => b.score - a.score`. */
  function SortDesc<T(==)>(s: seq<Scored<T>>): (r: seq<Scored<T>>)
    ensures multiset(r) == multiset(s)
    ensures SortedDesc(r)
    decreases |s|
  {
    if s == [] then []
    else
      assert s == [s[0]] + s[1..];
      InsertDescPerm(s[0], SortDesc(s[1..]));
      InsertDescKeepsSorted(s[0], SortDesc(s[1..]));
      InsertDesc(s[0], SortDesc(s[1..]))
  }

  lemma {:induction false} InsertDescWithScore<T>(x: Scored<T>, s: seq<Scored<T>>, k: int)
    ensures WithScore(InsertDesc(x, s), k) == (if x.score == k then [x] else []) + WithScore(s, k)
    decreases |s|
  {
    if s == [] || x.score >= s[0].score {
      InsertFrontWithScore(x, s, k);
    } else {
      InsertDescWithScore(x, s[1..], k);
      InsertBehindWithScore(x, s, k);
    }
  }

  lemma InsertFrontWithScore<T>(x: Scored<T>, s: seq<Scored<T>>, k: int)
    requires s == [] || x.score >= s[0].score
    ensures WithScore(InsertDesc(x, s), k) == (if x.score == k then [x] else []) + WithScore(s, k)
  {
    assert InsertDesc(x, s) == [x] + s;
    assert ([x] + s)[1..] == s;
  }

  /** The step of `InsertDescWithScore` where `x` goes behind the head of `s`. */
  lemma InsertBehindWithScore<T>(x: Scored<T>, s: seq<Scored<T>>, k: int)
    requires s != [] && x.score < s[0].score
    requires WithScore(InsertDesc(x, s[1..]), k) == (if x.score == k then [x] else []) + WithScore(s[1..], k)
    ensures WithScore(InsertDesc(x, s), k) == (if x.score == k then [x] else []) + WithScore(s, k)
  {
    var rest := InsertDesc(x, s[1..]);
    var head: seq<Scored<T>> := if s[0].score == k then [s[0]] else [];
    assert InsertDesc(x, s) == [s[0]] + rest;
    assert ([s[0]] + rest)[1..] == rest;
    assert WithScore(InsertDesc(x, s), k) == head + WithScore(rest, k);
    assert WithScore(s, k) == head + WithScore(s[1..], k);
    if x.score == k {
      assert head == [];
      assert WithScore(rest, k) == [x] + WithScore(s[1..], k);
      assert WithScore(s, k) == WithScore(s[1..], k);
    } else {
      assert WithScore(rest, k) == WithScore(s[1..], k);
    }
  }

  /** Stability: among items of equal score the input order is kept. */
  lemma {:induction false} SortDescStable<T>(s: seq<Scored<T>>, k: int)
    ensures WithScore(SortDesc(s), k) == WithScore(s, k)
    decreases |s|
  {
    if s != [] {
      SortDescStable(s[1..], k);
      InsertDescWithScore(s[0], SortDesc(s[1..]), k);
    }
  }

  lemma ItemsAppend<T>(a: seq<Scored<T>>, b: seq<Scored<T>>)
    ensures Items(a + b) == Items(a) + Items(b)
  {
  }

  lemma ItemsHead<T>(s: seq<Scored<T>>)
    requires s != []
    ensures multiset(Items(s)) == multiset{s[0].item} + multiset(Items(s[1..]))
  {
    assert Items(s) == [s[0].item] + Items(s[1..]);
  }

  lemma {:induction false} InsertDescItems<T>(x: Scored<T>, s: seq<Scored<T>>)
    ensures multiset(Items(InsertDesc(x, s))) == multiset(Items(s)) + multiset{x.item}
    decreases |s|
  {
    var r := InsertDesc(x, s);
    ItemsHead(r);
    if s == [] || x.score >= s[0].score {
      assert r[0] == x && r[1..] == s;
    } else {
      InsertDescItems(x, s[1..]);
      assert r[0] == s[0] && r[1..] == InsertDesc(x, s[1..]);
      ItemsHead(s);
    }
  }

  lemma {:induction false} SortDescItems<T>(s: seq<Scored<T>>)
    ensures multiset(Items(SortDesc(s))) == multiset(Items(s))
    decreases |s|
  {
    if s != [] {
      var sortedTail := SortDesc(s[1..]);
      assert SortDesc(s) == InsertDesc(s[0], sortedTail);
      InsertDescItems(s[0], sortedTail);
      SortDescItems(s[1..]);
      ItemsHead(s);
    }
  }

  // ---------------------------------------------------------------------
  // Sorting items by a key computed from each item.

  /** Every pair carries the key of its item. */
  predicate ScoredBy<T>(s: seq<Scored<T>>, key: T -> int) {
    forall i :: 0 <= i < |s| ==> s[i].score == key(s[i].item)
  }

  /** Pairs each item with its key, in the order given. */
  function WithKeys<T>(xs: seq<T>, key: T -> int): (s: seq<Scored<T>>)
    ensures ScoredBy(s, key) && Items(s) == xs
  {
    seq(|xs|, i requires 0 <= i < |xs| => Scored(xs[i], key(xs[i])))
  }

  lemma WithKeysAppend<T>(a: seq<T>, b: seq<T>, key: T -> int)
    ensures WithKeys(a + b, key) == WithKeys(a, key) + WithKeys(b, key)
  {
  }

  /** The items of `xs` whose key is `k`, in their order in `xs`. */
  function KeyEquals<T>(xs: seq<T>, key: T -> int, k: int): (r: seq<T>)
    ensures |r| <= |xs|
  {
    if xs == [] then []
    else (if key(xs[0]) == k then [xs[0]] else []) + KeyEquals(xs[1..], key, k)
  }

  lemma {:induction false} ItemsWithScore<T>(s: seq<Scored<T>>, key: T -> int, k: int)
    requires ScoredBy(s, key)
    ensures Items(WithScore(s, k)) == KeyEquals(Items(s), key, k)
    decreases |s|
  {
    if s != [] {
      assert ScoredBy(s[1..], key);
      ItemsWithScore(s[1..], key, k);
      assert Items(s)[1..] == Items(s[1..]);
      ItemsAppend(if s[0].score == k then [s[0]] else [], WithScore(s[1..], k));
    }
  }

  /** `xs` stably sorted by `key`, highest first: what `xs.sort((a, b) =>
      key(b) - key(a))` leaves. It is a permutation of `xs` and ordered by key. */
  function SortByKey<T(==)>(xs: seq<T>, key: T -> int): (r: seq<T>)
    ensures multiset(r) == multiset(xs)
    ensures forall i, j :: 0 <= i < j < |r| ==> key(r[i]) >= key(r[j])
  {
    var e := WithKeys(xs, key);
    var sorted := SortDesc(e);
    SortDescItems(e);
    assert ScoredBy(sorted, key) by {
      forall i | 0 <= i < |sorted| ensures sorted[i].score == key(sorted[i].item) {
        assert sorted[i] in multiset(e);
      }
    }
    Items(sorted)
  }

  /** Two items with increasing keys trade places. */
  lemma SortByKeyTwo<T>(xs: seq<T>, key: T -> int)
    requires |xs| == 2 && key(xs[0]) < key(xs[1])
    ensures SortByKey(xs, key) == [xs[1], xs[0]]
  {
    var x, y := Scored(xs[0], key(xs[0])), Scored(xs[1], key(xs[1]));
    assert WithKeys(xs, key) == [x, y];
    SortDescPair(x, y);
    assert Items([y, x]) == [xs[1], xs[0]];
  }

  lemma SortDescPair<T>(x: Scored<T>, y: Scored<T>)
    requires x.score < y.score
    ensures SortDesc([x, y]) == [y, x]
  {
    assert [x, y][1..] == [y];
    assert SortDesc([y]) == [y];
    assert InsertDesc(x, [y]) == [y, x];
  }

  /** Items with equal keys keep their relative order. */
  lemma SortByKeyStable<T>(xs: seq<T>, key: T -> int, k: int)
    ensures KeyEquals(SortByKey(xs, key), key, k) == KeyEquals(xs, key, k)
  {
    var e := WithKeys(xs, key);
    var sorted := SortDesc(e);
    assert ScoredBy(sorted, key) by {
      forall i | 0 <= i < |sorted| ensures sorted[i].score == key(sorted[i].item) {
        assert sorted[i] in multiset(e);
      }
    }
    SortDescStable(e, k);
    ItemsWithScore(sorted, key, k);
    ItemsWithScore(e, key, k);
  }

  lemma {:induction false} NoDuplicatesCountsOnce<T>(d: seq<T>, x: T)
    requires NoDuplicates(d)
    ensures multiset(d)[x] <= 1
    decreases |d|
  {
    if d != [] {
      assert d == [d[0]] + d[1..];
      assert NoDuplicates(d[1..]);
      NoDuplicatesCountsOnce(d[1..], x);
      if d[0] == x {
        assert x !in d[1..];
      }
    }
  }

  /** A permutation of a sequence without repetitions has none either. */
  lemma PermutationKeepsNoDuplicates<T>(a: seq<T>, b: seq<T>)
    requires NoDuplicates(a) && multiset(a) == multiset(b)
    ensures NoDuplicates(b)
  {
    forall i, j | 0 <= i < j < |b| ensures b[i] != b[j] {
      NoDuplicatesCountsOnce(a, b[i]);
      assert b == b[..j] + b[j..];
      assert b[i] in multiset(b[..j]) by { assert b[..j][i] == b[i]; }
      assert b[j] in multiset(b[j..]) by { assert b[j..][0] == b[j]; }
      assert multiset(b) == multiset(b[..j]) + multiset(b[j..]);
    }
  }
}
