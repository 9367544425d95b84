/** Ranking shared by `InMemoryVectorStore.search` and the chat handler: score
    every element, sort by descending score with JavaScript's stable
    `Array.prototype.sort`, keep the first k. The similarity itself is a
    parameter (`key`), so everything here holds for any score function. */
module Ranking {
  import opened Wrappers

  /** An embedding vector, as the embedding model returns it. */
  type Embedding = seq<real>

  /** An element with its score attached (`{ ...it, score }`). */
  datatype Scored<T> = Scored(item: T, score: real)

  /** `xs.map((it) => ({ ...it, score: key(it) }))`. */
  function ScoreAll<T>(xs: seq<T>, key: T -> real): (r: seq<Scored<T>>)
    ensures |r| == |xs|
  {
    seq(|xs|, i requires 0 <= i < |xs| => Scored(xs[i], key(xs[i])))
  }

  /** Scores never increase from left to right. */
  predicate SortedDesc<T>(s: seq<Scored<T>>)
  {
    forall i, j :: 0 <= i < j < |s| ==> s[i].score >= s[j].score
  }

  /** The elements of `s` whose score is `v`, in their order in `s`. A sort is
      stable exactly when it keeps every one of these subsequences. */
  function WithScore<T>(s: seq<Scored<T>>, v: real): seq<Scored<T>>
  {
    if s == [] then [] else (if s[0].score == v then [s[0]] else []) + WithScore(s[1..], v)
  }

  /** Puts `x` before the first element of the sorted `s` that does not score
      higher, so `x` goes ahead of every element with the same score. */
  function Insert<T>(x: Scored<T>, s: seq<Scored<T>>): seq<Scored<T>>
  {
    if s == [] || x.score >= s[0].score then [x] + s else [s[0]] + Insert(x, s[1..])
  }

  /** `sort((a, b) => b.score - a.score)`: a stable sort by descending score
      (insertion sort; SortDescUnique shows every stable sort gives the same). */
  function SortDesc<T>(s: seq<Scored<T>>): seq<Scored<T>>
  {
    if s == [] then [] else Insert(s[0], SortDesc(s[1..]))
  }

  lemma {:induction false} InsertSorted<T>(x: Scored<T>, s: seq<Scored<T>>)
    requires SortedDesc(s)
    ensures SortedDesc(Insert(x, s))
    ensures |Insert(x, s)| == |s| + 1
    ensures forall i :: 0 <= i < |Insert(x, s)| ==>
      Insert(x, s)[i] == x || exists j :: 0 <= j < |s| && Insert(x, s)[i] == s[j]
  {
    if s != [] && x.score < s[0].score {
      InsertSorted(x, s[1..]);
    }
  }

  lemma {:induction false} InsertPerm<T>(x: Scored<T>, s: seq<Scored<T>>)
    ensures multiset(Insert(x, s)) == multiset{x} + multiset(s)
  {
    if s != [] && x.score < s[0].score {
      InsertPerm(x, s[1..]);
      assert s == [s[0]] + s[1..];
    }
  }

  lemma {:induction false} InsertWithScore<T>(x: Scored<T>, s: seq<Scored<T>>, v: real)
    requires SortedDesc(s)
    ensures WithScore(Insert(x, s), v) == (if x.score == v then [x] else []) + WithScore(s, v)
  {
    var hx := if x.score == v then [x] else [];
    if s == [] || x.score >= s[0].score {
      assert ([x] + s)[0] == x && ([x] + s)[1..] == s;
    } else {
      var hs := if s[0].score == v then [s[0]] else [];
      SortedTail(s);
      InsertWithScore(x, s[1..], v);
      var ins := Insert(x, s);
      assert ins[0] == s[0] && ins[1..] == Insert(x, s[1..]);
      assert WithScore(ins, v) == hs + (hx + WithScore(s[1..], v));
      assert WithScore(s, v) == hs + WithScore(s[1..], v);
      assert hx == [] || hs == [];
    }
  }

  /** The stable descending sort is sorted, a permutation, and keeps elements
      with equal scores in their original order. */
  lemma {:induction false} SortDescSpec<T>(s: seq<Scored<T>>)
    ensures SortedDesc(SortDesc(s))
    ensures |SortDesc(s)| == |s|
    ensures multiset(SortDesc(s)) == multiset(s)
    ensures forall v :: WithScore(SortDesc(s), v) == WithScore(s, v)
  {
    if s != [] {
      SortDescSpec(s[1..]);
      InsertSorted(s[0], SortDesc(s[1..]));
      InsertPerm(s[0], SortDesc(s[1..]));
      assert s == [s[0]] + s[1..];
      forall v ensures WithScore(SortDesc(s), v) == WithScore(s, v) {
        InsertWithScore(s[0], SortDesc(s[1..]), v);
      }
    }
  }

  lemma SortedTail<T>(s: seq<Scored<T>>)
    requires SortedDesc(s) && s != []
    ensures SortedDesc(s[1..])
  {
    forall i, j | 0 <= i < j < |s| - 1 ensures s[1..][i].score >= s[1..][j].score {
      assert s[1..][i] == s[i + 1] && s[1..][j] == s[j + 1];
    }
  }

  lemma {:induction false} WithScoreNonEmpty<T>(s: seq<Scored<T>>, j: nat)
    requires j < |s|
    ensures WithScore(s, s[j].score) != []
  {
    if j > 0 && s[0].score != s[j].score {
      WithScoreNonEmpty(s[1..], j - 1);
    }
  }

  lemma {:induction false} WithScoreOfSorted<T>(s: seq<Scored<T>>, v: real)
    requires SortedDesc(s) && s != [] && WithScore(s, v) != []
    ensures s[0].score >= v
  {
    if s[0].score != v {
      assert WithScore(s, v) == WithScore(s[1..], v);
      WithScoreOfSorted(s[1..], v);
    }
  }

  /** Two sorted sequences with the same elements of every score, in the same
      order, are equal: the stable descending order is unique. */
  lemma {:induction false} StableOrderUnique<T>(a: seq<Scored<T>>, b: seq<Scored<T>>)
    requires SortedDesc(a) && SortedDesc(b)
    requires forall v :: WithScore(a, v) == WithScore(b, v)
    ensures a == b
  {
    if a == [] || b == [] {
      var c := if a == [] then b else a;
      if c != [] {
        WithScoreNonEmpty(c, 0);
      }
    } else {
      var m, m' := a[0].score, b[0].score;
      WithScoreNonEmpty(a, 0);
      WithScoreNonEmpty(b, 0);
      WithScoreOfSorted(b, m);
      WithScoreOfSorted(a, m');
      assert a[0] == WithScore(a, m)[0] == WithScore(b, m)[0] == b[0];
      forall v ensures WithScore(a[1..], v) == WithScore(b[1..], v) {
        var h := if m == v then [a[0]] else [];
        assert WithScore(a, v) == h + WithScore(a[1..], v);
        assert WithScore(b, v) == h + WithScore(b[1..], v);
        assert WithScore(a[1..], v) == WithScore(a, v)[|h|..];
        assert WithScore(b[1..], v) == WithScore(b, v)[|h|..];
      }
      assert SortedDesc(a[1..]) && SortedDesc(b[1..]) by {
        SortedTail(a);
        SortedTail(b);
      }
      StableOrderUnique(a[1..], b[1..]);
    }
  }

  /** Any sequence that is sorted by descending score and keeps the order of
      equal-score elements is exactly SortDesc: the model does not depend on
      which stable sorting algorithm the JavaScript engine uses. */
  lemma SortDescUnique<T>(s: seq<Scored<T>>, r: seq<Scored<T>>)
    requires SortedDesc(r)
    requires forall v :: WithScore(r, v) == WithScore(s, v)
    ensures r == SortDesc(s)
  {
    SortDescSpec(s);
    StableOrderUnique(r, SortDesc(s));
  }

  lemma {:induction false} WithScorePrefix<T>(s: seq<Scored<T>>, m: nat, v: real)
    requires m <= |s|
    ensures WithScore(s[..m], v) <= WithScore(s, v)
  {
    if m > 0 {
      WithScorePrefix(s[1..], m - 1, v);
      assert s[..m][0] == s[0] && s[..m][1..] == s[1..][..m - 1];
    }
  }

  /** Search and ranking: score every element, stable-sort by descending
      score, keep the first k (`slice(0, k)`). */
  function TopK<T(==)>(xs: seq<T>, key: T -> real, k: nat): (r: seq<Scored<T>>)
    ensures |r| == Min(k, |xs|)
    ensures SortedDesc(r)
    ensures forall i :: 0 <= i < |r| ==> r[i].item in xs && r[i].score == key(r[i].item)
    ensures multiset(r) <= multiset(ScoreAll(xs, key))
    ensures forall x, y :: x in multiset(ScoreAll(xs, key)) - multiset(r) && y in r ==> x.score <= y.score
    ensures forall v :: WithScore(r, v) <= WithScore(ScoreAll(xs, key), v)
  {
    var all := ScoreAll(xs, key);
    var s := SortDesc(all);
    SortDescSpec(all);
    ScoredItems(xs, key, s);
    TopKFacts(all, s, Min(k, |xs|));
    s[..Min(k, |xs|)]
  }

  /** Every element of a permutation of the scored list is an element of `xs`
      carrying its own score. */
  lemma ScoredItems<T>(xs: seq<T>, key: T -> real, s: seq<Scored<T>>)
    requires multiset(s) == multiset(ScoreAll(xs, key))
    ensures forall i :: 0 <= i < |s| ==> s[i].item in xs && s[i].score == key(s[i].item)
  {
    var all := ScoreAll(xs, key);
    forall i | 0 <= i < |s| ensures s[i].item in xs && s[i].score == key(s[i].item) {
      assert s[i] in multiset(s);
      assert s[i] in all;
      var j :| 0 <= j < |all| && all[j] == s[i];
      assert all[j] == Scored(xs[j], key(xs[j]));
    }
  }

  /** A prefix of a sorted permutation of `all` is a sub-multiset of it, scores
      at least as high as everything left out, and keeps equal-score order. */
  lemma TopKFacts<T>(all: seq<Scored<T>>, s: seq<Scored<T>>, m: nat)
    requires SortedDesc(s) && multiset(s) == multiset(all) && m <= |s|
    requires forall v :: WithScore(s, v) == WithScore(all, v)
    ensures SortedDesc(s[..m])
    ensures multiset(s[..m]) <= multiset(all)
    ensures forall x, y :: x in multiset(all) - multiset(s[..m]) && y in s[..m] ==> x.score <= y.score
    ensures forall v :: WithScore(s[..m], v) <= WithScore(all, v)
  {
    assert s == s[..m] + s[m..];
    assert multiset(all) - multiset(s[..m]) == multiset(s[m..]);
    PrefixDominates(s, m);
    forall v ensures WithScore(s[..m], v) <= WithScore(all, v) {
      WithScorePrefix(s, m, v);
    }
  }

  /** In a sequence sorted by descending score, nothing after position m
      scores higher than anything before it. */
  lemma PrefixDominates<T>(s: seq<Scored<T>>, m: nat)
    requires SortedDesc(s) && m <= |s|
    ensures forall x, y :: x in multiset(s[m..]) && y in s[..m] ==> x.score <= y.score
  {
    forall x, y | x in multiset(s[m..]) && y in s[..m] ensures x.score <= y.score {
      var j :| m <= j < |s| && s[j] == x;
      var i :| 0 <= i < m && s[i] == y;
    }
  }
}
