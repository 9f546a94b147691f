/** Ranking by a score: Python's stable `sorted(xs, key=key, reverse=True)`
    followed by the cut `[:top_k]`. Both the recommender and the retriever
    rank this way. */
module Ranking {
  import opened Seqs

  /** Scores never increase from left to right. */
  ghost predicate SortedDesc<T>(xs: seq<T>, key: T -> real) {
    forall i, j :: 0 <= i < j < |xs| ==> key(xs[i]) >= key(xs[j])
  }

  /** The elements whose score is exactly `v`, in order. */
  function WithKey<T>(xs: seq<T>, key: T -> real, v: real): seq<T>
  {
    if |xs| == 0 then []
    else (if key(xs[0]) == v then [xs[0]] else []) + WithKey(xs[1..], key, v)
  }

  /** Selecting one score class distributes over concatenation. */
  lemma {:induction false} WithKeyConcat<T>(xs: seq<T>, ys: seq<T>, key: T -> real, v: real)
    ensures WithKey(xs + ys, key, v) == WithKey(xs, key, v) + WithKey(ys, key, v)
  {
    if |xs| == 0 {
      assert xs + ys == ys;
    } else {
      var head := if key(xs[0]) == v then [xs[0]] else [];
      assert (xs + ys)[0] == xs[0] && (xs + ys)[1..] == xs[1..] + ys;
      assert WithKey(xs + ys, key, v) == head + WithKey(xs[1..] + ys, key, v);
      WithKeyConcat(xs[1..], ys, key, v);
      assert WithKey(xs, key, v) == head + WithKey(xs[1..], key, v);
    }
  }

  /** Places `x` after every element scoring strictly more and before the
      rest; since `x` came first in the input, it goes ahead of its ties. */
  function Insert<T>(x: T, ys: seq<T>, key: T -> real): (r: seq<T>)
    ensures |r| == |ys| + 1
    ensures multiset(r) == multiset(ys) + multiset{x}
  {
    if |ys| == 0 || key(ys[0]) <= key(x) then [x] + ys
    else
      assert ys == [ys[0]] + ys[1..];
      [ys[0]] + Insert(x, ys[1..], key)
  }

  /** Inserting into a sorted sequence keeps it sorted. */
  lemma {:induction false} InsertSorted<T>(x: T, ys: seq<T>, key: T -> real)
    requires SortedDesc(ys, key)
    ensures SortedDesc(Insert(x, ys, key), key)
  {
    if |ys| > 0 && key(ys[0]) > key(x) {
      var rest := Insert(x, ys[1..], key);
      InsertSorted(x, ys[1..], key);
      assert Insert(x, ys, key) == [ys[0]] + rest;
      forall z | z in rest
        ensures key(z) <= key(ys[0])
      {
        assert z in multiset(rest);
        assert z in multiset(ys[1..]) + multiset{x};
        if z != x {
          var k :| 0 <= k < |ys[1..]| && ys[1..][k] == z;
          assert ys[k + 1] == z;
        }
      }
      ConsSorted(ys[0], rest, key);
    }
  }

  /** A head scoring at least every element of a sorted tail keeps it sorted. */
  lemma ConsSorted<T>(h: T, rest: seq<T>, key: T -> real)
    requires SortedDesc(rest, key)
    requires forall z | z in rest :: key(z) <= key(h)
    ensures SortedDesc([h] + rest, key)
  {
    var r := [h] + rest;
    forall i, j | 0 <= i < j < |r|
      ensures key(r[i]) >= key(r[j])
    {
      assert r[j] == rest[j - 1];
      if i > 0 {
        assert r[i] == rest[i - 1];
      }
    }
  }

  /** Python's `sorted(xs, key=key, reverse=True)`: a stable sort by
      descending score (insertion sort). */
  function SortByDesc<T>(xs: seq<T>, key: T -> real): (r: seq<T>)
    ensures |r| == |xs|
    ensures multiset(r) == multiset(xs)
    ensures SortedDesc(r, key)
  {
    if |xs| == 0 then []
    else
      assert xs == [xs[0]] + xs[1..];
      InsertSorted(xs[0], SortByDesc(xs[1..], key), key);
      Insert(xs[0], SortByDesc(xs[1..], key), key)
  }

  /** Inserting `x` puts it ahead of every element of its score class. */
  lemma {:induction false} InsertWithKey<T>(x: T, ys: seq<T>, key: T -> real, v: real)
    ensures WithKey(Insert(x, ys, key), key, v) == (if key(x) == v then [x] else []) + WithKey(ys, key, v)
  {
    if |ys| == 0 || key(ys[0]) <= key(x) {
      assert ([x] + ys)[1..] == ys;
    } else {
      InsertWithKey(x, ys[1..], key, v);
      var rest := Insert(x, ys[1..], key);
      assert ([ys[0]] + rest)[1..] == rest;
      var head := if key(ys[0]) == v then [ys[0]] else [];
      var mid := if key(x) == v then [x] else [];
      assert WithKey(Insert(x, ys, key), key, v) == head + (mid + WithKey(ys[1..], key, v));
      assert WithKey(ys, key, v) == head + WithKey(ys[1..], key, v);
      assert head == [] || mid == [];
    }
  }

  /** Stability: for every score, the elements with that score appear in
      the sorted output exactly as they appear in the input. */
  lemma {:induction false} SortStable<T>(xs: seq<T>, key: T -> real, v: real)
    ensures WithKey(SortByDesc(xs, key), key, v) == WithKey(xs, key, v)
  {
    if |xs| > 0 {
      SortStable(xs[1..], key, v);
      InsertWithKey(xs[0], SortByDesc(xs[1..], key), key, v);
    }
  }

  /** `a` is a prefix of `b`. */
  predicate IsPrefix<T(==)>(a: seq<T>, b: seq<T>) {
    |a| <= |b| && a == b[..|a|]
  }

  /** The first `k` elements (Python `[:k]`) of the stable descending sort. */
  function TopK<T(==)>(xs: seq<T>, key: T -> real, k: int): (r: seq<T>)
    ensures |r| == (if k >= 0 then Min(k, |xs|) else Max(0, |xs| + k))
    ensures SortedDesc(r, key)
    ensures multiset(r) <= multiset(xs)
    ensures forall x, y | x in xs && multiset(r)[x] < multiset(xs)[x] && y in r :: key(x) <= key(y)
    ensures forall v :: IsPrefix(WithKey(r, key, v), WithKey(xs, key, v))
  {
    var s := SortByDesc(xs, key);
    var r := PyTake(s, k);
    TopKFacts(xs, key, s, r);
    r
  }

  /** The facts `TopK` promises, for a prefix `r` of the sorted `s`. */
  lemma TopKFacts<T>(xs: seq<T>, key: T -> real, s: seq<T>, r: seq<T>)
    requires s == SortByDesc(xs, key)
    requires |r| <= |s| && r == s[..|r|]
    ensures multiset(r) <= multiset(xs)
    ensures forall x, y | x in xs && multiset(r)[x] < multiset(xs)[x] && y in r :: key(x) <= key(y)
    ensures forall v :: IsPrefix(WithKey(r, key, v), WithKey(xs, key, v))
  {
    var m := |r|;
    assert s == r + s[m..];
    assert multiset(s) == multiset(r) + multiset(s[m..]);
    TopKLeftOut(s, key, m);
    forall v
      ensures IsPrefix(WithKey(r, key, v), WithKey(xs, key, v))
    {
      WithKeyConcat(r, s[m..], key, v);
      SortStable(xs, key, v);
    }
  }

  /** In a sorted sequence, anything beyond position `m` scores no more than
      anything before it. */
  lemma TopKLeftOut<T>(s: seq<T>, key: T -> real, m: nat)
    requires SortedDesc(s, key)
    requires m <= |s|
    ensures forall x, y | x in multiset(s[m..]) && y in s[..m] :: key(x) <= key(y)
  {
    forall x, y | x in multiset(s[m..]) && y in s[..m]
      ensures key(x) <= key(y)
    {
      assert x in s[m..];
      var j :| 0 <= j < |s[m..]| && s[m..][j] == x;
      var i :| 0 <= i < m && s[..m][i] == y;
      assert s[i] == y && s[m + j] == x;
    }
  }

  /** Deleting elements keeps the order of each score class. */
  lemma {:induction false} WithKeySubseq<T>(xs: seq<T>, ys: seq<T>, key: T -> real, v: real)
    requires SubseqOf(xs, ys)
    ensures SubseqOf(WithKey(xs, key, v), WithKey(ys, key, v))
    decreases |ys|
  {
    if |ys| > 0 {
      var a := WithKey(xs, key, v);
      var b := WithKey(ys[1..], key, v);
      if SubseqOf(xs, ys[1..]) {
        WithKeySubseq(xs, ys[1..], key, v);
        if key(ys[0]) == v {
          var c := [ys[0]] + b;
          assert WithKey(ys, key, v) == c;
          assert c[1..] == b;
          assert SubseqOf(a, c[1..]);
        } else {
          assert WithKey(ys, key, v) == [] + b == b;
        }
      } else {
        WithKeySubseq(xs[1..], ys[1..], key, v);
        var a1 := WithKey(xs[1..], key, v);
        if key(ys[0]) == v {
          var c, d := [ys[0]] + b, [xs[0]] + a1;
          assert WithKey(ys, key, v) == c && WithKey(xs, key, v) == d;
          assert c[1..] == b && d[1..] == a1;
          assert SubseqOf(d[1..], c[1..]);
        } else {
          assert WithKey(ys, key, v) == [] + b == b;
          assert WithKey(xs, key, v) == [] + a1 == a1;
        }
      }
    }
  }

  /** Stability of the cut ranking over a subsequence of the input: for
      every score, the chosen elements with that score come in the order
      they have in `ys`. */
  lemma TopKStableIn<T>(xs: seq<T>, ys: seq<T>, key: T -> real, k: int, v: real)
    requires SubseqOf(xs, ys)
    ensures SubseqOf(WithKey(TopK(xs, key, k), key, v), WithKey(ys, key, v))
  {
    var r := TopK(xs, key, k);
    assert IsPrefix(WithKey(r, key, v), WithKey(xs, key, v));
    PrefixIsSubseq(WithKey(r, key, v), WithKey(xs, key, v));
    WithKeySubseq(xs, ys, key, v);
    SubseqTrans(WithKey(r, key, v), WithKey(xs, key, v), WithKey(ys, key, v));
  }
}
