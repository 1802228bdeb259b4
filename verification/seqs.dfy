/** Folds, filters, sorting and LIMIT over sequences: the building blocks of
    the SQL queries (`SUM`, `COUNT`, `WHERE`, `ORDER BY`, `LIMIT`) and of the
    frontend's `reduce` and `filter` calls. */
module Seqs {

  /** `SUM(f(x))` over the rows of `s`, left to right; 0 on no rows. */
  function Sum<T>(s: seq<T>, f: T -> int): int
  {
    if |s| == 0 then 0 else f(s[0]) + Sum(s[1..], f)
  }

  lemma {:induction false} SumAppend<T>(a: seq<T>, b: seq<T>, f: T -> int)
    ensures Sum(a + b, f) == Sum(a, f) + Sum(b, f)
  {
    if |a| == 0 {
      assert a + b == b;
    } else {
      assert (a + b)[1..] == a[1..] + b;
      SumAppend(a[1..], b, f);
    }
  }

  /** A sum does not depend on the order of its terms. */
  lemma {:induction false} SumPermutation<T>(a: seq<T>, b: seq<T>, f: T -> int)
    requires multiset(a) == multiset(b)
    ensures Sum(a, f) == Sum(b, f)
  {
    if |a| == 0 {
      assert |b| == |multiset(b)| == 0;
    } else {
      var j := MatchHead(a, b);
      SumPermutation(a[1..], b[..j] + b[j+1..], f);
      SumDrop(b, j, f);
    }
  }

  /** Where a reordering of `a` holds the first element of `a`, and what is
      left of both once it is taken out. */
  lemma {:induction false} MatchHead<T>(a: seq<T>, b: seq<T>) returns (j: nat)
    requires |a| > 0 && multiset(a) == multiset(b)
    ensures j < |b| && b[j] == a[0]
    ensures multiset(a[1..]) == multiset(b[..j] + b[j+1..])
  {
    assert a[0] in multiset(b);
    j :| 0 <= j < |b| && b[j] == a[0];
    assert multiset(a[1..]) == multiset(a) - multiset{a[0]} by {
      assert a == [a[0]] + a[1..];
    }
    assert multiset(b[..j] + b[j+1..]) == multiset(b) - multiset{b[j]} by {
      MultisetDrop(b, j);
    }
  }

  lemma {:induction false} MultisetDrop<T>(s: seq<T>, k: nat)
    requires k < |s|
    ensures multiset(s[..k] + s[k+1..]) == multiset(s) - multiset{s[k]}
  {
    assert s == s[..k] + [s[k]] + s[k+1..];
  }

  /** Replacing one term changes the sum by the difference. */
  lemma {:induction false} SumUpdate<T>(s: seq<T>, k: nat, x: T, f: T -> int)
    requires k < |s|
    ensures Sum(s[k := x], f) == Sum(s, f) - f(s[k]) + f(x)
  {
    assert s == s[..k] + [s[k]] + s[k+1..];
    assert s[k := x] == s[..k] + [x] + s[k+1..];
    SumAppend(s[..k] + [s[k]], s[k+1..], f);
    SumAppend(s[..k], [s[k]], f);
    SumAppend(s[..k] + [x], s[k+1..], f);
    SumAppend(s[..k], [x], f);
    assert Sum([x], f) == f(x);
    assert Sum([s[k]], f) == f(s[k]);
  }

  /** Dropping one term takes it off the sum. */
  lemma {:induction false} SumDrop<T>(s: seq<T>, k: nat, f: T -> int)
    requires k < |s|
    ensures Sum(s[..k] + s[k+1..], f) == Sum(s, f) - f(s[k])
  {
    if k == 0 {
      assert s[..0] + s[1..] == s[1..];
    } else {
      var t := s[1..];
      SumDrop(t, k - 1, f);
      var x := s[..k] + s[k+1..];
      assert x[0] == s[0];
      assert x[1..] == t[..k-1] + t[k..];
    }
  }

  lemma {:induction false} SumNonNegative<T>(s: seq<T>, f: T -> int)
    requires forall i :: 0 <= i < |s| ==> f(s[i]) >= 0
    ensures Sum(s, f) >= 0
  {
    if |s| > 0 {
      SumNonNegative(s[1..], f);
    }
  }

  /** `WHERE p(x)` and JavaScript's `Array.prototype.filter`: the elements
      satisfying `p`, in their original order. */
  function Filter<T>(s: seq<T>, p: T -> bool): (r: seq<T>)
    ensures |r| <= |s|
  {
    if |s| == 0 then []
    else if p(s[0]) then [s[0]] + Filter(s[1..], p) else Filter(s[1..], p)
  }

  /** The filter keeps exactly the elements satisfying `p`. */
  lemma {:induction false} FilterMembers<T>(s: seq<T>, p: T -> bool)
    ensures forall i :: 0 <= i < |Filter(s, p)| ==> p(Filter(s, p)[i]) && Filter(s, p)[i] in s
    ensures forall i :: 0 <= i < |s| && p(s[i]) ==> s[i] in Filter(s, p)
  {
    if |s| > 0 {
      FilterMembers(s[1..], p);
      assert s == [s[0]] + s[1..];
    }
  }

  /** Filtering commutes with concatenation, so the kept elements appear in
      the same relative order as in the input. */
  lemma {:induction false} FilterAppend<T>(a: seq<T>, b: seq<T>, p: T -> bool)
    ensures Filter(a + b, p) == Filter(a, p) + Filter(b, p)
  {
    if |a| == 0 {
      assert a + b == b;
    } else {
      assert (a + b)[1..] == a[1..] + b;
      FilterAppend(a[1..], b, p);
    }
  }

  /** The filter keeps each kept value as often as the input holds it. */
  lemma {:induction false} FilterMultiset<T>(s: seq<T>, p: T -> bool)
    ensures multiset(Filter(s, p)) <= multiset(s)
    ensures forall i :: 0 <= i < |s| && p(s[i]) ==> multiset(Filter(s, p))[s[i]] == multiset(s)[s[i]]
  {
    FilterCount(s, p);
    FilterSubMultiset(s, p);
  }

  lemma {:induction false} FilterSubMultiset<T>(s: seq<T>, p: T -> bool)
    ensures multiset(Filter(s, p)) <= multiset(s)
  {
    if |s| > 0 {
      var t := s[1..];
      FilterSubMultiset(t, p);
      assert s == [s[0]] + t;
      if p(s[0]) {
        assert Filter(s, p) == [s[0]] + Filter(t, p);
      }
    }
  }

  /** How often the filter's output holds each value. */
  lemma {:induction false} FilterCount<T>(s: seq<T>, p: T -> bool)
    ensures forall x :: multiset(Filter(s, p))[x] == if p(x) then multiset(s)[x] else 0
  {
    if |s| > 0 {
      var t := s[1..];
      FilterCount(t, p);
      assert s == [s[0]] + t;
      assert multiset(s) == multiset{s[0]} + multiset(t);
      if p(s[0]) {
        assert Filter(s, p) == [s[0]] + Filter(t, p);
        assert multiset(Filter(s, p)) == multiset{s[0]} + multiset(Filter(t, p));
      } else {
        assert Filter(s, p) == Filter(t, p);
      }
    }
  }

  /** A filter that drops some element returns a shorter sequence. */
  lemma {:induction false} FilterShorter<T>(s: seq<T>, p: T -> bool, k: nat)
    requires k < |s| && !p(s[k])
    ensures |Filter(s, p)| < |s|
  {
    if k > 0 {
      FilterShorter(s[1..], p, k - 1);
    }
  }

  /** A filter that drops exactly the element at `k` splices it out. */
  lemma {:induction false} FilterDropOne<T>(s: seq<T>, p: T -> bool, k: nat)
    requires k < |s| && !p(s[k])
    requires forall i :: 0 <= i < |s| && i != k ==> p(s[i])
    ensures Filter(s, p) == s[..k] + s[k+1..]
  {
    var front, back := s[..k], s[k+1..];
    var dropped := [s[k]] + back;
    assert s == front + dropped;
    FilterAppend(front, dropped, p);
    assert forall i :: 0 <= i < |front| ==> front[i] == s[i];
    FilterAll(front, p);
    assert forall i :: 0 <= i < |back| ==> back[i] == s[k+1+i];
    FilterAll(back, p);
    assert dropped[1..] == back;
    assert Filter(dropped, p) == Filter(back, p);
  }

  /** Splicing out a kept element takes it off the filter's output: one
      element fewer, and its term off the sum. */
  lemma {:induction false} FilterSplice<T>(s: seq<T>, k: nat, p: T -> bool, f: T -> int)
    requires k < |s| && p(s[k])
    ensures |Filter(s[..k] + s[k+1..], p)| == |Filter(s, p)| - 1
    ensures Sum(Filter(s[..k] + s[k+1..], p), f) == Sum(Filter(s, p), f) - f(s[k])
  {
    var a, b := Filter(s[..k], p), Filter(s[k+1..], p);
    assert Filter(s, p) == a + ([s[k]] + b) by {
      assert s == s[..k] + ([s[k]] + s[k+1..]);
      FilterAppend(s[..k], [s[k]] + s[k+1..], p);
      FilterAppend([s[k]], s[k+1..], p);
    }
    assert Filter(s[..k] + s[k+1..], p) == a + b by {
      FilterAppend(s[..k], s[k+1..], p);
    }
    assert Sum(a + ([s[k]] + b), f) == Sum(a, f) + f(s[k]) + Sum(b, f) by {
      SumAppend(a, [s[k]] + b, f);
      assert ([s[k]] + b)[1..] == b;
    }
    SumAppend(a, b, f);
  }

  /** A filter that keeps everything returns its input unchanged. */
  lemma {:induction false} FilterAll<T>(s: seq<T>, p: T -> bool)
    requires forall i :: 0 <= i < |s| ==> p(s[i])
    ensures Filter(s, p) == s
  {
    if |s| > 0 {
      FilterAll(s[1..], p);
    }
  }

  /** Filtering by `p` and then by a stronger `q` is filtering by `q`. */
  lemma {:induction false} FilterAbsorb<T>(s: seq<T>, p: T -> bool, q: T -> bool)
    requires forall x :: q(x) ==> p(x)
    ensures Filter(Filter(s, p), q) == Filter(s, q)
  {
    if |s| > 0 {
      FilterAbsorb(s[1..], p, q);
    }
  }

  /** Two filters over the same input agree when their predicates agree on it. */
  lemma {:induction false} FilterCongruent<T>(s: seq<T>, p: T -> bool, q: T -> bool)
    requires forall i :: 0 <= i < |s| ==> p(s[i]) == q(s[i])
    ensures Filter(s, p) == Filter(s, q)
  {
    if |s| > 0 {
      FilterCongruent(s[1..], p, q);
    }
  }

  /** Two inputs of the same length whose elements agree wherever either is
      kept filter to the same output. */
  lemma {:induction false} FilterAgree<T>(a: seq<T>, b: seq<T>, p: T -> bool)
    requires |a| == |b|
    requires forall i :: 0 <= i < |a| ==> p(a[i]) == p(b[i])
    requires forall i :: 0 <= i < |a| && p(a[i]) ==> a[i] == b[i]
    ensures Filter(a, p) == Filter(b, p)
  {
    if |a| > 0 {
      FilterAgree(a[1..], b[1..], p);
    }
  }

  /** `r` is `s` with some elements left out and the rest in their order. */
  predicate SubsequenceOf<T(==)>(r: seq<T>, s: seq<T>)
    decreases |s|
  {
    if |r| == 0 then true
    else if |s| == 0 then false
    else if r[0] == s[0] then SubsequenceOf(r[1..], s[1..])
    else SubsequenceOf(r, s[1..])
  }

  /** The filter leaves its input's order alone. */
  lemma {:induction false} FilterSubsequence<T>(s: seq<T>, p: T -> bool)
    ensures SubsequenceOf(Filter(s, p), s)
  {
    if |s| > 0 {
      FilterSubsequence(s[1..], p);
      var fr := Filter(s[1..], p);
      if p(s[0]) {
        assert Filter(s, p) == [s[0]] + fr;
        assert ([s[0]] + fr)[1..] == fr;
      } else {
        assert Filter(s, p) == fr;
        if |fr| > 0 && fr[0] == s[0] {
          SubsequenceSkip(fr, s[1..], s[0]);
        }
      }
    }
  }

  /** A subsequence of `s` stays one when `s` gets a new first element. */
  lemma {:induction false} SubsequenceSkip<T>(r: seq<T>, s: seq<T>, x: T)
    requires SubsequenceOf(r, s)
    ensures SubsequenceOf(r, [x] + s)
    decreases |s|, 1
  {
    var xs := [x] + s;
    assert xs[1..] == s;
    if |r| > 0 && r[0] == x {
      assert SubsequenceOf(r[1..], s) by {
        SubsequenceTail(r, s);
      }
    }
  }

  /** Dropping the first element of a subsequence keeps it a subsequence. */
  lemma {:induction false} SubsequenceTail<T>(r: seq<T>, s: seq<T>)
    requires |r| > 0 && SubsequenceOf(r, s)
    ensures SubsequenceOf(r[1..], s)
    decreases |s|, 0
  {
    if r[0] == s[0] {
      SubsequenceSkip(r[1..], s[1..], s[0]);
      assert [s[0]] + s[1..] == s;
    } else {
      SubsequenceTail(r, s[1..]);
      SubsequenceSkip(r[1..], s[1..], s[0]);
      assert [s[0]] + s[1..] == s;
    }
  }

  /** The tail of a prefix is a prefix of the tail. */
  lemma {:induction false} PrefixTail<T>(s: seq<T>, k: nat)
    requires 0 < k <= |s|
    ensures s[..k][1..] == s[1..][..k - 1]
  {
  }

  /** `COUNT(*) ... WHERE p(x)`. */
  function Count<T>(s: seq<T>, p: T -> bool): nat
  {
    |Filter(s, p)|
  }

  /** Lexicographic `>=` on (primary, secondary) sort keys. */
  predicate KeyGe(a: (int, int), b: (int, int))
  {
    a.0 > b.0 || (a.0 == b.0 && a.1 >= b.1)
  }

  /** `ORDER BY k1 DESC, k2 DESC` where `key(x) == (k1, k2)`. */
  predicate SortedDesc<T>(s: seq<T>, key: T -> (int, int))
  {
    forall i, j :: 0 <= i < j < |s| ==> KeyGe(key(s[i]), key(s[j]))
  }

  function InsertDesc<T>(x: T, s: seq<T>, key: T -> (int, int)): (r: seq<T>)
    requires SortedDesc(s, key)
    ensures multiset(r) == multiset(s) + multiset{x}
    ensures SortedDesc(r, key)
  {
    if |s| == 0 then [x]
    else if KeyGe(key(x), key(s[0])) then
      SortedCons(x, s, key);
      [x] + s
    else
      var rest := InsertDesc(x, s[1..], key);
      BoundsInsert(x, s, rest, key);
      SortedCons(s[0], rest, key);
      assert s == [s[0]] + s[1..];
      [s[0]] + rest
  }

  /** A head that bounds every element keeps the order. */
  lemma {:induction false} SortedCons<T>(h: T, s: seq<T>, key: T -> (int, int))
    requires SortedDesc(s, key)
    requires |s| == 0 || KeyGe(key(h), key(s[0]))
    ensures SortedDesc([h] + s, key)
  {
    var r := [h] + s;
    forall i, j | 0 <= i < j < |r| ensures KeyGe(key(r[i]), key(r[j])) {
      assert r[j] == s[j-1];
      if i > 0 {
        assert r[i] == s[i-1];
      } else if j > 1 {
        assert KeyGe(key(s[0]), key(s[j-1]));
      }
    }
  }

  /** What `x` goes below, the head `s[0]` of a sorted `s` still bounds once
      `x` is inserted into the rest. */
  lemma {:induction false} BoundsInsert<T>(x: T, s: seq<T>, rest: seq<T>, key: T -> (int, int))
    requires |s| > 0 && SortedDesc(s, key) && !KeyGe(key(x), key(s[0]))
    requires multiset(rest) == multiset(s[1..]) + multiset{x}
    ensures |rest| == 0 || KeyGe(key(s[0]), key(rest[0]))
  {
    if |rest| > 0 {
      assert rest[0] in multiset(rest);
      if rest[0] != x {
        assert rest[0] in multiset(s[1..]);
        var m :| 0 <= m < |s[1..]| && s[1..][m] == rest[0];
        assert s[m+1] == rest[0];
      }
    }
  }

  /** Rows sorted by descending key: a permutation of the input that is
      ordered. Ties keep an unspecified order, as in SQL. */
  function SortDesc<T>(s: seq<T>, key: T -> (int, int)): (r: seq<T>)
    ensures multiset(r) == multiset(s)
    ensures SortedDesc(r, key)
  {
    if |s| == 0 then []
    else
      assert s == [s[0]] + s[1..];
      InsertDesc(s[0], SortDesc(s[1..], key), key)
  }

  /** `SELECT … WHERE p(x) ORDER BY key DESC`: exactly the elements that
      satisfy `p`, each as often as in the input, ordered by the key. */
  function Select<T>(s: seq<T>, p: T -> bool, key: T -> (int, int)): (r: seq<T>)
    ensures forall i :: 0 <= i < |r| ==> p(r[i]) && r[i] in s
    ensures forall i :: 0 <= i < |s| && p(s[i]) ==> s[i] in r
    ensures multiset(r) == multiset(Filter(s, p)) && multiset(r) <= multiset(s)
    ensures SortedDesc(r, key)
  {
    var kept := Filter(s, p);
    var r := SortDesc(kept, key);
    FilterMembers(s, p);
    FilterMultiset(s, p);
    assert forall i :: 0 <= i < |r| ==> r[i] in kept by {
      forall i | 0 <= i < |r| ensures r[i] in kept { assert r[i] in multiset(r); }
    }
    assert forall i :: 0 <= i < |kept| ==> kept[i] in r by {
      forall i | 0 <= i < |kept| ensures kept[i] in r { assert kept[i] in multiset(kept); }
    }
    r
  }

  /** SQLite `LIMIT n`: at most `n` leading rows; a negative limit means no
      limit at all. */
  function Take<T>(s: seq<T>, limit: int): (r: seq<T>)
    ensures limit >= 0 ==> |r| == if limit < |s| then limit else |s|
    ensures limit < 0 ==> r == s
    ensures |r| <= |s| && r == s[..|r|]
    ensures multiset(r) <= multiset(s)
  {
    if limit < 0 || |s| <= limit then s
    else
      assert s == s[..limit] + s[limit..];
      s[..limit]
  }

  /** On an ordered sequence, LIMIT keeps the top rows: an element left out
      of a non-empty result ranks no higher than the last row returned. */
  lemma {:induction false} TakeTop<T>(s: seq<T>, key: T -> (int, int), n: int, j: nat)
    requires SortedDesc(s, key) && j < |s| && n != 0 && s[j] !in Take(s, n)
    ensures 0 < |Take(s, n)| && KeyGe(key(Take(s, n)[|Take(s, n)| - 1]), key(s[j]))
  {
  }

  /** `ORDER BY … LIMIT n` keeps the top rows: a row that did not make it
      into a non-empty result ranks no higher than the last row returned. */
  lemma {:induction false} TopRows<T>(xs: seq<T>, key: T -> (int, int), n: int, x: T)
    requires x in xs && n != 0 && x !in Take(SortDesc(xs, key), n)
    ensures var r := Take(SortDesc(xs, key), n);
      0 < |r| && KeyGe(key(r[|r| - 1]), key(x))
  {
    var s := SortDesc(xs, key);
    assert x in multiset(s);
    var j :| 0 <= j < |s| && s[j] == x;
    TakeTop(s, key, n, j);
  }
}
