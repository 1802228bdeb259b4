/** `GROUP BY key`: the distinct keys of a sequence, the per-key sub-sequences,
    and the fact that summing the groups gives back the sum of the whole. */
module Groups {
  import Seqs

  /** Pairwise-distinct keys. */
  predicate DistinctBy<T, K(==)>(s: seq<T>, key: T -> K)
  {
    forall i, j :: 0 <= i < j < |s| ==> key(s[i]) != key(s[j])
  }

  /** The elements of `s` whose key is `k`. */
  function HasKey<T, K(==)>(key: T -> K, k: K): T -> bool
  {
    (x: T) => key(x) == k
  }

  /** The distinct keys of `s`, in order of first appearance. */
  function Keys<T, K(==)>(s: seq<T>, key: T -> K): (r: seq<K>)
    ensures forall i, j :: 0 <= i < j < |r| ==> r[i] != r[j]
    ensures forall i :: 0 <= i < |s| ==> key(s[i]) in r
    ensures forall k :: k in r ==> exists i :: 0 <= i < |s| && key(s[i]) == k
  {
    if |s| == 0 then []
    else
      var init := s[..|s| - 1];
      var rest := Keys(init, key);
      assert forall i :: 0 <= i < |init| ==> s[i] == init[i];
      if key(s[|s| - 1]) in rest then rest else rest + [key(s[|s| - 1])]
  }

  /** The sum, over the keys `ks`, of the sum of `f` over each key's group. */
  function GroupSum<T, K(==)>(ks: seq<K>, s: seq<T>, key: T -> K, f: T -> int): int
  {
    if |ks| == 0 then 0
    else Seqs.Sum(Seqs.Filter(s, HasKey(key, ks[0])), f) + GroupSum(ks[1..], s, key, f)
  }

  lemma {:induction false} GroupSumEmpty<T, K>(ks: seq<K>, key: T -> K, f: T -> int)
    ensures GroupSum(ks, [], key, f) == 0
  {
    if |ks| > 0 {
      GroupSumEmpty(ks[1..], key, f);
    }
  }

  /** Adding one element in front adds `f(x)` to exactly the group of its key. */
  lemma {:induction false} GroupSumCons<T, K>(ks: seq<K>, x: T, s: seq<T>, key: T -> K, f: T -> int)
    requires forall i, j :: 0 <= i < j < |ks| ==> ks[i] != ks[j]
    ensures GroupSum(ks, [x] + s, key, f) == (if key(x) in ks then f(x) else 0) + GroupSum(ks, s, key, f)
  {
    if |ks| > 0 {
      GroupSumCons(ks[1..], x, s, key, f);
      var xs := [x] + s;
      assert xs[0] == x && xs[1..] == s;
      assert key(x) in ks <==> key(x) == ks[0] || key(x) in ks[1..];
      if key(x) == ks[0] {
        assert key(x) !in ks[1..];
      }
    }
  }

  /** Groups over distinct keys that cover every element partition the sum. */
  lemma {:induction false} PartitionSum<T, K>(ks: seq<K>, s: seq<T>, key: T -> K, f: T -> int)
    requires forall i, j :: 0 <= i < j < |ks| ==> ks[i] != ks[j]
    requires forall i :: 0 <= i < |s| ==> key(s[i]) in ks
    ensures GroupSum(ks, s, key, f) == Seqs.Sum(s, f)
  {
    if |s| == 0 {
      GroupSumEmpty(ks, key, f);
    } else {
      assert s == [s[0]] + s[1..];
      GroupSumCons(ks, s[0], s[1..], key, f);
      PartitionSum(ks, s[1..], key, f);
    }
  }

  /** An element that occurs at two positions occurs at least twice. */
  lemma {:induction false} Twice<T>(s: seq<T>, i: nat, j: nat)
    requires i < j < |s| && s[i] == s[j]
    ensures multiset(s)[s[i]] >= 2
  {
    assert s == s[..j] + [s[j]] + s[j+1..];
    assert s[i] in multiset(s[..j]);
  }

  /** An element that occurs at only one position occurs once. */
  lemma {:induction false} Once<T>(s: seq<T>, p: nat)
    requires p < |s|
    requires forall i :: 0 <= i < |s| && i != p ==> s[i] != s[p]
    ensures multiset(s)[s[p]] == 1
  {
    var x := s[p];
    assert s == s[..p] + [x] + s[p+1..];
    assert x !in s[..p];
    assert x !in s[p+1..];
  }

  /** Reordering keeps keys distinct. */
  lemma {:induction false} DistinctByPermutation<T, K>(a: seq<T>, b: seq<T>, key: T -> K)
    requires multiset(a) == multiset(b) && DistinctBy(a, key)
    ensures DistinctBy(b, key)
  {
    forall i, j | 0 <= i < j < |b| ensures key(b[i]) != key(b[j]) {
      if key(b[i]) == key(b[j]) {
        assert b[i] in multiset(a) && b[j] in multiset(a);
        var p :| 0 <= p < |a| && a[p] == b[i];
        var q :| 0 <= q < |a| && a[q] == b[j];
        assert p == q;
        Twice(b, i, j);
        Once(a, p);
        assert false;
      }
    }
  }
}
