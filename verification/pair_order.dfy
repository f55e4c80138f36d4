/**
 The order in which `creategraph` compares keys, by position in the dictionary's
 iteration order: outer position `i`, then every later inner position `b`. Keys at
 earlier positions are already in the checked set and the key at `i` itself is
 skipped, so the pairs met are exactly the upper triangle `i < b`, row by row.
 */
module PairOrder {

  /** The comparisons of outer position `i` once the inner loop has passed
      positions `0 .. j - 1`: the pairs `(i, b)` with `i < b < j`. */
  function Row(i: nat, j: nat): (r: seq<(nat, nat)>)
    ensures |r| == if j > i + 1 then j - i - 1 else 0
    ensures forall s :: 0 <= s < |r| ==> r[s] == (i, i + 1 + s)
    decreases j
  {
    if j <= i + 1 then [] else Row(i, j - 1) + [(i, j - 1)]
  }

  /** The comparisons of the first `i` outer iterations over `n` keys. */
  function Triangle(n: nat, i: nat): (t: seq<(nat, nat)>)
    requires i <= n
    ensures forall s :: 0 <= s < |t| ==> t[s].0 < i && t[s].0 < t[s].1 < n
  {
    if i == 0 then [] else Triangle(n, i - 1) + Row(i - 1, n)
  }

  /** Outer iteration `x` makes `n - 1 - x` comparisons, so the first `i` make
      i(2n - i - 1)/2 of them. */
  lemma {:induction false} TriangleSize(n: nat, i: nat)
    requires i <= n
    ensures 2 * |Triangle(n, i)| == i * (2 * n - i - 1)
  {
    if i > 0 {
      TriangleSize(n, i - 1);
      assert |Triangle(n, i)| == |Triangle(n, i - 1)| + (n - i);
      assert (i - 1) * (2 * n - i) + 2 * (n - i) == i * (2 * n - i - 1);
    }
  }

  /** No pair of positions is compared twice. */
  lemma {:induction false} TriangleNoRepeats(n: nat, i: nat)
    requires i <= n
    ensures forall s, s' :: 0 <= s < s' < |Triangle(n, i)| ==> Triangle(n, i)[s] != Triangle(n, i)[s']
  {
    if i > 0 {
      TriangleNoRepeats(n, i - 1);
      var before := Triangle(n, i - 1);
      var row := Row(i - 1, n);
      var t := Triangle(n, i);
      assert t == before + row;
      forall s, s' | 0 <= s < s' < |t|
        ensures t[s] != t[s']
      {
        if s' >= |before| {
          if s >= |before| {
            assert row[s - |before|].1 != row[s' - |before|].1;
          } else {
            assert before[s].0 < i - 1 == row[s' - |before|].0;
          }
        }
      }
    }
  }

  /** Every pair of positions `x < y` with `x` among the first `i` is compared. */
  lemma {:induction false} TriangleCovers(n: nat, i: nat)
    requires i <= n
    ensures forall x, y :: 0 <= x < y < n && x < i ==> (x, y) in Triangle(n, i)
  {
    if i > 0 {
      TriangleCovers(n, i - 1);
      var before := Triangle(n, i - 1);
      var row := Row(i - 1, n);
      var t := Triangle(n, i);
      assert t == before + row;
      forall x, y | 0 <= x < y < n && x < i
        ensures (x, y) in t
      {
        if x == i - 1 {
          assert row[y - i] == (x, y);
        } else {
          assert (x, y) in before;
        }
      }
    }
  }

  /** No key occurs twice. */
  ghost predicate Distinct<K>(keys: seq<K>)
  {
    forall a, b :: 0 <= a < b < |keys| ==> keys[a] != keys[b]
  }

  /** `trace` is the sequence of position pairs `ps` spelled out as pairs of keys. */
  ghost predicate Names<K>(keys: seq<K>, ps: seq<(nat, nat)>, trace: seq<(K, K)>)
  {
    && |trace| == |ps|
    && forall s :: 0 <= s < |ps| ==>
         ps[s].0 < |keys| && ps[s].1 < |keys| && trace[s] == (keys[ps[s].0], keys[ps[s].1])
  }

  /** n keys cost exactly n(n-1)/2 comparisons. */
  lemma ComparisonCount<K>(keys: seq<K>, trace: seq<(K, K)>)
    requires Names(keys, Triangle(|keys|, |keys|), trace)
    ensures 2 * |trace| == |keys| * (|keys| - 1)
  {
    TriangleSize(|keys|, |keys|);
  }

  /** Over distinct keys, no key is compared with itself and only keys are compared. */
  lemma ComparisonsAreProperPairs<K>(keys: seq<K>, trace: seq<(K, K)>)
    requires Distinct(keys)
    requires Names(keys, Triangle(|keys|, |keys|), trace)
    ensures forall s :: 0 <= s < |trace| ==> trace[s].0 != trace[s].1
    ensures forall s :: 0 <= s < |trace| ==> trace[s].0 in keys && trace[s].1 in keys
  {
    var t := Triangle(|keys|, |keys|);
    forall s | 0 <= s < |trace|
      ensures trace[s].0 != trace[s].1 && trace[s].0 in keys && trace[s].1 in keys
    {
      assert t[s].0 < t[s].1;
    }
  }

  /** The keys at positions `x < y` are compared, in that orientation. */
  lemma PositionsCompared<K>(keys: seq<K>, trace: seq<(K, K)>, x: nat, y: nat)
    requires Names(keys, Triangle(|keys|, |keys|), trace)
    requires x < y < |keys|
    ensures (keys[x], keys[y]) in trace
  {
    var t := Triangle(|keys|, |keys|);
    TriangleCovers(|keys|, |keys|);
    assert (x, y) in t;
    var s :| 0 <= s < |t| && t[s] == (x, y);
    assert trace[s] == (keys[x], keys[y]);
  }

  /** The keys at the first `i` positions. */
  function Prefix<K>(keys: seq<K>, i: nat): (r: set<K>)
    requires i <= |keys|
  {
    set s | 0 <= s < i :: keys[s]
  }

  /** Passing one more position adds its key. */
  lemma PrefixGrows<K>(keys: seq<K>, i: nat)
    requires i < |keys|
    ensures Prefix(keys, i + 1) == Prefix(keys, i) + {keys[i]}
  {
  }

  /** Where a key sits in the iteration order. */
  lemma PositionOf<K>(keys: seq<K>, k: K) returns (x: nat)
    requires k in keys
    ensures x < |keys| && keys[x] == k
  {
    x :| x < |keys| && keys[x] == k;
  }

  /** Every unordered pair of distinct keys is compared, in one orientation or the other. */
  lemma EveryPairCompared<K>(keys: seq<K>, trace: seq<(K, K)>)
    requires Names(keys, Triangle(|keys|, |keys|), trace)
    ensures forall k, l :: k in keys && l in keys && k != l ==> (k, l) in trace || (l, k) in trace
  {
    forall k, l | k in keys && l in keys && k != l
      ensures (k, l) in trace || (l, k) in trace
    {
      var x := PositionOf(keys, k);
      var y := PositionOf(keys, l);
      if x < y {
        PositionsCompared(keys, trace, x, y);
      } else {
        PositionsCompared(keys, trace, y, x);
      }
    }
  }

  /** Over distinct keys, no unordered pair is compared twice, in either orientation. */
  lemma NoPairComparedTwice<K>(keys: seq<K>, trace: seq<(K, K)>)
    requires Distinct(keys)
    requires Names(keys, Triangle(|keys|, |keys|), trace)
    ensures forall s, s' :: 0 <= s < s' < |trace| ==> trace[s] != trace[s'] && trace[s] != (trace[s'].1, trace[s'].0)
  {
    var n := |keys|;
    var t := Triangle(n, n);
    TriangleNoRepeats(n, n);
    forall s, s' | 0 <= s < s' < |trace|
      ensures trace[s] != trace[s'] && trace[s] != (trace[s'].1, trace[s'].0)
    {
      assert t[s] != t[s'];
      assert t[s].0 < t[s].1 && t[s'].0 < t[s'].1;
    }
  }

  /** Row `i` spelled out over the keys: the comparisons the inner loop of outer
      position `i` makes while passing positions `0 .. j - 1`. */
  function KeyRow<K>(keys: seq<K>, i: nat, j: nat): (r: seq<(K, K)>)
    requires j <= |keys|
    ensures |r| == |Row(i, j)|
    ensures forall s :: 0 <= s < |r| ==> r[s] == (keys[i], keys[i + 1 + s])
  {
    if j <= i + 1 then [] else KeyRow(keys, i, j - 1) + [(keys[i], keys[j - 1])]
  }

  /** Passing position `j` in row `i` records a comparison exactly when `j` comes
      after `i`. */
  lemma KeyRowStep<K>(trace: seq<(K, K)>, keys: seq<K>, i: nat, j: nat)
    requires j < |keys|
    ensures i < j ==> trace + KeyRow(keys, i, j + 1) == trace + KeyRow(keys, i, j) + [(keys[i], keys[j])]
    ensures j <= i ==> trace + KeyRow(keys, i, j + 1) == trace + KeyRow(keys, i, j)
  {
    if i < j {
      assert KeyRow(keys, i, j + 1) == KeyRow(keys, i, j) + [(keys[i], keys[j])];
    }
  }

  /** A finished row appends its comparisons to the trace of the earlier rows. */
  lemma NamesAppendRow<K>(keys: seq<K>, i: nat, trace: seq<(K, K)>)
    requires i < |keys|
    requires Names(keys, Triangle(|keys|, i), trace)
    ensures Names(keys, Triangle(|keys|, i + 1), trace + KeyRow(keys, i, |keys|))
  {
    var before := Triangle(|keys|, i);
    var row := Row(i, |keys|);
    var t := trace + KeyRow(keys, i, |keys|);
    var ps: seq<(nat, nat)> := before + row;
    assert Triangle(|keys|, i + 1) == ps;
    forall s | 0 <= s < |ps|
      ensures ps[s].0 < |keys| && ps[s].1 < |keys|
      ensures t[s] == (keys[ps[s].0], keys[ps[s].1])
    {
      if s >= |before| {
        assert row[s - |before|] == (i, i + 1 + (s - |before|));
      }
    }
  }
}
