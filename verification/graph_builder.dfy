/**
 `creategraph(fuzzyhashes, threshold)`: compares every unordered pair of distinct
 keys once and adds an edge, weighted by the score, for each pair scoring at least
 the threshold. Only edges are added, so a key without such a partner is not a
 node of the result.
 */
module GraphBuilder {
  import opened HashCache
  import opened Graphs
  import opened PairOrder

  /** `ssdeep.compare` gives the same score whichever digest comes first. */
  ghost predicate Symmetric(compare: (Digest, Digest) -> int)
  {
    forall a, b :: compare(a, b) == compare(b, a)
  }

  /** `ssdeep.compare` scores lie in 0 .. 100. */
  ghost predicate Bounded(compare: (Digest, Digest) -> int)
  {
    forall a, b :: 0 <= compare(a, b) <= 100
  }

  /** `keys` is the dictionary's iteration order: every key once. */
  ghost predicate Enumerates(keys: seq<FileName>, hashes: HashTable)
  {
    && Distinct(keys)
    && forall k :: k in hashes <==> k in keys
  }

  /** The graph the builder is meant to produce, stated pair by pair: an edge,
      under both orientations, for each pair of distinct keys scoring at least the
      threshold, weighted by the score; its nodes are the ends of those edges. */
  function SimilarityGraph(hashes: HashTable, compare: (Digest, Digest) -> int, threshold: int): (r: Graph)
  {
    var w := map k, l | k in hashes && l in hashes && k != l && compare(hashes[k], hashes[l]) >= threshold
                      :: (k, l) := compare(hashes[k], hashes[l]);
    Graph(Endpoints(w), w)
  }

  /** Whether the pair `a`, `b` has been compared: one of them was an outer key of an
      earlier iteration, or one is the current outer key `k` and the inner loop has
      already passed the other. */
  ghost predicate Done(checked: set<FileName>, k: FileName, seen: set<FileName>, a: FileName, b: FileName)
  {
    a in checked || b in checked || (a == k && b in seen) || (b == k && a in seen)
  }

  /** The graph the loop has built once the pairs `Done` describes are compared: an
      edge for each of them that scores at least the threshold. */
  ghost function EdgesSoFar(hashes: HashTable, compare: (Digest, Digest) -> int, threshold: int,
                            checked: set<FileName>, k: FileName, seen: set<FileName>): (r: Graph)
  {
    var w := map a, b | a in hashes && b in hashes && a != b && Done(checked, k, seen, a, b)
                        && compare(hashes[a], hashes[b]) >= threshold
                      :: (a, b) := compare(hashes[a], hashes[b]);
    Graph(Endpoints(w), w)
  }

  /** Nothing is compared before the loops start. */
  lemma NothingDone(hashes: HashTable, compare: (Digest, Digest) -> int, threshold: int, k: FileName)
    ensures EdgesSoFar(hashes, compare, threshold, {}, k, {}) == Graph({}, map[])
  {
    var g := EdgesSoFar(hashes, compare, threshold, {}, k, {});
    assert g.weight == map[];
  }

  /** Comparing `k` with an unchecked `l` adds exactly the pairs `(k, l)` and `(l, k)`
      to those compared. */
  lemma DoneGrows(checked: set<FileName>, k: FileName, seen: set<FileName>, l: FileName, a: FileName, b: FileName)
    requires k !in checked && l !in checked
    ensures Done(checked, k, seen + {l}, a, b) <==> Done(checked, k, seen, a, b) || (a, b) == (k, l) || (a, b) == (l, k)
  {
  }

  /** The edge maps agree pair by pair after comparing `k` with a similar unchecked `l`. */
  lemma AddStepEdges(hashes: HashTable, compare: (Digest, Digest) -> int, threshold: int,
                     checked: set<FileName>, k: FileName, seen: set<FileName>, l: FileName, a: FileName, b: FileName)
    requires Symmetric(compare)
    requires k in hashes && l in hashes && k != l && k !in checked && l !in checked
    requires compare(hashes[k], hashes[l]) >= threshold
    ensures var w' := EdgesSoFar(hashes, compare, threshold, checked, k, seen + {l}).weight;
            var r := AddEdge(EdgesSoFar(hashes, compare, threshold, checked, k, seen), k, l, compare(hashes[k], hashes[l])).weight;
            ((a, b) in w' <==> (a, b) in r) && ((a, b) in w' ==> w'[(a, b)] == r[(a, b)])
  {
    assert compare(hashes[l], hashes[k]) == compare(hashes[k], hashes[l]);
    DoneGrows(checked, k, seen, l, a, b);
  }

  /** Comparing `k` with an unchecked `l` and finding them similar enough adds the
      edge `{k, l}` with their score. */
  lemma CompareAndAddStep(hashes: HashTable, compare: (Digest, Digest) -> int, threshold: int,
                          checked: set<FileName>, k: FileName, seen: set<FileName>, l: FileName)
    requires Symmetric(compare)
    requires k in hashes && l in hashes && k != l && k !in checked && l !in checked
    requires compare(hashes[k], hashes[l]) >= threshold
    ensures EdgesSoFar(hashes, compare, threshold, checked, k, seen + {l})
         == AddEdge(EdgesSoFar(hashes, compare, threshold, checked, k, seen), k, l, compare(hashes[k], hashes[l]))
  {
    var g' := EdgesSoFar(hashes, compare, threshold, checked, k, seen + {l});
    var r := AddEdge(EdgesSoFar(hashes, compare, threshold, checked, k, seen), k, l, compare(hashes[k], hashes[l]));
    forall a, b ensures ((a, b) in g'.weight <==> (a, b) in r.weight) && ((a, b) in g'.weight ==> g'.weight[(a, b)] == r.weight[(a, b)]) {
      AddStepEdges(hashes, compare, threshold, checked, k, seen, l, a, b);
    }
    assert g'.weight == r.weight;
  }

  /** Comparing `k` with `l` and finding them too far apart changes nothing. */
  lemma CompareAndDropStep(hashes: HashTable, compare: (Digest, Digest) -> int, threshold: int,
                           checked: set<FileName>, k: FileName, seen: set<FileName>, l: FileName)
    requires Symmetric(compare)
    requires k in hashes && l in hashes
    requires compare(hashes[k], hashes[l]) < threshold
    ensures EdgesSoFar(hashes, compare, threshold, checked, k, seen + {l})
         == EdgesSoFar(hashes, compare, threshold, checked, k, seen)
  {
    assert compare(hashes[l], hashes[k]) < threshold;
    var g := EdgesSoFar(hashes, compare, threshold, checked, k, seen);
    var g' := EdgesSoFar(hashes, compare, threshold, checked, k, seen + {l});
    assert g'.weight == g.weight;
  }

  /** Skipping `l` (the outer key itself, or an already checked key) changes nothing. */
  lemma SkipStep(hashes: HashTable, compare: (Digest, Digest) -> int, threshold: int,
                 checked: set<FileName>, k: FileName, seen: set<FileName>, l: FileName)
    requires l == k || l in checked
    ensures EdgesSoFar(hashes, compare, threshold, checked, k, seen + {l})
         == EdgesSoFar(hashes, compare, threshold, checked, k, seen)
  {
    var g := EdgesSoFar(hashes, compare, threshold, checked, k, seen);
    var g' := EdgesSoFar(hashes, compare, threshold, checked, k, seen + {l});
    assert g'.weight == g.weight;
  }

  /** The graph once every pair touching a key of `checked` has been compared. With
      `seen` empty, `Done` reduces to "one end is checked", so the outer key passed
      to `EdgesSoFar` plays no part. */
  ghost function EdgesChecked(hashes: HashTable, compare: (Digest, Digest) -> int, threshold: int,
                              checked: set<FileName>): (r: Graph)
  {
    EdgesSoFar(hashes, compare, threshold, checked, "", {})
  }

  /** Before the inner loop has passed any key, the outer key makes no difference. */
  lemma RowStart(hashes: HashTable, compare: (Digest, Digest) -> int, threshold: int,
                 checked: set<FileName>, k: FileName)
    ensures EdgesSoFar(hashes, compare, threshold, checked, k, {}) == EdgesChecked(hashes, compare, threshold, checked)
  {
    var g := EdgesSoFar(hashes, compare, threshold, checked, k, {});
    var g' := EdgesChecked(hashes, compare, threshold, checked);
    assert g'.weight == g.weight;
  }

  /** Once the inner loop has passed every key, `k` joins the checked set. */
  lemma RowDone(hashes: HashTable, compare: (Digest, Digest) -> int, threshold: int,
                checked: set<FileName>, k: FileName, seen: set<FileName>)
    requires hashes.Keys <= seen
    ensures EdgesSoFar(hashes, compare, threshold, checked, k, seen)
         == EdgesChecked(hashes, compare, threshold, checked + {k})
  {
    var g := EdgesSoFar(hashes, compare, threshold, checked, k, seen);
    var g' := EdgesChecked(hashes, compare, threshold, checked + {k});
    assert g'.weight == g.weight;
  }

  /** With every key checked, the loop has built the similarity graph. */
  lemma AllDone(hashes: HashTable, compare: (Digest, Digest) -> int, threshold: int, checked: set<FileName>)
    requires hashes.Keys <= checked
    ensures EdgesChecked(hashes, compare, threshold, checked) == SimilarityGraph(hashes, compare, threshold)
  {
    var g := EdgesChecked(hashes, compare, threshold, checked);
    var g' := SimilarityGraph(hashes, compare, threshold);
    assert g'.weight == g.weight;
  }

  /** Under the checked-set discipline the inner key at position `j` is compared with
      the outer key at position `i` exactly when `j` comes after `i`. */
  lemma PartnerIsLater(keys: seq<FileName>, checked: set<FileName>, i: nat, j: nat)
    requires Distinct(keys)
    requires i < |keys| && j < |keys|
    requires checked == Prefix(keys, i)
    ensures (keys[i] != keys[j] && keys[j] !in checked) <==> i < j
    ensures keys[i] !in checked
  {
    if j < i {
      assert keys[j] in checked;
    }
  }

  /**
   One pass of the inner loop: the outer key `k` at position `i` meets the key `l` at
   position `j`. They are compared only when `l` is neither `k` nor checked, which
   under the checked-set discipline means exactly when `j` comes after `i`; an edge
   is added when the score reaches the threshold.
   */
  method ComparePair(hashes: HashTable, keys: seq<FileName>, compare: (Digest, Digest) -> int, threshold: int,
                     i: nat, j: nat, checked: set<FileName>, seen: set<FileName>, g0: Graph)
    returns (g: Graph, compared: seq<(FileName, FileName)>)
    requires Enumerates(keys, hashes)
    requires Symmetric(compare)
    requires i < |keys| && j < |keys|
    requires checked == Prefix(keys, i)
    requires g0 == EdgesSoFar(hashes, compare, threshold, checked, keys[i], seen)
    ensures g == EdgesSoFar(hashes, compare, threshold, checked, keys[i], seen + {keys[j]})
    ensures compared == if i < j then [(keys[i], keys[j])] else []
  {
    var k, l := keys[i], keys[j];
    PartnerIsLater(keys, checked, i, j);
    g, compared := g0, [];
    if k != l && l !in checked {
      var sim := compare(hashes[k], hashes[l]);
      compared := [(k, l)];
      if sim >= threshold {
        CompareAndAddStep(hashes, compare, threshold, checked, k, seen, l);
        g := AddEdge(g, k, l, sim);
      } else {
        CompareAndDropStep(hashes, compare, threshold, checked, k, seen, l);
      }
    } else {
      SkipStep(hashes, compare, threshold, checked, k, seen, l);
    }
  }

  /**
   One outer iteration of the builder, for the key `k` at position `i`: the inner
   loop runs over every key, compares `k` with each key that is neither `k` nor
   checked, and adds an edge for each score at least the threshold. Afterwards `k`
   counts as checked.
   */
  method CompareRow(hashes: HashTable, keys: seq<FileName>, compare: (Digest, Digest) -> int, threshold: int,
                    i: nat, checked: set<FileName>, g0: Graph, compared0: seq<(FileName, FileName)>)
    returns (g: Graph, compared: seq<(FileName, FileName)>)
    requires Enumerates(keys, hashes)
    requires Symmetric(compare)
    requires i < |keys|
    requires checked == Prefix(keys, i)
    requires g0 == EdgesChecked(hashes, compare, threshold, checked)
    ensures g == EdgesChecked(hashes, compare, threshold, checked + {keys[i]})
    ensures compared == compared0 + KeyRow(keys, i, |keys|)
  {
    g, compared := g0, compared0;
    RowStart(hashes, compare, threshold, checked, keys[i]);
    var seen: set<FileName> := {};
    var j := 0;
    while j < |keys|
      invariant 0 <= j <= |keys|
      invariant seen == Prefix(keys, j)
      invariant g == EdgesSoFar(hashes, compare, threshold, checked, keys[i], seen)
      invariant compared == compared0 + KeyRow(keys, i, j)
    {
      var step;
      g, step := ComparePair(hashes, keys, compare, threshold, i, j, checked, seen, g);
      KeyRowStep(compared0, keys, i, j);
      compared := compared + step;
      PrefixGrows(keys, j);
      seen := seen + {keys[j]};
      j := j + 1;
    }
    RowDone(hashes, compare, threshold, checked, keys[i], seen);
  }

  /** After the last outer iteration every key is checked. */
  lemma AllKeysChecked(hashes: HashTable, keys: seq<FileName>, checked: set<FileName>)
    requires Enumerates(keys, hashes)
    requires checked == Prefix(keys, |keys|)
    ensures hashes.Keys <= checked
  {
    forall k | k in hashes ensures k in checked {
      var x := PositionOf(keys, k);
    }
  }

  /** What the similarity graph holds: exactly the qualifying edges under both
      orientations, each weighted by its score, and no node without an edge. */
  lemma SimilarityGraphEdges(hashes: HashTable, compare: (Digest, Digest) -> int, threshold: int)
    ensures forall k, l :: (k, l) in SimilarityGraph(hashes, compare, threshold).weight <==>
              k in hashes && l in hashes && k != l && compare(hashes[k], hashes[l]) >= threshold
    ensures forall k, l :: (k, l) in SimilarityGraph(hashes, compare, threshold).weight ==>
              SimilarityGraph(hashes, compare, threshold).weight[(k, l)] == compare(hashes[k], hashes[l])
    ensures NoIsolatedNodes(SimilarityGraph(hashes, compare, threshold))
  {
  }

  /**
   The builder. `compared` records the compare calls in order; `keys` is the order in
   which the dictionary yields its keys. A key joins `checked` after its outer
   iteration and is never an inner partner again.
   */
  method CreateGraph(hashes: HashTable, keys: seq<FileName>, compare: (Digest, Digest) -> int, threshold: int)
    returns (g: Graph, compared: seq<(FileName, FileName)>)
    requires Enumerates(keys, hashes)
    requires Symmetric(compare)
    ensures g == SimilarityGraph(hashes, compare, threshold)
    ensures Names(keys, Triangle(|keys|, |keys|), compared)
  {
    g := Graph({}, map[]);
    compared := [];
    var checked: set<FileName> := {};
    NothingDone(hashes, compare, threshold, "");
    var i := 0;
    while i < |keys|
      invariant 0 <= i <= |keys|
      invariant checked == Prefix(keys, i)
      invariant g == EdgesChecked(hashes, compare, threshold, checked)
      invariant Names(keys, Triangle(|keys|, i), compared)
    {
      NamesAppendRow(keys, i, compared);
      g, compared := CompareRow(hashes, keys, compare, threshold, i, checked, g, compared);
      PrefixGrows(keys, i);
      checked := checked + {keys[i]};
      i := i + 1;
    }
    AllKeysChecked(hashes, keys, checked);
    AllDone(hashes, compare, threshold, checked);
  }

  /** A symmetric score gives a graph of networkx shape: each edge is stored under
      both orientations with one weight. */
  lemma SimilarityGraphShape(hashes: HashTable, compare: (Digest, Digest) -> int, threshold: int)
    requires Symmetric(compare)
    ensures WellFormed(SimilarityGraph(hashes, compare, threshold))
  {
    var g := SimilarityGraph(hashes, compare, threshold);
    forall a, b | (a, b) in g.weight
      ensures a in g.nodes && b in g.nodes && (b, a) in g.weight && g.weight[(b, a)] == g.weight[(a, b)]
    {
      EdgeReversed(hashes, compare, threshold, a, b);
      EndsAreNodes(g.weight, a, b);
      EndsAreNodes(g.weight, b, a);
    }
  }

  /** Under a symmetric score an edge read the other way round is the same edge. */
  lemma EdgeReversed(hashes: HashTable, compare: (Digest, Digest) -> int, threshold: int, a: FileName, b: FileName)
    requires Symmetric(compare)
    requires (a, b) in SimilarityGraph(hashes, compare, threshold).weight
    ensures (b, a) in SimilarityGraph(hashes, compare, threshold).weight
    ensures SimilarityGraph(hashes, compare, threshold).weight[(b, a)]
         == SimilarityGraph(hashes, compare, threshold).weight[(a, b)]
  {
    assert compare(hashes[b], hashes[a]) == compare(hashes[a], hashes[b]);
  }

  /** The first end of an edge is among the endpoints. */
  lemma EndsAreNodes(w: map<(Node, Node), int>, a: Node, b: Node)
    requires (a, b) in w
    ensures a in Endpoints(w)
  {
    assert (a, b).0 == a;
  }

  /** No key is ever joined to itself. */
  lemma NoSelfLoops(hashes: HashTable, compare: (Digest, Digest) -> int, threshold: int, k: FileName)
    ensures (k, k) !in SimilarityGraph(hashes, compare, threshold).weight
  {
  }

  /** A key is a node exactly when some other key scores at least the threshold with
      it: a key without such a partner is absent from the graph, not isolated in it. */
  lemma NodeIffPartner(hashes: HashTable, compare: (Digest, Digest) -> int, threshold: int, k: FileName)
    ensures k in SimilarityGraph(hashes, compare, threshold).nodes <==>
            k in hashes && exists l :: l in hashes && l != k && compare(hashes[k], hashes[l]) >= threshold
  {
    var g := SimilarityGraph(hashes, compare, threshold);
    if k in hashes && exists l :: l in hashes && l != k && compare(hashes[k], hashes[l]) >= threshold {
      var l :| l in hashes && l != k && compare(hashes[k], hashes[l]) >= threshold;
      assert (k, l) in g.weight;
    }
  }

  /** Raising the threshold only removes edges (and nodes); the edges that stay keep
      their weights. */
  lemma ThresholdMonotone(hashes: HashTable, compare: (Digest, Digest) -> int, low: int, high: int)
    requires low <= high
    ensures SimilarityGraph(hashes, compare, high).weight.Keys <= SimilarityGraph(hashes, compare, low).weight.Keys
    ensures forall p :: p in SimilarityGraph(hashes, compare, high).weight ==>
              SimilarityGraph(hashes, compare, high).weight[p] == SimilarityGraph(hashes, compare, low).weight[p]
    ensures SimilarityGraph(hashes, compare, high).nodes <= SimilarityGraph(hashes, compare, low).nodes
  {
  }

  /** A threshold above the largest possible score gives the empty graph. */
  lemma ThresholdAboveRangeIsEmpty(hashes: HashTable, compare: (Digest, Digest) -> int, threshold: int)
    requires Bounded(compare)
    requires threshold > 100
    ensures SimilarityGraph(hashes, compare, threshold) == Graph({}, map[])
  {
    var g := SimilarityGraph(hashes, compare, threshold);
    assert g.weight == map[];
  }

  /** Fewer than two keys give the empty graph, whatever the threshold. */
  lemma FewerThanTwoKeysIsEmpty(hashes: HashTable, compare: (Digest, Digest) -> int, threshold: int)
    requires |hashes| < 2
    ensures SimilarityGraph(hashes, compare, threshold) == Graph({}, map[])
  {
    var g := SimilarityGraph(hashes, compare, threshold);
    forall p | p in g.weight ensures false {
      var k, l := p.0, p.1;
      assert k in hashes && l in hashes && k != l;
      assert {k, l} <= hashes.Keys;
      assert |{k, l}| == 2;
      SubsetSize({k, l}, hashes.Keys);
    }
    assert g.weight == map[];
  }

  /** A subset is no larger than its superset. */
  lemma SubsetSize<T>(a: set<T>, b: set<T>)
    requires a <= b
    ensures |a| <= |b|
  {
    if a != {} {
      var x :| x in a;
      SubsetSize(a - {x}, b - {x});
    }
  }

  /** The three-file table of the scenario below. */
  function ThreeFiles(): (r: HashTable)
  {
    map["a" := "X", "b" := "X", "c" := "Y"]
  }

  /** In the scenario, every edge is the one between "a" and "b". */
  lemma ThreeFilesOnlyEdge(k: FileName, l: FileName)
    requires (k, l) in SimilarityGraph(ThreeFiles(), SameOrNot, 50).weight
    ensures (k, l) == ("a", "b") || (k, l) == ("b", "a")
  {
    SameDigestEdge(ThreeFiles(), k, l);
    OnlyAAndBAgree(k, l);
  }

  /** Under the toy score at threshold 50, an edge joins two keys with equal digests. */
  lemma SameDigestEdge(hashes: HashTable, k: FileName, l: FileName)
    requires (k, l) in SimilarityGraph(hashes, SameOrNot, 50).weight
    ensures k in hashes && l in hashes && k != l && hashes[k] == hashes[l]
  {
  }

  /** In the three-file table only `a` and `b` share a digest. */
  lemma OnlyAAndBAgree(k: FileName, l: FileName)
    requires k in ThreeFiles() && l in ThreeFiles() && k != l && ThreeFiles()[k] == ThreeFiles()[l]
    ensures (k, l) == ("a", "b") || (k, l) == ("b", "a")
  {
    var hashes := ThreeFiles();
    assert hashes.Keys == {"a", "b", "c"};
    assert hashes["a"] == "X" && hashes["b"] == "X" && hashes["c"] == "Y";
  }

  /** In the scenario, "a" and "b" are joined with weight 100. */
  lemma ThreeFilesEdge()
    ensures ("a", "b") in SimilarityGraph(ThreeFiles(), SameOrNot, 50).weight
    ensures ("b", "a") in SimilarityGraph(ThreeFiles(), SameOrNot, 50).weight
    ensures SimilarityGraph(ThreeFiles(), SameOrNot, 50).weight[("a", "b")] == 100
    ensures SimilarityGraph(ThreeFiles(), SameOrNot, 50).weight[("b", "a")] == 100
  {
    assert "a" != "b";
    assert "a" in ThreeFiles() && "b" in ThreeFiles();
  }

  /** In the scenario, the edge map holds exactly the pair "a", "b" in both orientations. */
  lemma ThreeFilesWeights()
    ensures SimilarityGraph(ThreeFiles(), SameOrNot, 50).weight == map[("a", "b") := 100, ("b", "a") := 100]
  {
    var m := SimilarityGraph(ThreeFiles(), SameOrNot, 50).weight;
    forall k, l | (k, l) in m ensures (k, l) == ("a", "b") || (k, l) == ("b", "a") {
      ThreeFilesOnlyEdge(k, l);
    }
    ThreeFilesEdge();
    OneEdgeMap(m, "a", "b", 100);
  }

  /** A map whose only keys are both orientations of one pair, each holding `x`. */
  lemma OneEdgeMap(m: map<(Node, Node), int>, a: Node, b: Node, x: int)
    requires forall k, l :: (k, l) in m ==> (k, l) == (a, b) || (k, l) == (b, a)
    requires (a, b) in m && (b, a) in m && m[(a, b)] == x && m[(b, a)] == x
    ensures m == map[(a, b) := x, (b, a) := x]
  {
    var w := map[(a, b) := x, (b, a) := x];
    forall p | p in m ensures p in w {
      assert (p.0, p.1) in m;
    }
    assert m.Keys == w.Keys;
  }

  /** The endpoints of a single undirected edge are its two ends. */
  lemma OneEdgeEndpoints(a: Node, b: Node, x: int)
    ensures Endpoints(map[(a, b) := x, (b, a) := x]) == {a, b}
  {
    var w := map[(a, b) := x, (b, a) := x];
    EndsAreNodes(w, a, b);
    EndsAreNodes(w, b, a);
  }

  /** Two files with equal digests and a third unlike them, at threshold 50: one edge
      of weight 100, and the third file is not a node at all. */
  lemma TwoAlikeOneApart()
    ensures SimilarityGraph(ThreeFiles(), SameOrNot, 50).nodes == {"a", "b"}
    ensures SimilarityGraph(ThreeFiles(), SameOrNot, 50).weight == map[("a", "b") := 100, ("b", "a") := 100]
  {
    ThreeFilesWeights();
    OneEdgeEndpoints("a", "b", 100);
  }

  /** A toy score: 100 for equal digests and 10 otherwise. */
  function SameOrNot(x: Digest, y: Digest): (r: int)
  {
    if x == y then 100 else 10
  }
}
