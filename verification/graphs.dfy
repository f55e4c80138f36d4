/**
 The part of a networkx undirected `Graph` that the program uses: a node set and,
 for every edge, its weight stored under both orientations, the way networkx keeps
 `adj[u][v]` and `adj[v][u]` pointing at one attribute record.
 */
module Graphs {

  type Node = string

  datatype Graph = Graph(nodes: set<Node>, weight: map<(Node, Node), int>)

  /** The shape every networkx graph has: edges join nodes of the graph, and an edge
      read from either end carries the same weight. */
  ghost predicate WellFormed(g: Graph)
  {
    forall a, b :: (a, b) in g.weight ==>
      a in g.nodes && b in g.nodes && (b, a) in g.weight && g.weight[(b, a)] == g.weight[(a, b)]
  }

  /** The nodes that some edge touches. */
  function Endpoints(w: map<(Node, Node), int>): (r: set<Node>)
  {
    set p | p in w :: p.0
  }

  /** Every node has at least one incident edge. */
  ghost predicate NoIsolatedNodes(g: Graph)
  {
    g.nodes == Endpoints(g.weight)
  }

  /** `G.add_edge(a, b, weight=w)`: adds whichever endpoints are missing and sets the
      weight of the edge {a, b}, under both orientations, replacing an earlier one. */
  function AddEdge(g: Graph, a: Node, b: Node, w: int): (r: Graph)
    ensures r.nodes == g.nodes + {a, b}
    ensures Endpoints(r.weight) == Endpoints(g.weight) + {a, b}
    ensures forall x, y :: (x, y) in r.weight <==> (x, y) in g.weight || (x, y) == (a, b) || (x, y) == (b, a)
    ensures r.weight[(a, b)] == w && r.weight[(b, a)] == w
    ensures forall x, y :: (x, y) in g.weight && (x, y) != (a, b) && (x, y) != (b, a) ==> r.weight[(x, y)] == g.weight[(x, y)]
  {
    var r := Graph(g.nodes + {a, b}, g.weight[(a, b) := w][(b, a) := w]);
    assert (a, b) in r.weight && (b, a) in r.weight;
    assert r.weight.Keys == g.weight.Keys + {(a, b), (b, a)};
    r
  }

  /** Adding an edge keeps the networkx shape and keeps every node touched by an edge. */
  lemma AddEdgeKeepsShape(g: Graph, a: Node, b: Node, w: int)
    ensures WellFormed(g) ==> WellFormed(AddEdge(g, a, b, w))
    ensures NoIsolatedNodes(g) ==> NoIsolatedNodes(AddEdge(g, a, b, w))
  {
  }

  /** `G.subgraph(s).copy()`: the nodes of `s` that are in the graph and every edge of
      the graph between two of them, with its weight. */
  function Subgraph(g: Graph, s: set<Node>): (r: Graph)
    ensures WellFormed(g) ==> WellFormed(r)
    ensures r.nodes == g.nodes * s
    ensures forall a, b :: (a, b) in r.weight <==> (a, b) in g.weight && a in s && b in s
    ensures forall p :: p in r.weight ==> p in g.weight && r.weight[p] == g.weight[p]
  {
    Graph(g.nodes * s, map p | p in g.weight && p.0 in s && p.1 in s :: g.weight[p])
  }

  /** A walk along edges of the graph, starting at a node of the graph. */
  ghost predicate IsPath(g: Graph, p: seq<Node>)
  {
    && |p| > 0
    && p[0] in g.nodes
    && forall s :: 0 <= s < |p| - 1 ==> (p[s], p[s + 1]) in g.weight
  }

  /** `b` lies in the connected component of `a`. */
  ghost predicate Reachable(g: Graph, a: Node, b: Node)
  {
    exists p :: IsPath(g, p) && p[0] == a && p[|p| - 1] == b
  }

  /** The nodes one edge away from `a`. */
  function Neighbours(g: Graph, a: Node): (r: set<Node>)
    ensures forall b :: b in r <==> (a, b) in g.weight
  {
    set p | p in g.weight && p.0 == a :: p.1
  }

  /** A walk that starts inside a set closed under edges never leaves it. */
  lemma {:induction false} PathStaysInClosedSet(g: Graph, p: seq<Node>, c: set<Node>)
    requires IsPath(g, p)
    requires p[0] in c
    requires forall a, b :: a in c && (a, b) in g.weight ==> b in c
    ensures p[|p| - 1] in c
    decreases |p|
  {
    if |p| > 1 {
      var q := p[..|p| - 1];
      assert IsPath(g, q) by {
        forall s | 0 <= s < |q| - 1 ensures (q[s], q[s + 1]) in g.weight {
          assert (p[s], p[s + 1]) in g.weight;
        }
      }
      PathStaysInClosedSet(g, q, c);
      assert (p[|p| - 2], p[|p| - 1]) in g.weight;
    }
  }

  /** Extending a walk by one edge. */
  lemma ExtendPath(g: Graph, a: Node, b: Node, c: Node)
    requires Reachable(g, a, b)
    requires (b, c) in g.weight
    ensures Reachable(g, a, c)
  {
    var p :| IsPath(g, p) && p[0] == a && p[|p| - 1] == b;
    var q := p + [c];
    assert IsPath(g, q) by {
      forall s | 0 <= s < |q| - 1 ensures (q[s], q[s + 1]) in g.weight {
        if s < |p| - 1 {
          assert q[s] == p[s] && q[s + 1] == p[s + 1];
        }
      }
    }
  }
}
