/**
 The focus step: `malgraph.subgraph(nx.node_connected_component(malgraph, f)).copy()`
 narrows the graph to the connected component of the file `f`. networkx raises
 when `f` is not a node of the graph.
 */
module Focus {
  import opened Results
  import opened Graphs

  /** Why the focus step stopped: the focus file is not a node of the graph. */
  datatype FocusError = UnknownArtifact(file: Node)

  /** No edge leaves `c`. */
  ghost predicate Closed(g: Graph, c: set<Node>)
  {
    forall a, b :: a in c && (a, b) in g.weight ==> b in c
  }

  /** Every node of a set closed under edges that contains `focus` contains all of
      its component. */
  lemma ClosedContainsComponent(g: Graph, c: set<Node>, focus: Node, x: Node)
    requires focus in c && Closed(g, c)
    requires Reachable(g, focus, x)
    ensures x in c
  {
    var p :| IsPath(g, p) && p[0] == focus && p[|p| - 1] == x;
    PathStaysInClosedSet(g, p, c);
  }

  /**
   `nx.node_connected_component(g, focus)`: a search outward from `focus`. `comp`
   holds the nodes found so far and `frontier` those whose neighbours are still to
   be visited; the result is exactly the set of nodes reachable from `focus`.
   */
  method ConnectedComponent(g: Graph, focus: Node) returns (comp: set<Node>)
    requires WellFormed(g)
    requires focus in g.nodes
    ensures forall x :: x in comp <==> Reachable(g, focus, x)
    ensures focus in comp && comp <= g.nodes
  {
    assert IsPath(g, [focus]);
    comp := {focus};
    var frontier := {focus};
    while frontier != {}
      invariant frontier <= comp <= g.nodes
      invariant focus in comp
      invariant forall x :: x in comp ==> Reachable(g, focus, x)
      invariant forall a, b :: a in comp - frontier && (a, b) in g.weight ==> b in comp
      decreases |g.nodes - comp|, |frontier|
    {
      var x :| x in frontier;
      var next := Neighbours(g, x) - comp;
      forall y | y in next ensures Reachable(g, focus, y) {
        ExtendPath(g, focus, x, y);
      }
      if next != {} {
        var y :| y in next;
        assert y in g.nodes - comp;
        assert g.nodes - (comp + next) < g.nodes - comp;
      }
      comp := comp + next;
      frontier := frontier - {x} + next;
    }
    forall x | Reachable(g, focus, x) ensures x in comp {
      ClosedContainsComponent(g, comp, focus, x);
    }
  }

  /**
   The focus step at konig.py line 139: the subgraph induced by the connected
   component of `focus` (every node reachable from it and every edge among those
   nodes, with its weight), or `UnknownArtifact` when `focus` is not a node.
   */
  method FocusSubgraph(g: Graph, focus: Node) returns (r: Result<Graph, FocusError>)
    requires WellFormed(g)
    ensures r.Failure? <==> focus !in g.nodes
    ensures r.Failure? ==> r.error == UnknownArtifact(focus)
    ensures r.Success? ==> forall x :: x in r.value.nodes <==> Reachable(g, focus, x)
    ensures r.Success? ==> forall a, b :: (a, b) in r.value.weight <==>
              (a, b) in g.weight && a in r.value.nodes && b in r.value.nodes
    ensures r.Success? ==> forall a, b :: (a, b) in r.value.weight ==> r.value.weight[(a, b)] == g.weight[(a, b)]
  {
    if focus !in g.nodes {
      return Failure(UnknownArtifact(focus));
    }
    var comp := ConnectedComponent(g, focus);
    r := Success(Subgraph(g, comp));
  }

  /** The component keeps every edge of the graph that touches it: an edge with one
      end in the component has its other end there too. */
  lemma ComponentKeepsIncidentEdges(g: Graph, focus: Node, comp: set<Node>, a: Node, b: Node)
    requires WellFormed(g)
    requires forall x :: x in comp <==> Reachable(g, focus, x)
    requires a in comp && (a, b) in g.weight
    ensures (a, b) in Subgraph(g, comp).weight
    ensures Subgraph(g, comp).weight[(a, b)] == g.weight[(a, b)]
  {
    ExtendPath(g, focus, a, b);
  }

  /** Narrowing a graph without isolated nodes (such as the builder's) to the
      component of one of its nodes again leaves no isolated node. */
  lemma ComponentHasNoIsolatedNodes(g: Graph, focus: Node, comp: set<Node>)
    requires WellFormed(g)
    requires NoIsolatedNodes(g)
    requires forall x :: x in comp <==> Reachable(g, focus, x)
    ensures NoIsolatedNodes(Subgraph(g, comp))
  {
    var h := Subgraph(g, comp);
    forall x | x in h.nodes ensures x in Endpoints(h.weight) {
      assert x in Endpoints(g.weight);
      var p :| p in g.weight && p.0 == x;
      ComponentKeepsIncidentEdges(g, focus, comp, x, p.1);
      assert (x, p.1).0 == x;
    }
    forall x | x in Endpoints(h.weight) ensures x in h.nodes {
      var p :| p in h.weight && p.0 == x;
    }
  }
}
