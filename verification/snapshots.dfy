/** clone() of modules/graph/graph.js (VisualGraph): a fresh graph gets every node, in
    node-map order, then every arc found in the nodes' input lists, visited node by node, and
    finally the counters of the original. */
module Snapshots {
  import opened Wrappers
  import opened Seqs
  import opened Graphs
  import opened Loading

  /** The arcsToCopy list of clone(): the input lists of the nodes of `order`, concatenated. */
  function Gather(g: Graph, order: seq<Id>): (r: seq<Id>)
    decreases |order|
  {
    if order == [] then []
    else
      var here := if order[0] in g.nodes then g.nodes[order[0]].inputArcs else [];
      here + Gather(g, order[1..])
  }

  /** clone(): nodes first, then the gathered arcs with their endpoints looked up in the copy,
      then both counters taken over from the original. */
  function Clone(g: Graph): (r: Result<Graph>)
    ensures r.Ok? ==> r.value.lastNodeId == g.lastNodeId && r.value.lastArcId == g.lastArcId
  {
    var c := LoadNodes(EmptyGraph, InOrder(g.nodes, g.nodeOrder));
    var r :- LoadArcs(c, InOrder(g.arcs, Gather(g, g.nodeOrder)));
    Ok(r.(lastNodeId := g.lastNodeId, lastArcId := g.lastArcId))
  }

  /** On a consistent adjacency, gathering the input lists of distinct nodes lists each arc
      ending at one of them exactly once. */
  lemma {:induction false} GatherSpec(g: Graph, order: seq<Id>)
    requires AdjacencyWith(g, {}) && Distinct(order)
    ensures Distinct(Gather(g, order))
    ensures forall x :: x in Gather(g, order) <==> x in g.arcs && g.arcs[x].endNode in order
    decreases |order|
  {
    if order != [] {
      var k := order[0];
      var here := if k in g.nodes then g.nodes[k].inputArcs else [];
      ElemsCons(order);
      GatherSpec(g, order[1..]);
      var rest := Gather(g, order[1..]);
      assert Gather(g, order) == here + rest;
      assert forall x :: x in here ==> x in g.arcs && g.arcs[x].endNode == k by {
        forall x | x in here ensures x in g.arcs && g.arcs[x].endNode == k {
          assert Head(g.arcs[x], x in {}) == k;
        }
      }
      assert forall y :: y in here ==> y !in rest;
      DistinctConcat(here, rest);
      forall x | x in g.arcs && g.arcs[x].endNode in order ensures x in here + rest {
        if g.arcs[x].endNode == k {
          assert Head(g.arcs[x], x in {}) == k;
        }
      }
    }
  }

  /** Over the whole node order of a valid graph the gathered list is an order of its arc ids. */
  lemma GatherAll(g: Graph)
    requires Valid(g)
    ensures Distinct(Gather(g, g.nodeOrder))
    ensures forall x :: x in Gather(g, g.nodeOrder) <==> x in g.arcs
  {
    assert NodeOrderOk(g);
    GatherSpec(g, g.nodeOrder);
    forall x | x in g.arcs ensures g.arcs[x].endNode in g.nodeOrder {
      assert Head(g.arcs[x], x in {}) in g.nodes;
    }
  }

  /** A clone of a valid graph is a valid graph with the same node records and list members,
      the same arc map, the same node order and the same counters; its arc map is ordered as
      the arcs were gathered. */
  lemma CloneSpec(g: Graph)
    requires Valid(g)
    ensures Clone(g).Ok?
    ensures var r := Clone(g).value;
      && NodesWithout(g, r, {}) && r.arcs == g.arcs
      && r.nodeOrder == g.nodeOrder && r.arcOrder == Gather(g, g.nodeOrder)
      && r.lastNodeId == g.lastNodeId && r.lastArcId == g.lastArcId
      && Valid(r)
  {
    CopyNodes(g);
    GatherAll(g);
    var c := LoadNodes(EmptyGraph, InOrder(g.nodes, g.nodeOrder));
    CopyArcs(g, c, Gather(g, g.nodeOrder));
    var r0 := LoadArcs(c, InOrder(g.arcs, Gather(g, g.nodeOrder))).value;
    var r := r0.(lastNodeId := g.lastNodeId, lastArcId := g.lastArcId);
    assert Clone(g) == Ok(r);
    SetCounters(g, r0, r);
    CloneLists(g, r);
  }

  lemma CloneLists(g: Graph, r: Graph)
    requires Valid(g) && Valid(r) && r.arcs == g.arcs && r.nodes.Keys == g.nodes.Keys
    requires forall k :: k in g.nodes ==> SameRecord(g.nodes[k], r.nodes[k])
    ensures NodesWithout(g, r, {})
  {
    ListsDetermined(g, r, {});
  }

  /** Taking over the counters of a graph with the same ids keeps validity. */
  lemma SetCounters(g: Graph, r0: Graph, r: Graph)
    requires KeysOk(g) && Valid(r0)
    requires r0.nodes.Keys == g.nodes.Keys && r0.arcs.Keys == g.arcs.Keys
    requires r == r0.(lastNodeId := g.lastNodeId, lastArcId := g.lastArcId)
    ensures Valid(r)
  {
    SameAdjacency(r0, r, {});
  }

  /** Hence the clone compares equal to the original. */
  lemma CloneSameContent(g: Graph)
    requires Valid(g)
    ensures Clone(g).Ok? && SameContent(g, Clone(g).value)
  {
    CloneSpec(g);
  }

  /** Cloning a clone gives back the clone's content again: the nodes and arcs are stable
      under repeated copying. */
  lemma CloneTwice(g: Graph)
    requires Valid(g)
    ensures Clone(g).Ok? && Clone(Clone(g).value).Ok?
    ensures var r := Clone(Clone(g).value).value;
      NodesWithout(g, r, {}) && r.arcs == g.arcs && r.nodeOrder == g.nodeOrder
  {
    CloneSpec(g);
    var r1 := Clone(g).value;
    CloneSpec(r1);
    NodesWithoutChain(g, r1, Clone(r1).value);
  }

  lemma NodesWithoutChain(a: Graph, b: Graph, c: Graph)
    requires NodesWithout(a, b, {}) && NodesWithout(b, c, {})
    ensures NodesWithout(a, c, {})
  {
    forall k, y | k in a.nodes
      ensures (y in c.nodes[k].inputArcs <==> y in a.nodes[k].inputArcs && y !in {})
      ensures (y in c.nodes[k].outputArcs <==> y in a.nodes[k].outputArcs && y !in {})
    {
      WithoutAt(a, b, {}, k, y);
      WithoutAt(b, c, {}, k, y);
    }
  }
}
