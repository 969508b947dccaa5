/** The earlier id-keyed graph of scripts/graph.js. Its nodes and arcs are kept in maps keyed by
    id with the same two counters, and its createNode/createArc id rule, deleteArcFromNode,
    isolateNode and deleteNode are those of the current Graph class, so they are modelled by the
    same members (Graphs, Isolation); a legacy node has no coordinates and sits at the origin.
    What is its own: findArcBetweenNodes, which matches the end node only, the
    deleteArc(nodeFrom, nodeTo) built on it, and fillWithTwoArraysGraph. */
module KeyedGraph {
  import opened Wrappers
  import opened Seqs
  import opened Graphs
  import opened Loading

  // ---------------------------------------------------------------------------
  // findArcBetweenNodes and deleteArc as written

  /** The arc x is live and ends at e. */
  predicate EndsAt(g: Graph, x: Id, e: Id) {
    x in g.arcs && g.arcs[x].endNode == e
  }

  /** The scan of the legacy findArcBetweenNodes over the arcs in the given order: the first
      arc whose end node is e. */
  function FindTo(g: Graph, order: seq<Id>, e: Id): (r: Result<Id>)
    ensures r.Ok? ==> EndsAt(g, r.value, e)
    ensures r.Ok? ==> exists i :: 0 <= i < |order| && order[i] == r.value
                        && forall j :: 0 <= j < i ==> !EndsAt(g, order[j], e)
    ensures r.Err? <==> forall j :: 0 <= j < |order| ==> !EndsAt(g, order[j], e)
    ensures r.Err? ==> r.error == NoSuchElement
  {
    if order == [] then Err(NoSuchElement)
    else if EndsAt(g, order[0], e) then Ok(order[0])
    else
      var r := FindTo(g, order[1..], e);
      if r.Ok? then
        ghost var i :| 0 <= i < |order| - 1 && order[1..][i] == r.value
                      && forall j :: 0 <= j < i ==> !EndsAt(g, order[1..][j], e);
        assert order[i + 1] == r.value;
        r
      else r
  }

  /** findArcBetweenNodes(nodeFrom, nodeTo) as written: the first arc in map order whose
      nodeTo matches; nodeFrom takes no part. Throws "no such element" when no arc ends at
      nodeTo. */
  function FindArcAsWritten(g: Graph, s: Id, e: Id): (r: Result<Id>)
    ensures r.Ok? ==> EndsAt(g, r.value, e)
    ensures r.Err? ==> r.error == NoSuchElement
    ensures ArcOrderOk(g) ==> (r.Ok? <==> exists x :: EndsAt(g, x, e))
  {
    var r := FindTo(g, g.arcOrder, e);
    assert ArcOrderOk(g) && (exists x :: EndsAt(g, x, e)) ==> r.Ok? by {
      if ArcOrderOk(g) && exists x :: EndsAt(g, x, e) {
        var x :| EndsAt(g, x, e);
        var i :| 0 <= i < |g.arcOrder| && g.arcOrder[i] == x;
      }
    }
    r
  }

  /** deleteArc(nodeFrom, nodeTo) as written: the arc findArcBetweenNodes returns is removed
      from nodeFrom's lists, then from nodeTo's, then from the arc map. */
  function DeleteArcAsWritten(g: Graph, s: Id, e: Id): (r: Result<Graph>)
    ensures FindArcAsWritten(g, s, e).Err? ==> r == Err(NoSuchElement)
    ensures r.Err? ==> r.error == NoSuchElement
    ensures r.Ok? ==> var x := FindArcAsWritten(g, s, e).value;
      && r.value.arcs == g.arcs - {x} && r.value.arcOrder == RemoveFirst(g.arcOrder, x)
      && r.value.nodes.Keys == g.nodes.Keys && r.value.nodeOrder == g.nodeOrder
      && r.value.lastNodeId == g.lastNodeId && r.value.lastArcId == g.lastArcId
  {
    var x :- FindArcAsWritten(g, s, e);
    var g1 :- DeleteArcFromNode(g, x, s);
    var g2 :- DeleteArcFromNode(g1, x, e);
    Ok(g2.(arcs := g.arcs - {x}, arcOrder := RemoveFirst(g.arcOrder, x)))
  }

  /** On a valid graph the legacy deleteArc never removes a wrong arc: when it succeeds, the
      arc it found does run from nodeFrom to nodeTo, and the outcome is that of the current
      deleteArcBetweenNodes, which matches both ends. What the missing start check costs is
      a spurious "no such element" (FindIgnoresStart). */
  lemma DeleteArcAsWrittenAgrees(g: Graph, s: Id, e: Id)
    requires Valid(g)
    ensures DeleteArcAsWritten(g, s, e).Ok? ==>
      && FindArcAsWritten(g, s, e).Ok?
      && Joins(g, FindArcAsWritten(g, s, e).value, s, e)
      && DeleteArcAsWritten(g, s, e) == DeleteArcBetweenNodes(g, s, e)
  {
    if DeleteArcAsWritten(g, s, e).Ok? {
      var x := FindArcAsWritten(g, s, e).value;
      var g1 := DeleteArcFromNode(g, x, s).value;
      StartMatches(g, g1, x, s, e);
      FindToJoins(g, g.arcOrder, s, e);
      assert FindArcBetweenNodes(g, s, e) == Ok(x);
    }
  }

  /** When an arc ending at e can be taken off s's lists and then off e's, it starts at s. */
  lemma StartMatches(g: Graph, g1: Graph, x: Id, s: Id, e: Id)
    requires Valid(g) && EndsAt(g, x, e)
    requires DeleteArcFromNode(g, x, s) == Ok(g1) && DeleteArcFromNode(g1, x, e).Ok?
    ensures Joins(g, x, s, e)
  {
    var node := g.nodes[s];
    if x in node.inputArcs {
      assert Head(g.arcs[x], x in {}) == s;
      assert Distinct(node.inputArcs);
      assert x !in g1.nodes[s].inputArcs;
      assert x in node.outputArcs;
      assert Tail(g.arcs[x], x in {}) == s;
    } else {
      assert Tail(g.arcs[x], x in {}) == s;
    }
  }

  /** When the first arc ending at e also starts at s, it is the first arc joining s to e. */
  lemma {:induction false} FindToJoins(g: Graph, order: seq<Id>, s: Id, e: Id)
    requires FindTo(g, order, e).Ok? && Joins(g, FindTo(g, order, e).value, s, e)
    ensures FindIn(g, order, s, e) == FindTo(g, order, e)
    decreases |order|
  {
    if !EndsAt(g, order[0], e) {
      FindToJoins(g, order[1..], s, e);
    }
  }

  /** Nodes 1 and 2 each have one arc into node 3: arc 1 from node 1, arc 2 from node 2. */
  const TwoInGraph := Graph(
    map[1 := Node(1, [], Origin, [], [1]), 2 := Node(2, [], Origin, [], [2]), 3 := Node(3, [], Origin, [1, 2], [])],
    [1, 2, 3],
    map[1 := Arc(1, 1, 3, []), 2 := Arc(2, 2, 3, [])], [1, 2],
    3, 2)

  /** Asked for the arc from node 2 to node 3, the legacy lookup returns arc 1, which starts
      at node 1, and the legacy deleteArc then fails although arc 2 joins the two nodes; the
      lookup that matches both ends finds and deletes arc 2. */
  lemma FindIgnoresStart()
    ensures Valid(TwoInGraph) && Joins(TwoInGraph, 2, 2, 3)
    ensures FindArcAsWritten(TwoInGraph, 2, 3) == Ok(1) && !Joins(TwoInGraph, 1, 2, 3)
    ensures DeleteArcAsWritten(TwoInGraph, 2, 3) == Err(NoSuchElement)
    ensures FindArcBetweenNodes(TwoInGraph, 2, 3) == Ok(2)
    ensures DeleteArcBetweenNodes(TwoInGraph, 2, 3).Ok?
  {
    TwoInValid();
    TwoInAsWritten();
    TwoInCorrected();
  }

  lemma TwoInAsWritten()
    ensures FindArcAsWritten(TwoInGraph, 2, 3) == Ok(1)
    ensures DeleteArcAsWritten(TwoInGraph, 2, 3) == Err(NoSuchElement)
  {
    var G := TwoInGraph;
    assert FindTo(G, G.arcOrder, 3) == Ok(1);
    assert DeleteArcFromNode(G, 1, 2) == Err(NoSuchElement);
  }

  lemma TwoInCorrected()
    requires Valid(TwoInGraph)
    ensures FindArcBetweenNodes(TwoInGraph, 2, 3) == Ok(2)
    ensures DeleteArcBetweenNodes(TwoInGraph, 2, 3).Ok?
  {
    var G := TwoInGraph;
    assert FindIn(G, [2], 2, 3) == Ok(2);
    assert FindIn(G, G.arcOrder, 2, 3) == Ok(2);
    DeleteArcBetweenNodesSpec(G, 2, 3);
  }

  lemma TwoInValid()
    ensures Valid(TwoInGraph)
  {
    TwoInKeys();
    TwoInSound();
    TwoInPlaced();
  }

  lemma TwoInKeys()
    ensures KeysOk(TwoInGraph)
  {
    var G := TwoInGraph;
    assert forall k :: k in G.nodeOrder <==> k == 1 || k == 2 || k == 3;
    assert forall k :: k in G.arcOrder <==> k == 1 || k == 2;
    forall k | k in G.nodes ensures G.nodes[k].id == k && k != 0 && k <= G.lastNodeId {
      assert k == 1 || k == 2 || k == 3;
    }
    forall k | k in G.arcs ensures G.arcs[k].id == k && k != 0 && k <= G.lastArcId {
      assert k == 1 || k == 2;
    }
  }

  lemma TwoInSound()
    ensures InputsSound(TwoInGraph, {}) && OutputsSound(TwoInGraph, {}) && ListsDistinct(TwoInGraph)
  {
    var G := TwoInGraph;
    forall k, x | k in G.nodes && x in G.nodes[k].inputArcs ensures x in G.arcs && Head(G.arcs[x], x in {}) == k {
      assert k == 3 && (x == 1 || x == 2);
    }
    forall k, x | k in G.nodes && x in G.nodes[k].outputArcs ensures x in G.arcs && Tail(G.arcs[x], x in {}) == k {
      assert (k == 1 && x == 1) || (k == 2 && x == 2);
    }
    forall k | k in G.nodes ensures Distinct(G.nodes[k].inputArcs) && Distinct(G.nodes[k].outputArcs) {
      assert k == 1 || k == 2 || k == 3;
    }
  }

  lemma TwoInPlaced()
    ensures ArcsPlaced(TwoInGraph, {})
  {
    var G := TwoInGraph;
    forall x | x in G.arcs
      ensures Tail(G.arcs[x], x in {}) in G.nodes && Head(G.arcs[x], x in {}) in G.nodes
      ensures x in G.nodes[Tail(G.arcs[x], x in {})].outputArcs
      ensures x in G.nodes[Head(G.arcs[x], x in {})].inputArcs
    {
      assert x == 1 || x == 2;
    }
  }

  // ---------------------------------------------------------------------------
  // fillWithTwoArraysGraph

  /** The literal fillWithTwoArraysGraph reads: the keys of its `nodes` object in iteration
      order, each with its params object, and its `arcs` array of [from, to] key pairs. */
  datatype TwoArrays = TwoArrays(nodes: seq<(int, Params)>, arcs: seq<(int, int)>)

  function KeysOf(ns: seq<(int, Params)>): (r: seq<int>)
    ensures |r| == |ns| && forall i :: 0 <= i < |ns| ==> r[i] == ns[i].0
  {
    seq(|ns|, i requires 0 <= i < |ns| => ns[i].0)
  }

  /** The node loop: createNode(params, key) for each key. A key is a non-empty string, so it
      is always taken as an explicit id. */
  function FillNodes(g: Graph, ns: seq<(int, Params)>): (r: Graph)
    ensures r.nodes.Keys == g.nodes.Keys + Elems(KeysOf(ns))
    ensures r.arcs == g.arcs && r.arcOrder == g.arcOrder && r.lastArcId == g.lastArcId
    decreases |ns|
  {
    if ns == [] then g
    else
      var h := CreateNode(g, ns[0].1, Given(ns[0].0), Origin).0;
      assert KeysOf(ns) == [ns[0].0] + KeysOf(ns[1..]);
      FillNodes(h, ns[1..])
  }

  /** The arc loop: createArc(nodesById[from], nodesById[to]) with a fresh id and no params
      for each pair. nodesById holds only the keys of the literal; any other endpoint is
      undefined, whose outArcs createArc then reads. */
  function FillArcs(g: Graph, keys: set<int>, pairs: seq<(int, int)>): (r: Result<Graph>)
    requires keys <= g.nodes.Keys
    ensures r.Ok? <==> forall i :: 0 <= i < |pairs| ==> pairs[i].0 in keys && pairs[i].1 in keys
    ensures r.Err? ==> r.error == Unresolved
    ensures r.Ok? ==> r.value.nodes.Keys == g.nodes.Keys
    decreases |pairs|
  {
    if pairs == [] then Ok(g)
    else if pairs[0].0 !in keys || pairs[0].1 !in keys then Err(Unresolved)
    else
      var h := CreateArc(g, pairs[0].0, pairs[0].1, [], Auto).value.0;
      var r := FillArcs(h, keys, pairs[1..]);
      assert r.Ok? <==> forall i :: 0 <= i < |pairs| ==> pairs[i].0 in keys && pairs[i].1 in keys by {
        forall i | 0 < i < |pairs| ensures pairs[i] == pairs[1..][i - 1] {
        }
      }
      r
  }

  /** fillWithTwoArraysGraph(twoArraysGraph): every node first, then every arc. It throws
      exactly when a pair names a key the literal does not have. */
  function FillWithTwoArraysGraph(g: Graph, t: TwoArrays): (r: Result<Graph>)
    ensures r.Ok? <==> forall i :: 0 <= i < |t.arcs| ==>
                         t.arcs[i].0 in KeysOf(t.nodes) && t.arcs[i].1 in KeysOf(t.nodes)
    ensures r.Err? ==> r.error == Unresolved
  {
    var h := FillNodes(g, t.nodes);
    FillArcs(h, Elems(KeysOf(t.nodes)), t.arcs)
  }

  /** The node records the node loop amounts to. */
  function NodeRecords(ns: seq<(int, Params)>): (r: seq<Node>)
    ensures |r| == |ns| && forall i :: 0 <= i < |ns| ==> r[i] == Node(ns[i].0, ns[i].1, Origin, [], [])
  {
    seq(|ns|, i requires 0 <= i < |ns| => Node(ns[i].0, ns[i].1, Origin, [], []))
  }

  /** The arc records the arc loop amounts to on a graph whose arc counter is `last`: the
      i-th pair gets id last + 1 + i and no params. */
  function ArcRecords(last: int, pairs: seq<(int, int)>): (r: seq<Arc>)
    ensures |r| == |pairs|
    ensures forall i :: 0 <= i < |pairs| ==> r[i] == Arc(last + 1 + i, pairs[i].0, pairs[i].1, [])
  {
    seq(|pairs|, i requires 0 <= i < |pairs| => Arc(last + 1 + i, pairs[i].0, pairs[i].1, []))
  }

  /** r is g with one node per literal key, in key order, under that key, and no other node
      record changed. */
  ghost predicate NodesFilled(g: Graph, r: Graph, ns: seq<(int, Params)>) {
    && r.nodes.Keys == g.nodes.Keys + Elems(KeysOf(ns))
    && (forall k :: k in g.nodes ==> SameRecord(g.nodes[k], r.nodes[k]))
    && (forall i :: 0 <= i < |ns| ==> SameRecord(r.nodes[ns[i].0], Node(ns[i].0, ns[i].1, Origin, [], [])))
    && r.nodeOrder == g.nodeOrder + KeysOf(ns)
    && r.lastNodeId == MaxOf(g.lastNodeId, KeysOf(ns))
  }

  /** r is g with one arc per pair, in array order, under the ids after g's arc counter, with
      no params. */
  ghost predicate ArcsFilled(g: Graph, r: Graph, pairs: seq<(int, int)>) {
    && (forall x :: x in r.arcs <==> x in g.arcs || g.lastArcId < x <= g.lastArcId + |pairs|)
    && (forall x :: x in g.arcs ==> r.arcs[x] == g.arcs[x])
    && (forall i :: 0 <= i < |pairs| ==>
          r.arcs[g.lastArcId + 1 + i] == Arc(g.lastArcId + 1 + i, pairs[i].0, pairs[i].1, []))
    && r.lastArcId == g.lastArcId + |pairs|
  }

  /** With nonzero keys, the node loop is the record loader fed the node records. */
  lemma {:induction false} FillNodesLoads(g: Graph, ns: seq<(int, Params)>)
    requires forall i :: 0 <= i < |ns| ==> ns[i].0 != 0
    ensures FillNodes(g, ns) == LoadNodes(g, NodeRecords(ns))
    decreases |ns|
  {
    if ns != [] {
      var h := CreateNode(g, ns[0].1, Given(ns[0].0), Origin).0;
      assert NodeRecords(ns)[0] == Node(ns[0].0, ns[0].1, Origin, [], []);
      assert IdArgOf(ns[0].0) == Given(ns[0].0);
      assert NodeRecords(ns)[1..] == NodeRecords(ns[1..]);
      FillNodesLoads(h, ns[1..]);
    }
  }

  /** With every endpoint among the keys and a counter that is not negative, the arc loop is
      the record loader fed the arc records: an auto id last + 1 is the explicit id last + 1. */
  lemma {:induction false} FillArcsLoads(g: Graph, keys: set<int>, pairs: seq<(int, int)>)
    requires keys <= g.nodes.Keys && g.lastArcId >= 0
    requires forall i :: 0 <= i < |pairs| ==> pairs[i].0 in keys && pairs[i].1 in keys
    ensures FillArcs(g, keys, pairs) == LoadArcs(g, ArcRecords(g.lastArcId, pairs))
    decreases |pairs|
  {
    if pairs != [] {
      var recs := ArcRecords(g.lastArcId, pairs);
      var a := recs[0];
      assert IdArgOf(a.id) == Given(g.lastArcId + 1);
      assert CreateArc(g, a.startNode, a.endNode, a.params, IdArgOf(a.id))
          == CreateArc(g, pairs[0].0, pairs[0].1, [], Auto);
      var h := CreateArc(g, pairs[0].0, pairs[0].1, [], Auto).value.0;
      assert h.lastArcId == g.lastArcId + 1;
      assert recs[1..] == ArcRecords(h.lastArcId, pairs[1..]);
      FillArcsLoads(h, keys, pairs[1..]);
    }
  }

  /** Filling a valid graph from a literal whose keys are distinct, nonzero and not live and
      whose pairs name only its keys succeeds and keeps the graph valid. It adds one node per
      key, in key order, with that key as its id and its params, and keeps every other node
      record; and it adds one arc per pair, in array order, from the pair's first key to its
      second, under the ids after the old arc counter (1..n on an empty graph), with no
      params. Each counter ends at the largest id it has seen. */
  lemma FillSpec(g: Graph, t: TwoArrays)
    requires Valid(g) && Distinct(KeysOf(t.nodes))
    requires forall i :: 0 <= i < |t.nodes| ==> t.nodes[i].0 != 0 && t.nodes[i].0 !in g.nodes
    requires forall i :: 0 <= i < |t.arcs| ==> t.arcs[i].0 in KeysOf(t.nodes) && t.arcs[i].1 in KeysOf(t.nodes)
    ensures FillWithTwoArraysGraph(g, t).Ok?
    ensures Valid(FillWithTwoArraysGraph(g, t).value)
    ensures NodesFilled(g, FillWithTwoArraysGraph(g, t).value, t.nodes)
    ensures ArcsFilled(g, FillWithTwoArraysGraph(g, t).value, t.arcs)
  {
    var h := FillNodesValid(g, t.nodes);
    var keys := Elems(KeysOf(t.nodes));
    var recs := ArcRecords(g.lastArcId, t.arcs);
    FillArcsLoads(h, keys, t.arcs);
    FreshRecords(h, keys, t.arcs);
    LoadArcsSpec(h, recs);
    var r := LoadArcs(h, recs).value;
    assert FillWithTwoArraysGraph(g, t) == Ok(r);
    NodesFromRecords(g, h, r, t.nodes, recs);
    ArcsFromRecords(g, h, r, t.arcs);
  }

  /** The node loop of FillSpec, through the node record loader. */
  lemma FillNodesValid(g: Graph, ns: seq<(int, Params)>) returns (h: Graph)
    requires Valid(g) && Distinct(KeysOf(ns))
    requires forall i :: 0 <= i < |ns| ==> ns[i].0 != 0 && ns[i].0 !in g.nodes
    ensures h == FillNodes(g, ns) && Valid(h)
    ensures NodesLoaded(g, h, NodeRecords(ns)) && NodeIds(NodeRecords(ns)) == KeysOf(ns)
    ensures Elems(KeysOf(ns)) <= h.nodes.Keys
  {
    var recs := NodeRecords(ns);
    assert NodeIds(recs) == KeysOf(ns);
    FillNodesLoads(g, ns);
    LoadNodesSpec(g, recs);
    h := FillNodes(g, ns);
  }

  /** The arc records of a loop on a graph whose ids are in order are fresh. */
  lemma FreshRecords(h: Graph, keys: set<int>, pairs: seq<(int, int)>)
    requires KeysOk(h) && keys <= h.nodes.Keys
    requires forall i :: 0 <= i < |pairs| ==> pairs[i].0 in keys && pairs[i].1 in keys
    ensures FreshArcs(ArcRecords(h.lastArcId, pairs), h.arcs.Keys, h.nodes.Keys)
  {
    var recs := ArcRecords(h.lastArcId, pairs);
    assert forall i :: 0 <= i < |recs| ==> ArcIds(recs)[i] == h.lastArcId + 1 + i;
  }

  /** What the node loader's contract says, restated for the literal. */
  lemma NodesFromRecords(g: Graph, h: Graph, r: Graph, ns: seq<(int, Params)>, recs: seq<Arc>)
    requires NodesLoaded(g, h, NodeRecords(ns)) && NodeIds(NodeRecords(ns)) == KeysOf(ns)
    requires ArcsLoaded(h, r, recs)
    ensures NodesFilled(g, r, ns)
  {
    forall i | 0 <= i < |ns|
      ensures SameRecord(r.nodes[ns[i].0], Node(ns[i].0, ns[i].1, Origin, [], []))
    {
      assert NodeRecords(ns)[i].id == ns[i].0;
    }
  }

  /** What the arc loader's contract says, restated for the literal. */
  lemma ArcsFromRecords(g: Graph, h: Graph, r: Graph, pairs: seq<(int, int)>)
    requires h.arcs == g.arcs && h.lastArcId == g.lastArcId
    requires ArcsLoaded(h, r, ArcRecords(g.lastArcId, pairs))
    ensures ArcsFilled(g, r, pairs)
  {
    var recs := ArcRecords(g.lastArcId, pairs);
    var ids := ArcIds(recs);
    assert forall i :: 0 <= i < |ids| ==> ids[i] == g.lastArcId + 1 + i;
    forall x | g.lastArcId < x <= g.lastArcId + |pairs| ensures x in Elems(ids) {
      assert ids[x - g.lastArcId - 1] == x;
    }
    forall i | 0 <= i < |pairs|
      ensures r.arcs[g.lastArcId + 1 + i] == Arc(g.lastArcId + 1 + i, pairs[i].0, pairs[i].1, [])
    {
      assert recs[i].id == g.lastArcId + 1 + i;
    }
    MaxOfRun(g.lastArcId, ids);
  }

  /** The largest of a base and the run base + 1, ..., base + n is base + n. */
  lemma MaxOfRun(base: int, ids: seq<int>)
    requires forall i :: 0 <= i < |ids| ==> ids[i] == base + 1 + i
    ensures MaxOf(base, ids) == base + |ids|
  {
    var m := MaxOf(base, ids);
    if ids != [] {
      assert ids[|ids| - 1] <= m;
    }
  }
}
