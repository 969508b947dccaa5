/** toJSON() and fromJSON() of modules/graph/graph.js (as overridden by VisualGraph): the
    graph is written as a list of node records in node-map order and a list of arc records in
    arc-map order, and read back by clearing the graph and creating the records in turn. The
    text encoding itself (JSON.stringify / JSON.parse) is taken to give back the records. */
module Documents {
  import opened Wrappers
  import opened Seqs
  import opened Graphs
  import opened Isolation
  import opened Loading

  /** The object toJSON serializes. A node record carries its id, params, coords and the ids of
      its arc lists; an arc record carries its id, the ids of its endpoints and its params. */
  datatype Document = Document(nodes: seq<Node>, arcs: seq<Arc>)

  /** toJSON(): one record per node in forEachNode order, one per arc in forEachArc order. */
  function ToJson(g: Graph): (d: Document)
    ensures |d.nodes| <= |g.nodeOrder| && |d.arcs| <= |g.arcOrder|
  {
    Document(InOrder(g.nodes, g.nodeOrder), InOrder(g.arcs, g.arcOrder))
  }

  /** fromJSON(json): clear(), then createNode for every node record (its lists are ignored),
      then createArc for every arc record with endpoints looked up by id. */
  function FromJson(h: Graph, doc: Document): (r: Result<Graph>)
  {
    var c :- Clear(h);
    LoadArcs(LoadNodes(c, doc.nodes), doc.arcs)
  }

  /** fromJSON(json) over clear() as written. */
  function FromJsonAsWritten(h: Graph, doc: Document): (r: Result<Graph>)
    ensures ClearAsWritten(h).Err? ==> r == Err(ClearAsWritten(h).error)
  {
    var c :- ClearAsWritten(h);
    LoadArcs(LoadNodes(c, doc.nodes), doc.arcs)
  }

  /** On a valid graph toJSON writes every node and every arc exactly once, in map order, each
      record being the stored one. */
  lemma ToJsonRecords(g: Graph)
    requires Valid(g)
    ensures NodeIds(ToJson(g).nodes) == g.nodeOrder && ArcIds(ToJson(g).arcs) == g.arcOrder
    ensures forall i :: 0 <= i < |g.nodeOrder| ==> ToJson(g).nodes[i] == g.nodes[g.nodeOrder[i]]
    ensures forall i :: 0 <= i < |g.arcOrder| ==> ToJson(g).arcs[i] == g.arcs[g.arcOrder[i]]
  {
    assert NodeOrderOk(g) && ArcOrderOk(g);
    KeysAt(g.nodeOrder, g.nodes);
    KeysAt(g.arcOrder, g.arcs);
    NodeIdsInOrder(g, g.nodeOrder);
    ArcIdsInOrder(g, g.arcOrder);
  }

  /** Reading back what toJSON wrote, into any valid graph, gives the same nodes with the same
      records and list members, the same arc map and both map orders; each counter becomes
      the largest id of its map (0 when empty), since the counters are not written. */
  lemma RoundTrip(g: Graph, h: Graph)
    requires Valid(g) && Valid(h)
    ensures FromJson(h, ToJson(g)).Ok?
    ensures var r := FromJson(h, ToJson(g)).value;
      && NodesWithout(g, r, {}) && r.arcs == g.arcs
      && r.nodeOrder == g.nodeOrder && r.arcOrder == g.arcOrder
      && r.lastNodeId == MaxOf(0, g.nodeOrder) && r.lastArcId == MaxOf(0, g.arcOrder)
      && Valid(r)
  {
    ClearEmpties(h);
    CopyNodes(g);
    var c := LoadNodes(EmptyGraph, InOrder(g.nodes, g.nodeOrder));
    assert ArcOrderOk(g);
    CopyArcs(g, c, g.arcOrder);
    var r := LoadArcs(c, InOrder(g.arcs, g.arcOrder)).value;
    assert FromJson(h, ToJson(g)) == Ok(r);
    ListsDetermined(g, r, {});
  }

  /** Hence the graph read back compares equal to the graph written, element by element. */
  lemma RoundTripSameContent(g: Graph, h: Graph)
    requires Valid(g) && Valid(h)
    ensures FromJson(h, ToJson(g)).Ok? && SameContent(g, FromJson(h, ToJson(g)).value)
  {
    RoundTrip(g, h);
  }

  /** The counters read back never exceed the counters written. */
  lemma RoundTripCounters(g: Graph, h: Graph)
    requires Valid(g) && Valid(h)
    ensures FromJson(h, ToJson(g)).Ok?
    ensures FromJson(h, ToJson(g)).value.lastNodeId <= g.lastNodeId
    ensures FromJson(h, ToJson(g)).value.lastArcId <= g.lastArcId
  {
    RoundTrip(g, h);
    assert NodeOrderOk(g) && ArcOrderOk(g);
    MaxOfBelow(0, g.nodeOrder, g.lastNodeId);
    MaxOfBelow(0, g.arcOrder, g.lastArcId);
  }

  lemma {:induction false} MaxOfBelow(base: int, s: seq<int>, bound: int)
    requires base <= bound && forall i :: 0 <= i < |s| ==> s[i] <= bound
    ensures MaxOf(base, s) <= bound
    decreases |s|
  {
    if s != [] {
      MaxOfBelow(if s[0] > base then s[0] else base, s[1..], bound);
    }
  }

  /** For node records with distinct nonzero ids, reading succeeds exactly when every arc
      record names two of those ids; otherwise it fails on the undefined endpoint. */
  lemma FromJsonResolves(h: Graph, doc: Document)
    requires Valid(h) && FreshNodes(doc.nodes, {})
    ensures FromJson(h, doc).Ok? <==>
      forall i :: 0 <= i < |doc.arcs| ==>
        doc.arcs[i].startNode in NodeIds(doc.nodes) && doc.arcs[i].endNode in NodeIds(doc.nodes)
    ensures FromJson(h, doc).Err? ==> FromJson(h, doc).error == Unresolved
  {
    FromJsonLoads(h, doc);
    EmptyLoadNodes(doc.nodes);
    var c := LoadNodes(EmptyGraph, doc.nodes);
  }

  /** Records with fresh, distinct nonzero ids whose arcs join listed nodes read back into a
      valid graph holding exactly those records. */
  lemma FromJsonValid(h: Graph, doc: Document)
    requires Valid(h) && FreshNodes(doc.nodes, {})
    requires FreshArcs(doc.arcs, {}, Elems(NodeIds(doc.nodes)))
    ensures FromJson(h, doc).Ok? && Valid(FromJson(h, doc).value)
    ensures var r := FromJson(h, doc).value;
      && r.nodes.Keys == Elems(NodeIds(doc.nodes)) && r.nodeOrder == NodeIds(doc.nodes)
      && r.arcs.Keys == Elems(ArcIds(doc.arcs)) && r.arcOrder == ArcIds(doc.arcs)
  {
    FromJsonLoads(h, doc);
    EmptyLoadNodes(doc.nodes);
    LoadedDocument(LoadNodes(EmptyGraph, doc.nodes), doc);
  }

  /** Node records with fresh, distinct nonzero ids loaded into the empty graph. */
  lemma EmptyLoadNodes(ns: seq<Node>)
    requires FreshNodes(ns, {})
    ensures var c := LoadNodes(EmptyGraph, ns);
      && Valid(c) && c.arcs == map[] && c.arcOrder == []
      && c.nodes.Keys == Elems(NodeIds(ns)) && c.nodeOrder == NodeIds(ns)
  {
    EmptyValid();
    assert EmptyGraph.nodes.Keys == {};
    LoadNodesSpec(EmptyGraph, ns);
    LoadedFromEmpty(LoadNodes(EmptyGraph, ns), ns);
  }

  /** Reading into a valid graph is loading the records into the empty graph. */
  lemma FromJsonLoads(h: Graph, doc: Document)
    requires Valid(h)
    ensures FromJson(h, doc) == LoadArcs(LoadNodes(EmptyGraph, doc.nodes), doc.arcs)
  {
    ClearEmpties(h);
  }

  lemma LoadedDocument(c: Graph, doc: Document)
    requires Valid(c) && c.arcs == map[] && c.arcOrder == []
    requires c.nodes.Keys == Elems(NodeIds(doc.nodes)) && c.nodeOrder == NodeIds(doc.nodes)
    requires FreshArcs(doc.arcs, {}, Elems(NodeIds(doc.nodes)))
    ensures LoadArcs(c, doc.arcs).Ok? && Valid(LoadArcs(c, doc.arcs).value)
    ensures var r := LoadArcs(c, doc.arcs).value;
      && r.nodes.Keys == Elems(NodeIds(doc.nodes)) && r.nodeOrder == NodeIds(doc.nodes)
      && r.arcs.Keys == Elems(ArcIds(doc.arcs)) && r.arcOrder == ArcIds(doc.arcs)
  {
    LoadArcsSpec(c, doc.arcs);
    var r := LoadArcs(c, doc.arcs).value;
    LoadedKeys(c, r, doc.arcs);
  }

  lemma LoadedKeys(c: Graph, r: Graph, arcs: seq<Arc>)
    requires c.arcs == map[] && c.arcOrder == [] && ArcsLoaded(c, r, arcs)
    ensures r.arcs.Keys == Elems(ArcIds(arcs)) && r.arcOrder == ArcIds(arcs)
  {
    assert r.arcs.Keys == {} + Elems(ArcIds(arcs));
    assert r.arcOrder == [] + ArcIds(arcs);
  }

  // ---------------------------------------------------------------------------
  // fromJSON over clear() as written

  /** Reading into a valid graph without self-loops, fromJSON as written does what the
      corrected one does. */
  lemma FromJsonAgrees(h: Graph, doc: Document)
    requires Valid(h) && NoSelfLoops(h)
    ensures FromJsonAsWritten(h, doc) == FromJson(h, doc)
  {
    ClearAgrees(h);
  }

  /** The graph SelfLoopGraph is reached through the program's own fromJSON: reading its
      document into a fresh graph rebuilds it exactly. */
  lemma SelfLoopLoads()
    ensures FromJsonAsWritten(EmptyGraph, ToJson(SelfLoopGraph)) == Ok(SelfLoopGraph)
  {
    var G := SelfLoopGraph;
    EmptyValid();
    ClearAgrees(EmptyGraph);
    var doc := SelfLoopDocument();
    var c := SelfLoopNodesLoaded();
    SelfLoopArcsLoaded(c);
  }

  lemma SelfLoopDocument() returns (doc: Document)
    ensures ToJson(SelfLoopGraph) == doc
    ensures doc.nodes == [Node(1, [], Origin, [1, 2], [1]), Node(2, [], Origin, [], [2])]
    ensures doc.arcs == [Arc(1, 1, 1, []), Arc(2, 2, 1, [])]
  {
    var G := SelfLoopGraph;
    assert [1, 2][1..] == [2] && [2][1..] == [];
    assert InOrder(G.nodes, [2]) == [G.nodes[2]];
    assert InOrder(G.arcs, [2]) == [G.arcs[2]];
    doc := ToJson(G);
  }

  /** Loading the two node records: nodes 1 and 2 with empty lists. */
  lemma SelfLoopNodesLoaded() returns (c: Graph)
    ensures LoadNodes(EmptyGraph, ToJson(SelfLoopGraph).nodes) == c
    ensures c == Graph(map[1 := Node(1, [], Origin, [], []), 2 := Node(2, [], Origin, [], [])], [1, 2],
                       map[], [], 2, 0)
  {
    var doc := SelfLoopDocument();
    var E := EmptyGraph;
    var c1 := Graph(map[1 := Node(1, [], Origin, [], [])], [1], map[], [], 1, 0);
    c := Graph(map[1 := Node(1, [], Origin, [], []), 2 := Node(2, [], Origin, [], [])], [1, 2],
               map[], [], 2, 0);
    assert CreateNode(E, [], Given(1), Origin).0 == c1;
    assert CreateNode(c1, [], Given(2), Origin).0 == c;
    assert doc.nodes[1..] == [doc.nodes[1]] && doc.nodes[1..][1..] == [];
    assert LoadNodes(c, []) == c;
    assert LoadNodes(c1, doc.nodes[1..]) == c;
  }

  /** Loading the two arc records after them gives SelfLoopGraph. */
  lemma SelfLoopArcsLoaded(c: Graph)
    requires c == Graph(map[1 := Node(1, [], Origin, [], []), 2 := Node(2, [], Origin, [], [])], [1, 2],
                        map[], [], 2, 0)
    ensures LoadArcs(c, ToJson(SelfLoopGraph).arcs) == Ok(SelfLoopGraph)
  {
    var doc := SelfLoopDocument();
    var d1 := SelfLoopFirstArc(c);
    SelfLoopSecondArc(d1);
    assert doc.arcs[1..] == [doc.arcs[1]] && doc.arcs[1..][1..] == [];
    assert LoadArcs(SelfLoopGraph, []) == Ok(SelfLoopGraph);
    assert LoadArcs(d1, doc.arcs[1..]) == Ok(SelfLoopGraph);
  }

  lemma SelfLoopFirstArc(c: Graph) returns (d1: Graph)
    requires c == Graph(map[1 := Node(1, [], Origin, [], []), 2 := Node(2, [], Origin, [], [])], [1, 2],
                        map[], [], 2, 0)
    ensures d1 == Graph(map[1 := Node(1, [], Origin, [1], [1]), 2 := Node(2, [], Origin, [], [])], [1, 2],
                        map[1 := Arc(1, 1, 1, [])], [1], 2, 1)
    ensures CreateArc(c, 1, 1, [], Given(1)) == Ok((d1, 1))
  {
    d1 := Graph(map[1 := Node(1, [], Origin, [1], [1]), 2 := Node(2, [], Origin, [], [])], [1, 2],
                map[1 := Arc(1, 1, 1, [])], [1], 2, 1);
    var a1 := AddArc(c, 1, Arc(1, 1, 1, []));
    assert a1.nodes.Keys == d1.nodes.Keys && a1.nodes[1] == d1.nodes[1] && a1.nodes[2] == d1.nodes[2];
    assert a1.nodes == d1.nodes && a1.arcs == d1.arcs;
  }

  lemma SelfLoopSecondArc(d1: Graph)
    requires d1 == Graph(map[1 := Node(1, [], Origin, [1], [1]), 2 := Node(2, [], Origin, [], [])], [1, 2],
                         map[1 := Arc(1, 1, 1, [])], [1], 2, 1)
    ensures CreateArc(d1, 2, 1, [], Given(2)) == Ok((SelfLoopGraph, 2))
  {
    var a2 := AddArc(d1, 2, Arc(2, 2, 1, []));
    assert a2.nodes.Keys == {1, 2} && a2.nodes[1] == SelfLoopGraph.nodes[1] && a2.nodes[2] == SelfLoopGraph.nodes[2];
    assert a2.nodes == SelfLoopGraph.nodes && a2.arcs == SelfLoopGraph.arcs;
  }

  /** Reading any document into SelfLoopGraph throws as written, since clear() throws; the
      corrected fromJSON reads it into the empty graph. */
  lemma FromJsonSelfLoopThrows(doc: Document)
    ensures FromJsonAsWritten(SelfLoopGraph, doc) == Err(NoSuchElement)
    ensures FromJson(SelfLoopGraph, doc) == LoadArcs(LoadNodes(EmptyGraph, doc.nodes), doc.arcs)
  {
    ClearSelfLoopThrows();
    FromJsonLoads(SelfLoopGraph, doc);
  }
}
