/** Rebuilding a graph from records, as clone() and fromJSON() of modules/graph/graph.js do:
    createNode(params, id, coords) for every node record in turn, then
    createArc(getNode(start), getNode(end), params, id) for every arc record in turn. */
module Loading {
  import opened Wrappers
  import opened Seqs
  import opened Graphs

  function NodeIds(ns: seq<Node>): (r: seq<Id>)
    ensures |r| == |ns| && forall i :: 0 <= i < |ns| ==> r[i] == ns[i].id
  {
    seq(|ns|, i requires 0 <= i < |ns| => ns[i].id)
  }

  function ArcIds(arcs: seq<Arc>): (r: seq<Id>)
    ensures |r| == |arcs| && forall i :: 0 <= i < |arcs| ==> r[i] == arcs[i].id
  {
    seq(|arcs|, i requires 0 <= i < |arcs| => arcs[i].id)
  }

  /** createNode for each record; a record's lists are ignored and the node starts with none. */
  function LoadNodes(c: Graph, ns: seq<Node>): (r: Graph)
    ensures r.arcs == c.arcs && r.arcOrder == c.arcOrder && r.lastArcId == c.lastArcId
    ensures r.nodes.Keys >= c.nodes.Keys && r.lastNodeId >= c.lastNodeId
    decreases |ns|
  {
    if ns == [] then c
    else
      var n := ns[0];
      LoadNodes(CreateNode(c, n.params, IdArgOf(n.id), n.coords).0, ns[1..])
  }

  /** createArc for each record, its endpoints looked up by id in the graph built so far; a
      missing endpoint is the undefined whose outputArcs createArc reads. */
  function LoadArcs(c: Graph, arcs: seq<Arc>): (r: Result<Graph>)
    ensures r.Ok? <==> forall i :: 0 <= i < |arcs| ==> arcs[i].startNode in c.nodes && arcs[i].endNode in c.nodes
    ensures r.Err? ==> r.error == Unresolved
    ensures r.Ok? ==> r.value.nodes.Keys == c.nodes.Keys && r.value.nodeOrder == c.nodeOrder
    decreases |arcs|
  {
    if arcs == [] then Ok(c)
    else
      var a := arcs[0];
      var p :- CreateArc(c, a.startNode, a.endNode, a.params, IdArgOf(a.id));
      LoadArcs(p.0, arcs[1..])
  }

  // ---------------------------------------------------------------------------
  // Loading records with fresh ids

  /** Node records with distinct explicit ids, none of them live. */
  ghost predicate FreshNodes(ns: seq<Node>, live: set<Id>) {
    && Distinct(NodeIds(ns))
    && (forall i :: 0 <= i < |ns| ==> ns[i].id != 0 && ns[i].id !in live)
  }

  /** r is c with one new node per record, in record order, under the record's id. */
  ghost predicate NodesLoaded(c: Graph, r: Graph, ns: seq<Node>) {
    && r.nodes.Keys == c.nodes.Keys + Elems(NodeIds(ns))
    && (forall k :: k in c.nodes ==> r.nodes[k] == c.nodes[k])
    && (forall i :: 0 <= i < |ns| ==> r.nodes[ns[i].id] == Node(ns[i].id, ns[i].params, ns[i].coords, [], []))
    && r.nodeOrder == c.nodeOrder + NodeIds(ns)
    && r.arcs == c.arcs && r.arcOrder == c.arcOrder && r.lastArcId == c.lastArcId
    && r.lastNodeId == MaxOf(c.lastNodeId, NodeIds(ns))
  }

  /** Loading node records with fresh ids into a valid graph adds exactly those nodes, keeps
      the graph valid, and leaves the node counter at the largest of its old value and the ids. */
  lemma {:induction false} LoadNodesSpec(c: Graph, ns: seq<Node>)
    requires Valid(c) && FreshNodes(ns, c.nodes.Keys)
    ensures NodesLoaded(c, LoadNodes(c, ns), ns)
    ensures Valid(LoadNodes(c, ns))
    ensures NoSelfLoops(c) ==> NoSelfLoops(LoadNodes(c, ns))
    decreases |ns|
  {
    if ns == [] {
      assert NodeIds(ns) == [] && c.nodeOrder + [] == c.nodeOrder;
    } else {
      var n := ns[0];
      CreateNodeKeepsValid(c, n.params, IdArgOf(n.id), n.coords);
      var h := CreateNode(c, n.params, IdArgOf(n.id), n.coords).0;
      assert NodeIds(ns[1..]) == NodeIds(ns)[1..];
      ElemsCons(NodeIds(ns));
      assert FreshNodes(ns[1..], h.nodes.Keys) by {
        forall i | 0 <= i < |ns[1..]| ensures ns[1..][i].id != 0 && ns[1..][i].id !in h.nodes.Keys {
          assert ns[1..][i].id == NodeIds(ns)[i + 1];
        }
      }
      assert h.nodes == c.nodes[n.id := Node(n.id, n.params, n.coords, [], [])];
      LoadNodesSpec(h, ns[1..]);
      NodesLoadedCons(c, h, LoadNodes(h, ns[1..]), ns);
    }
  }

  lemma NodesLoadedCons(c: Graph, h: Graph, r: Graph, ns: seq<Node>)
    requires ns != [] && Distinct(NodeIds(ns)) && ns[0].id !in c.nodes
    requires h.nodes == c.nodes[ns[0].id := Node(ns[0].id, ns[0].params, ns[0].coords, [], [])]
    requires h.nodeOrder == c.nodeOrder + [ns[0].id]
    requires h.arcs == c.arcs && h.arcOrder == c.arcOrder && h.lastArcId == c.lastArcId
    requires h.lastNodeId == if ns[0].id > c.lastNodeId then ns[0].id else c.lastNodeId
    requires NodesLoaded(h, r, ns[1..])
    ensures NodesLoaded(c, r, ns)
  {
    var ids := NodeIds(ns);
    assert NodeIds(ns[1..]) == ids[1..];
    ElemsCons(ids);
    AppendCons(c.nodeOrder, ids);
    forall i | 0 <= i < |ns| ensures r.nodes[ns[i].id] == Node(ns[i].id, ns[i].params, ns[i].coords, [], []) {
      if i > 0 {
        assert ns[i] == ns[1..][i - 1];
      }
    }
  }

  lemma AppendCons(s: seq<Id>, ids: seq<Id>)
    requires ids != []
    ensures s + [ids[0]] + ids[1..] == s + ids
  {
    assert ids == [ids[0]] + ids[1..];
  }

  /** Arc records with distinct explicit ids, none of them live, joining live nodes. */
  ghost predicate FreshArcs(arcs: seq<Arc>, live: set<Id>, nodes: set<Id>) {
    && Distinct(ArcIds(arcs))
    && (forall i :: 0 <= i < |arcs| ==>
          arcs[i].id != 0 && arcs[i].id !in live && arcs[i].startNode in nodes && arcs[i].endNode in nodes)
  }

  /** r is c with one new arc per record, in record order, under the record's id; node
      records are kept and only their lists grow. */
  ghost predicate ArcsLoaded(c: Graph, r: Graph, arcs: seq<Arc>) {
    && r.arcs.Keys == c.arcs.Keys + Elems(ArcIds(arcs))
    && (forall x :: x in c.arcs ==> r.arcs[x] == c.arcs[x])
    && (forall i :: 0 <= i < |arcs| ==> r.arcs[arcs[i].id] == arcs[i])
    && r.arcOrder == c.arcOrder + ArcIds(arcs)
    && r.nodes.Keys == c.nodes.Keys && r.nodeOrder == c.nodeOrder
    && (forall k :: k in c.nodes ==> SameRecord(c.nodes[k], r.nodes[k]))
    && r.lastNodeId == c.lastNodeId && r.lastArcId == MaxOf(c.lastArcId, ArcIds(arcs))
  }

  /** Loading arc records with fresh ids between live nodes of a valid graph adds exactly those
      arcs and keeps the graph valid. */
  lemma {:induction false} LoadArcsSpec(c: Graph, arcs: seq<Arc>)
    requires Valid(c) && FreshArcs(arcs, c.arcs.Keys, c.nodes.Keys)
    ensures LoadArcs(c, arcs).Ok?
    ensures ArcsLoaded(c, LoadArcs(c, arcs).value, arcs)
    ensures Valid(LoadArcs(c, arcs).value)
    decreases |arcs|
  {
    if arcs == [] {
      assert ArcIds(arcs) == [] && c.arcOrder + [] == c.arcOrder;
    } else {
      var h := LoadArcStep(c, arcs);
      LoadArcsSpec(h, arcs[1..]);
      ArcsLoadedCons(c, h, LoadArcs(h, arcs[1..]).value, arcs);
    }
  }

  /** The first createArc of LoadArcs, and what it leaves for the rest. */
  lemma LoadArcStep(c: Graph, arcs: seq<Arc>) returns (h: Graph)
    requires Valid(c) && FreshArcs(arcs, c.arcs.Keys, c.nodes.Keys) && arcs != []
    ensures LoadArcs(c, arcs) == LoadArcs(h, arcs[1..])
    ensures Valid(h) && FreshArcs(arcs[1..], h.arcs.Keys, h.nodes.Keys)
    ensures h.arcs == c.arcs[arcs[0].id := arcs[0]] && h.arcOrder == c.arcOrder + [arcs[0].id]
    ensures h.nodes.Keys == c.nodes.Keys && h.nodeOrder == c.nodeOrder && h.lastNodeId == c.lastNodeId
    ensures h.lastArcId == if arcs[0].id > c.lastArcId then arcs[0].id else c.lastArcId
    ensures forall k :: k in c.nodes ==> SameRecord(c.nodes[k], h.nodes[k])
  {
    var a := arcs[0];
    assert a.id == ArcIds(arcs)[0];
    CreateArcKeepsKeys(c, a.startNode, a.endNode, a.params, IdArgOf(a.id));
    CreateArcKeepsAdjacency(c, {}, a.startNode, a.endNode, a.params, IdArgOf(a.id));
    h := CreateArc(c, a.startNode, a.endNode, a.params, IdArgOf(a.id)).value.0;
    assert ArcIds(arcs[1..]) == ArcIds(arcs)[1..];
    ElemsCons(ArcIds(arcs));
    forall i | 0 <= i < |arcs[1..]|
      ensures arcs[1..][i].id != 0 && arcs[1..][i].id !in h.arcs.Keys
      ensures arcs[1..][i].startNode in h.nodes.Keys && arcs[1..][i].endNode in h.nodes.Keys
    {
      assert arcs[1..][i] == arcs[i + 1] && arcs[i + 1].id == ArcIds(arcs)[i + 1];
    }
  }

  lemma ArcsLoadedCons(c: Graph, h: Graph, r: Graph, arcs: seq<Arc>)
    requires arcs != [] && Distinct(ArcIds(arcs)) && arcs[0].id !in c.arcs
    requires h.arcs == c.arcs[arcs[0].id := arcs[0]]
    requires h.arcOrder == c.arcOrder + [arcs[0].id]
    requires h.nodes.Keys == c.nodes.Keys && h.nodeOrder == c.nodeOrder && h.lastNodeId == c.lastNodeId
    requires h.lastArcId == if arcs[0].id > c.lastArcId then arcs[0].id else c.lastArcId
    requires forall k :: k in c.nodes ==> SameRecord(c.nodes[k], h.nodes[k])
    requires ArcsLoaded(h, r, arcs[1..])
    ensures ArcsLoaded(c, r, arcs)
  {
    var ids := ArcIds(arcs);
    assert ArcIds(arcs[1..]) == ids[1..];
    ElemsCons(ids);
    AppendCons(c.arcOrder, ids);
    forall i | 0 <= i < |arcs| ensures r.arcs[arcs[i].id] == arcs[i] {
      if i > 0 {
        assert arcs[i] == arcs[1..][i - 1];
      }
    }
  }

  /** Loaded arc records that are not self-loops add none. */
  lemma LoadedNoSelfLoops(c: Graph, r: Graph, arcs: seq<Arc>)
    requires ArcsLoaded(c, r, arcs) && NoSelfLoops(c)
    requires forall i :: 0 <= i < |arcs| ==> arcs[i].startNode != arcs[i].endNode
    ensures NoSelfLoops(r)
  {
    forall x | x in r.arcs ensures r.arcs[x].startNode != r.arcs[x].endNode {
      if x !in c.arcs {
        var i :| 0 <= i < |arcs| && ArcIds(arcs)[i] == x;
        assert r.arcs[x] == arcs[i];
      }
    }
  }

  // ---------------------------------------------------------------------------
  // Copying a valid graph through its records

  /** c holds g's nodes, records and order, with empty lists and no arcs. */
  ghost predicate NodesCopied(g: Graph, c: Graph) {
    && c.nodes.Keys == g.nodes.Keys
    && (forall k :: k in g.nodes ==> SameRecord(g.nodes[k], c.nodes[k]))
    && c.nodeOrder == g.nodeOrder && c.lastNodeId == MaxOf(0, g.nodeOrder)
    && c.arcs == map[] && c.arcOrder == [] && c.lastArcId == 0
  }

  /** r holds g's nodes and arcs; arcs were created in `order`. */
  ghost predicate ArcsCopied(g: Graph, r: Graph, order: seq<Id>) {
    && r.nodes.Keys == g.nodes.Keys
    && (forall k :: k in g.nodes ==> SameRecord(g.nodes[k], r.nodes[k]))
    && r.arcs == g.arcs
    && r.nodeOrder == g.nodeOrder && r.lastNodeId == MaxOf(0, g.nodeOrder)
    && r.arcOrder == order && r.lastArcId == MaxOf(0, order)
  }

  lemma EmptyValid()
    ensures Valid(EmptyGraph)
  {
  }

  /** Creating g's nodes, in g's node order, in a fresh graph. */
  lemma CopyNodes(g: Graph)
    requires Valid(g)
    ensures NodesCopied(g, LoadNodes(EmptyGraph, InOrder(g.nodes, g.nodeOrder)))
    ensures Valid(LoadNodes(EmptyGraph, InOrder(g.nodes, g.nodeOrder)))
  {
    var ns := InOrder(g.nodes, g.nodeOrder);
    KeysAt(g.nodeOrder, g.nodes);
    NodeIdsInOrder(g, g.nodeOrder);
    EmptyValid();
    LoadNodesSpec(EmptyGraph, ns);
    CopiedNodes(g, LoadNodes(EmptyGraph, ns));
  }

  /** The node half of a copy: what loading g's node records into the empty graph leaves. */
  lemma CopiedNodes(g: Graph, c: Graph)
    requires NodeOrderOk(g) && NodeIdsOk(g)
    requires NodeIds(InOrder(g.nodes, g.nodeOrder)) == g.nodeOrder
    requires NodesLoaded(EmptyGraph, c, InOrder(g.nodes, g.nodeOrder))
    ensures NodesCopied(g, c)
  {
    var ns := InOrder(g.nodes, g.nodeOrder);
    LoadedFromEmpty(c, ns);
    var ids := NodeIds(ns);
    assert ids == g.nodeOrder;
    assert c.nodes.Keys == Elems(g.nodeOrder);
    CopiedNodeKeys(g, c.nodes.Keys);
    assert c.nodeOrder == g.nodeOrder && c.lastNodeId == MaxOf(0, g.nodeOrder);
    CopiedRecords(g, c, ns);
  }

  /** What loading node records into the empty graph leaves. */
  lemma LoadedFromEmpty(c: Graph, ns: seq<Node>)
    requires NodesLoaded(EmptyGraph, c, ns)
    ensures c.nodes.Keys == Elems(NodeIds(ns)) && c.nodeOrder == NodeIds(ns)
    ensures c.arcs == map[] && c.arcOrder == [] && c.lastArcId == 0 && c.lastNodeId == MaxOf(0, NodeIds(ns))
    ensures forall i :: 0 <= i < |ns| ==> ns[i].id in c.nodes && c.nodes[ns[i].id] == Node(ns[i].id, ns[i].params, ns[i].coords, [], [])
  {
    assert [] + NodeIds(ns) == NodeIds(ns);
    assert EmptyGraph.nodes.Keys + Elems(NodeIds(ns)) == Elems(NodeIds(ns));
    forall i | 0 <= i < |ns| ensures ns[i].id in c.nodes {
      assert NodeIds(ns)[i] == ns[i].id;
    }
  }

  lemma CopiedNodeKeys(g: Graph, keys: set<Id>)
    requires NodeOrderOk(g)
    requires keys == Elems(g.nodeOrder)
    ensures keys == g.nodes.Keys
  {
    assert forall k :: k in g.nodeOrder <==> k in g.nodes.Keys;
    ElemsAre(g.nodeOrder, g.nodes.Keys);
  }

  lemma CopiedRecords(g: Graph, c: Graph, ns: seq<Node>)
    requires NodeOrderOk(g) && c.nodes.Keys == g.nodes.Keys
    requires ns == InOrder(g.nodes, g.nodeOrder)
    requires forall i :: 0 <= i < |ns| ==> ns[i].id in c.nodes && c.nodes[ns[i].id] == Node(ns[i].id, ns[i].params, ns[i].coords, [], [])
    requires forall k :: k in g.nodes ==> g.nodes[k].id == k
    ensures forall k :: k in g.nodes ==> SameRecord(g.nodes[k], c.nodes[k])
  {
    assert forall k :: k in g.nodeOrder ==> k in g.nodes;
    assert |ns| == |g.nodeOrder|;
    forall k | k in g.nodes ensures SameRecord(g.nodes[k], c.nodes[k]) {
      var i :| 0 <= i < |g.nodeOrder| && g.nodeOrder[i] == k;
      assert ns[i] == g.nodes[k];
    }
  }

  /** Creating g's arcs, in the given order of all its arc ids, over a copy of its nodes. */
  lemma CopyArcs(g: Graph, c: Graph, order: seq<Id>)
    requires Valid(g) && NodesCopied(g, c) && Valid(c)
    requires Distinct(order) && forall x :: x in order <==> x in g.arcs
    ensures LoadArcs(c, InOrder(g.arcs, order)).Ok?
    ensures ArcsCopied(g, LoadArcs(c, InOrder(g.arcs, order)).value, order)
    ensures Valid(LoadArcs(c, InOrder(g.arcs, order)).value)
    ensures NoSelfLoops(g) ==> NoSelfLoops(LoadArcs(c, InOrder(g.arcs, order)).value)
  {
    var arcs := InOrder(g.arcs, order);
    CopyArcsFresh(g, c, order);
    LoadArcsSpec(c, arcs);
    var r := LoadArcs(c, arcs).value;
    CopiedArcs(g, c, r, order);
  }

  lemma CopyArcsFresh(g: Graph, c: Graph, order: seq<Id>)
    requires Valid(g) && NodesCopied(g, c)
    requires Distinct(order) && forall x :: x in order <==> x in g.arcs
    ensures FreshArcs(InOrder(g.arcs, order), c.arcs.Keys, c.nodes.Keys)
  {
    var arcs := InOrder(g.arcs, order);
    ArcIdsInOrder(g, order);
    forall i | 0 <= i < |arcs|
      ensures arcs[i].id != 0 && arcs[i].startNode in c.nodes.Keys && arcs[i].endNode in c.nodes.Keys
    {
      assert arcs[i] == g.arcs[order[i]];
      assert Tail(g.arcs[order[i]], order[i] in {}) in g.nodes;
      assert Head(g.arcs[order[i]], order[i] in {}) in g.nodes;
    }
  }

  lemma CopiedArcs(g: Graph, c: Graph, r: Graph, order: seq<Id>)
    requires ArcIdsOk(g) && NodesCopied(g, c)
    requires forall x :: x in order <==> x in g.arcs
    requires ArcsLoaded(c, r, InOrder(g.arcs, order))
    ensures ArcsCopied(g, r, order)
    ensures NoSelfLoops(g) ==> NoSelfLoops(r)
  {
    var arcs := InOrder(g.arcs, order);
    KeysAt(order, g.arcs);
    ArcIdsInOrder(g, order);
    InOrderAll(g.arcs, order);
    assert r.arcs.Keys == Elems(ArcIds(arcs));
    CopiedArcMap(g, r, arcs, order);
    assert [] + order == order;
    forall k | k in g.nodes ensures SameRecord(g.nodes[k], r.nodes[k]) {
      assert SameRecord(c.nodes[k], r.nodes[k]);
    }
  }

  /** The arcs loaded from g's arc records, in an order of all of g's arc ids, are g's arcs. */
  lemma CopiedArcMap(g: Graph, r: Graph, arcs: seq<Arc>, order: seq<Id>)
    requires forall x :: x in order <==> x in g.arcs
    requires |arcs| == |order| && forall i :: 0 <= i < |order| ==> order[i] in g.arcs && arcs[i] == g.arcs[order[i]]
    requires ArcIds(arcs) == order
    requires r.arcs.Keys == Elems(ArcIds(arcs))
    requires forall i :: 0 <= i < |arcs| ==> r.arcs[arcs[i].id] == arcs[i]
    ensures r.arcs == g.arcs
  {
    forall x | x in g.arcs ensures x in r.arcs && r.arcs[x] == g.arcs[x] {
      var i :| 0 <= i < |order| && order[i] == x;
      assert arcs[i] == g.arcs[x];
      assert ArcIds(arcs)[i] == x;
    }
    forall x | x in r.arcs ensures x in g.arcs {
      assert x in order;
    }
  }

  /** Every entry of an order whose members are all keys of m is a key of m. */
  lemma KeysAt<V>(order: seq<Id>, m: map<Id, V>)
    requires forall k :: k in order ==> k in m
    ensures forall i :: 0 <= i < |order| ==> order[i] in m
  {
    forall i | 0 <= i < |order| ensures order[i] in m {
      var k := order[i];
      assert k in order;
      assert k in m;
    }
  }

  lemma {:induction false} ArcIdsInOrder(g: Graph, order: seq<Id>)
    requires ArcIdsOk(g) && forall i :: 0 <= i < |order| ==> order[i] in g.arcs
    ensures ArcIds(InOrder(g.arcs, order)) == order
  {
    var arcs := InOrder(g.arcs, order);
    InOrderAll(g.arcs, order);
    forall i | 0 <= i < |order| ensures ArcIds(arcs)[i] == order[i] {
      assert arcs[i] == g.arcs[order[i]];
    }
  }

  lemma {:induction false} NodeIdsInOrder(g: Graph, order: seq<Id>)
    requires NodeIdsOk(g) && forall i :: 0 <= i < |order| ==> order[i] in g.nodes
    ensures NodeIds(InOrder(g.nodes, order)) == order
  {
    var ns := InOrder(g.nodes, order);
    InOrderAll(g.nodes, order);
    forall i | 0 <= i < |order| ensures NodeIds(ns)[i] == order[i] {
      assert ns[i] == g.nodes[order[i]];
    }
  }
}
