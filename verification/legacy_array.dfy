/** The earliest graph, graph.js: node and arc objects without ids, a `nodes` array of node
    objects, and no arc store, so an arc exists only through the lists of its two endpoints.
    Objects are modelled by reference: every node and arc object ever created keeps its
    position in `nodeObjs` / `arcObjs`, whether or not the graph still reaches it, and an
    argument that is not such a position stands for `undefined`. */
module ArrayGraph {
  import opened Wrappers
  import opened Seqs
  import Graphs

  type Ref = nat
  type Params = Graphs.Params

  datatype NodeObj = NodeObj(inArcs: seq<Ref>, outArcs: seq<Ref>, params: Params)
  datatype ArcObj = ArcObj(nodeFrom: Ref, nodeTo: Ref, params: Params)

  /** The objects allocated so far and the graph's `nodes` array. */
  datatype Graph = Graph(nodeObjs: seq<NodeObj>, arcObjs: seq<ArcObj>, nodes: seq<Ref>)

  const EmptyGraph := Graph([], [], [])

  predicate IsNode(g: Graph, n: Ref) {
    n < |g.nodeObjs|
  }

  predicate IsArc(g: Graph, a: Ref) {
    a < |g.arcObjs|
  }

  // ---------------------------------------------------------------------------
  // Invariant

  /** The `nodes` array holds distinct node objects, and every arc joins two node objects. */
  ghost predicate RefsOk(g: Graph) {
    && Distinct(g.nodes)
    && (forall i :: 0 <= i < |g.nodes| ==> IsNode(g, g.nodes[i]))
    && (forall a :: 0 <= a < |g.arcObjs| ==> IsNode(g, g.arcObjs[a].nodeFrom) && IsNode(g, g.arcObjs[a].nodeTo))
  }

  /** Every inArcs entry is an arc ending at that node, every outArcs entry an arc starting
      there, and no list repeats an entry. */
  ghost predicate ListsSound(g: Graph) {
    && (forall n: Ref, a: Ref {:trigger a in g.nodeObjs[n].inArcs} ::
          n < |g.nodeObjs| && a in g.nodeObjs[n].inArcs ==> IsArc(g, a) && g.arcObjs[a].nodeTo == n)
    && (forall n: Ref, a: Ref {:trigger a in g.nodeObjs[n].outArcs} ::
          n < |g.nodeObjs| && a in g.nodeObjs[n].outArcs ==> IsArc(g, a) && g.arcObjs[a].nodeFrom == n)
    && (forall n: Ref :: n < |g.nodeObjs| ==>
          Distinct(g.nodeObjs[n].inArcs) && Distinct(g.nodeObjs[n].outArcs))
  }

  /** An arc is in its start node's outArcs exactly when it is in its end node's inArcs. */
  ghost predicate BothEnds(g: Graph) {
    forall a: Ref :: a < |g.arcObjs| && IsNode(g, g.arcObjs[a].nodeFrom) && IsNode(g, g.arcObjs[a].nodeTo) ==>
      (a in g.nodeObjs[g.arcObjs[a].nodeFrom].outArcs <==> a in g.nodeObjs[g.arcObjs[a].nodeTo].inArcs)
  }

  /** The graph invariant: each arc is listed by both of its endpoints or by neither. */
  ghost predicate Consistent(g: Graph) {
    RefsOk(g) && ListsSound(g) && BothEnds(g)
  }

  /** The arc is part of the graph: listed by its endpoints. */
  ghost predicate Linked(g: Graph, a: Ref) {
    && IsArc(g, a) && IsNode(g, g.arcObjs[a].nodeFrom) && IsNode(g, g.arcObjs[a].nodeTo)
    && a in g.nodeObjs[g.arcObjs[a].nodeFrom].outArcs && a in g.nodeObjs[g.arcObjs[a].nodeTo].inArcs
  }

  /** No arc in the node's lists is a self-loop. */
  ghost predicate NoLoopAt(g: Graph, n: Ref)
    requires IsNode(g, n)
  {
    forall a :: a in g.nodeObjs[n].inArcs ==> a !in g.nodeObjs[n].outArcs
  }

  // ---------------------------------------------------------------------------
  // Creation

  /** createNode(params): a new node object with empty lists, pushed onto `nodes`. */
  function CreateNode(g: Graph, params: Params): (r: (Graph, Ref))
    ensures r.1 == |g.nodeObjs| && |r.0.nodeObjs| == r.1 + 1
    ensures r.0.nodeObjs[r.1] == NodeObj([], [], params)
    ensures r.0.nodeObjs[..r.1] == g.nodeObjs && r.0.arcObjs == g.arcObjs
    ensures r.0.nodes == g.nodes + [r.1]
  {
    var n := |g.nodeObjs|;
    (Graph(g.nodeObjs + [NodeObj([], [], params)], g.arcObjs, g.nodes + [n]), n)
  }

  /** On a consistent graph the new node is an object the graph did not list before, and the
      graph stays consistent. */
  lemma CreateNodeKeepsConsistent(g: Graph, params: Params)
    requires Consistent(g)
    ensures CreateNode(g, params).1 !in g.nodes
    ensures Consistent(CreateNode(g, params).0)
  {
    var (h, n) := CreateNode(g, params);
    forall m: Ref | m < |h.nodeObjs|
      ensures h.nodeObjs[m] == if m < n then g.nodeObjs[m] else NodeObj([], [], params)
    {
      if m < n {
        assert h.nodeObjs[m] == h.nodeObjs[..n][m];
      }
    }
    forall m: Ref, b: Ref | m < |h.nodeObjs| && b in h.nodeObjs[m].inArcs
      ensures IsArc(h, b) && h.arcObjs[b].nodeTo == m
    {
      assert b in g.nodeObjs[m].inArcs;
    }
    forall m: Ref, b: Ref | m < |h.nodeObjs| && b in h.nodeObjs[m].outArcs
      ensures IsArc(h, b) && h.arcObjs[b].nodeFrom == m
    {
      assert b in g.nodeObjs[m].outArcs;
    }
    DistinctAppend(g.nodes, n);
  }

  /** createArc(nodeFrom, nodeTo, params): a new arc object pushed onto nodeFrom.outArcs and
      then nodeTo.inArcs. An endpoint that is not a node object is the undefined whose list
      push throws. */
  function CreateArc(g: Graph, s: Ref, e: Ref, params: Params): (r: Result<(Graph, Ref)>)
    ensures r.Ok? <==> IsNode(g, s) && IsNode(g, e)
    ensures r.Err? ==> r.error == Unresolved
    ensures r.Ok? ==> var (h, a) := r.value;
      && a == |g.arcObjs| && h.arcObjs == g.arcObjs + [ArcObj(s, e, params)]
      && h.nodes == g.nodes && |h.nodeObjs| == |g.nodeObjs|
      && h.nodeObjs[s].outArcs == g.nodeObjs[s].outArcs + [a]
      && h.nodeObjs[e].inArcs == g.nodeObjs[e].inArcs + [a]
      && (s != e ==> h.nodeObjs[s].inArcs == g.nodeObjs[s].inArcs && h.nodeObjs[e].outArcs == g.nodeObjs[e].outArcs)
      && (forall m :: 0 <= m < |g.nodeObjs| && m != s && m != e ==> h.nodeObjs[m] == g.nodeObjs[m])
      && (forall m :: 0 <= m < |g.nodeObjs| ==> h.nodeObjs[m].params == g.nodeObjs[m].params)
  {
    if !IsNode(g, s) || !IsNode(g, e) then Err(Unresolved)
    else
      var a := |g.arcObjs|;
      var objs1 := g.nodeObjs[s := g.nodeObjs[s].(outArcs := g.nodeObjs[s].outArcs + [a])];
      var objs2 := objs1[e := objs1[e].(inArcs := objs1[e].inArcs + [a])];
      Ok((Graph(objs2, g.arcObjs + [ArcObj(s, e, params)], g.nodes), a))
  }

  /** On a consistent graph a new arc between node objects is linked at both ends, and the
      graph stays consistent. */
  lemma CreateArcKeepsConsistent(g: Graph, s: Ref, e: Ref, params: Params)
    requires Consistent(g) && IsNode(g, s) && IsNode(g, e)
    ensures var (h, a) := CreateArc(g, s, e, params).value;
      Consistent(h) && Linked(h, a) && forall b :: Linked(g, b) ==> Linked(h, b)
  {
    var (h, a) := CreateArc(g, s, e, params).value;
    NewArcSound(g, h, s, e, params, a);
    NewArcBothEnds(g, h, s, e, params, a);
  }

  /** The lists after createArc: old entries keep their meaning, the new one is the new arc. */
  lemma NewArcSound(g: Graph, h: Graph, s: Ref, e: Ref, params: Params, a: Ref)
    requires Consistent(g) && IsNode(g, s) && IsNode(g, e) && CreateArc(g, s, e, params) == Ok((h, a))
    ensures RefsOk(h) && ListsSound(h)
  {
    forall m: Ref, b: Ref | m < |g.nodeObjs| && (b in g.nodeObjs[m].inArcs || b in g.nodeObjs[m].outArcs)
      ensures b < a
    {
      assert IsArc(g, b);
    }
    forall m: Ref | m < |h.nodeObjs|
      ensures Distinct(h.nodeObjs[m].inArcs) && Distinct(h.nodeObjs[m].outArcs)
    {
      if m == s {
        DistinctAppend(g.nodeObjs[s].outArcs, a);
      }
      if m == e {
        DistinctAppend(g.nodeObjs[e].inArcs, a);
      }
    }
    forall m: Ref, b: Ref | m < |h.nodeObjs| && b in h.nodeObjs[m].inArcs
      ensures IsArc(h, b) && h.arcObjs[b].nodeTo == m
    {
      if b != a {
        assert b in g.nodeObjs[m].inArcs;
        assert h.arcObjs[b] == g.arcObjs[b];
      }
    }
    forall m: Ref, b: Ref | m < |h.nodeObjs| && b in h.nodeObjs[m].outArcs
      ensures IsArc(h, b) && h.arcObjs[b].nodeFrom == m
    {
      if b != a {
        assert b in g.nodeObjs[m].outArcs;
        assert h.arcObjs[b] == g.arcObjs[b];
      }
    }
    forall b: Ref | b < |h.arcObjs| ensures IsNode(h, h.arcObjs[b].nodeFrom) && IsNode(h, h.arcObjs[b].nodeTo) {
      if b != a {
        assert h.arcObjs[b] == g.arcObjs[b];
      }
    }
  }

  lemma NewArcBothEnds(g: Graph, h: Graph, s: Ref, e: Ref, params: Params, a: Ref)
    requires Consistent(g) && IsNode(g, s) && IsNode(g, e) && CreateArc(g, s, e, params) == Ok((h, a))
    ensures BothEnds(h) && Linked(h, a) && forall b :: Linked(g, b) ==> Linked(h, b)
  {
    forall m: Ref, b: Ref | m < |g.nodeObjs|
      ensures b in h.nodeObjs[m].inArcs <==> b in g.nodeObjs[m].inArcs || (m == e && b == a)
      ensures b in h.nodeObjs[m].outArcs <==> b in g.nodeObjs[m].outArcs || (m == s && b == a)
    {
    }
    forall b: Ref | b < |h.arcObjs|
      ensures b in h.nodeObjs[h.arcObjs[b].nodeFrom].outArcs <==> b in h.nodeObjs[h.arcObjs[b].nodeTo].inArcs
    {
      if b != a {
        assert h.arcObjs[b] == g.arcObjs[b];
        var x, y := g.arcObjs[b].nodeFrom, g.arcObjs[b].nodeTo;
        assert b in g.nodeObjs[x].outArcs <==> b in g.nodeObjs[y].inArcs;
      }
    }
    forall b: Ref | Linked(g, b) ensures Linked(h, b) {
      assert h.arcObjs[b] == g.arcObjs[b];
    }
  }

  // ---------------------------------------------------------------------------
  // Lookup and deletion of arcs

  /** The arc object a exists and ends at e. */
  predicate PointsTo(g: Graph, a: Ref, e: Ref) {
    IsArc(g, a) && g.arcObjs[a].nodeTo == e
  }

  /** The scan of findArcBetweenNodes over a list: the first arc ending at e. */
  function FindOut(g: Graph, list: seq<Ref>, e: Ref): (r: Result<Ref>)
    ensures r.Ok? ==> r.value in list && PointsTo(g, r.value, e)
    ensures r.Ok? ==> exists i :: 0 <= i < |list| && list[i] == r.value
                        && forall j :: 0 <= j < i ==> !PointsTo(g, list[j], e)
    ensures r.Err? <==> forall j :: 0 <= j < |list| ==> !PointsTo(g, list[j], e)
    ensures r.Err? ==> r.error == NoSuchElement
  {
    if list == [] then Err(NoSuchElement)
    else if PointsTo(g, list[0], e) then Ok(list[0])
    else
      var r := FindOut(g, list[1..], e);
      if r.Ok? then
        ghost var i :| 0 <= i < |list| - 1 && list[1..][i] == r.value
                      && forall j :: 0 <= j < i ==> !PointsTo(g, list[1..][j], e);
        assert list[i + 1] == r.value;
        r
      else r
  }

  /** findArcBetweenNodes(nodeFrom, nodeTo): the first arc of nodeFrom.outArcs whose nodeTo
      is nodeTo; "no such element" when there is none. */
  function FindArcBetweenNodes(g: Graph, s: Ref, e: Ref): (r: Result<Ref>)
    ensures !IsNode(g, s) ==> r == Err(Unresolved)
    ensures r.Ok? ==> IsNode(g, s) && r.value in g.nodeObjs[s].outArcs && PointsTo(g, r.value, e)
    ensures IsNode(g, s) ==>
      (r.Err? <==> forall a :: a in g.nodeObjs[s].outArcs ==> !PointsTo(g, a, e))
    ensures IsNode(g, s) && r.Err? ==> r.error == NoSuchElement
  {
    if !IsNode(g, s) then Err(Unresolved)
    else FindOut(g, g.nodeObjs[s].outArcs, e)
  }

  /** deleteArcFromNode(arc, node): drops the arc's first occurrence from the node's inArcs
      if it is there, otherwise from its outArcs, otherwise throws "no such element". */
  function DeleteArcFromNode(g: Graph, a: Ref, n: Ref): (r: Result<Graph>)
    ensures r.Ok? <==> IsNode(g, n) && (a in g.nodeObjs[n].inArcs || a in g.nodeObjs[n].outArcs)
    ensures r.Err? ==> r.error == if IsNode(g, n) then NoSuchElement else Unresolved
    ensures r.Ok? ==> var h := r.value;
      && h.arcObjs == g.arcObjs && h.nodes == g.nodes && |h.nodeObjs| == |g.nodeObjs|
      && (forall m :: 0 <= m < |g.nodeObjs| && m != n ==> h.nodeObjs[m] == g.nodeObjs[m])
      && h.nodeObjs[n].params == g.nodeObjs[n].params
      && (a in g.nodeObjs[n].inArcs ==>
            h.nodeObjs[n].inArcs == RemoveFirst(g.nodeObjs[n].inArcs, a)
            && h.nodeObjs[n].outArcs == g.nodeObjs[n].outArcs)
      && (a !in g.nodeObjs[n].inArcs ==>
            h.nodeObjs[n].outArcs == RemoveFirst(g.nodeObjs[n].outArcs, a)
            && h.nodeObjs[n].inArcs == g.nodeObjs[n].inArcs)
  {
    if !IsNode(g, n) then Err(Unresolved)
    else
      var node := g.nodeObjs[n];
      if a in node.inArcs then
        Ok(g.(nodeObjs := g.nodeObjs[n := node.(inArcs := RemoveFirst(node.inArcs, a))]))
      else if a in node.outArcs then
        Ok(g.(nodeObjs := g.nodeObjs[n := node.(outArcs := RemoveFirst(node.outArcs, a))]))
      else Err(NoSuchElement)
  }

  /** deleteArc(nodeFrom, nodeTo) as written: the found arc is taken off both endpoints, and
      then the method throws "no such element" anyway. It never returns normally. */
  function DeleteArcAsWritten(g: Graph, s: Ref, e: Ref): (r: Result<Graph>)
    ensures r.Err?
    ensures IsNode(g, s) && IsNode(g, e) ==> r == Err(NoSuchElement)
  {
    var a :- FindArcBetweenNodes(g, s, e);
    var g1 := DeleteArcFromNode(g, a, s).value;
    var g2 :- DeleteArcFromNode(g1, a, e);
    Err(NoSuchElement)
  }

  /** deleteArc(nodeFrom, nodeTo) without the trailing throw. */
  function DeleteArc(g: Graph, s: Ref, e: Ref): (r: Result<Graph>)
    ensures FindArcBetweenNodes(g, s, e).Err? ==> r == Err(FindArcBetweenNodes(g, s, e).error)
    ensures r.Ok? ==> r.value.arcObjs == g.arcObjs && r.value.nodes == g.nodes
  {
    var a :- FindArcBetweenNodes(g, s, e);
    var g1 := DeleteArcFromNode(g, a, s).value;
    DeleteArcFromNode(g1, a, e)
  }

  /** On a consistent graph, deleting the arc from s to e succeeds exactly when s lists an arc
      ending at e; the first such arc then leaves s's outArcs and e's inArcs, no other list
      changes, and the graph stays consistent with that arc no longer linked. */
  lemma DeleteArcSpec(g: Graph, s: Ref, e: Ref)
    requires Consistent(g) && IsNode(g, s)
    ensures DeleteArc(g, s, e).Ok? <==> exists a :: a in g.nodeObjs[s].outArcs && PointsTo(g, a, e)
    ensures DeleteArc(g, s, e).Ok? ==>
      var a := FindArcBetweenNodes(g, s, e).value;
      var h := DeleteArc(g, s, e).value;
      && Consistent(h) && !Linked(h, a) && |h.nodeObjs| == |g.nodeObjs|
      && (forall b :: b != a ==> (Linked(h, b) <==> Linked(g, b)))
      && (forall m :: 0 <= m < |g.nodeObjs| ==>
            && h.nodeObjs[m].params == g.nodeObjs[m].params
            && h.nodeObjs[m].outArcs == (if m == s then RemoveFirst(g.nodeObjs[m].outArcs, a) else g.nodeObjs[m].outArcs)
            && h.nodeObjs[m].inArcs == (if m == e then RemoveFirst(g.nodeObjs[m].inArcs, a) else g.nodeObjs[m].inArcs))
  {
    var f := FindArcBetweenNodes(g, s, e);
    if f.Ok? {
      var a := f.value;
      var h := DeleteArcLists(g, s, e, a);
      UnlinkedKeepsConsistent(g, h, a);
    }
  }

  /** The two deleteArcFromNode calls of deleteArc on the arc found from s to e. */
  lemma DeleteArcLists(g: Graph, s: Ref, e: Ref, a: Ref) returns (h: Graph)
    requires Consistent(g) && IsNode(g, s) && FindArcBetweenNodes(g, s, e) == Ok(a)
    ensures DeleteArc(g, s, e) == Ok(h)
    ensures h.arcObjs == g.arcObjs && h.nodes == g.nodes && |h.nodeObjs| == |g.nodeObjs|
    ensures forall m :: 0 <= m < |g.nodeObjs| ==>
      && h.nodeObjs[m].params == g.nodeObjs[m].params
      && h.nodeObjs[m].outArcs == (if m == s then RemoveFirst(g.nodeObjs[m].outArcs, a) else g.nodeObjs[m].outArcs)
      && h.nodeObjs[m].inArcs == (if m == e then RemoveFirst(g.nodeObjs[m].inArcs, a) else g.nodeObjs[m].inArcs)
  {
    assert g.arcObjs[a].nodeFrom == s && g.arcObjs[a].nodeTo == e;
    assert a in g.nodeObjs[e].inArcs;
    if s == e {
      var g1 := DeleteArcFromNode(g, a, s).value;
      assert a !in g1.nodeObjs[s].inArcs;
      h := DeleteArcFromNode(g1, a, e).value;
    } else {
      assert a !in g.nodeObjs[s].inArcs;
      var g1 := DeleteArcFromNode(g, a, s).value;
      h := DeleteArcFromNode(g1, a, e).value;
    }
  }

  /** h is g with the arcs in R taken off every list: the objects, the `nodes` array and the
      params are kept, and the lists stay free of repeats. */
  ghost predicate Dropped(g: Graph, h: Graph, R: set<Ref>) {
    && h.arcObjs == g.arcObjs && h.nodes == g.nodes && |h.nodeObjs| == |g.nodeObjs|
    && (forall m: Ref :: m < |g.nodeObjs| ==>
          && h.nodeObjs[m].params == g.nodeObjs[m].params
          && Distinct(h.nodeObjs[m].inArcs) && Distinct(h.nodeObjs[m].outArcs))
    && (forall m: Ref, b: Ref {:trigger b in h.nodeObjs[m].inArcs} {:trigger b in g.nodeObjs[m].inArcs} ::
          m < |g.nodeObjs| ==> (b in h.nodeObjs[m].inArcs <==> b in g.nodeObjs[m].inArcs && b !in R))
    && (forall m: Ref, b: Ref {:trigger b in h.nodeObjs[m].outArcs} {:trigger b in g.nodeObjs[m].outArcs} ::
          m < |g.nodeObjs| ==> (b in h.nodeObjs[m].outArcs <==> b in g.nodeObjs[m].outArcs && b !in R))
  }

  /** Dropping arcs from every list keeps the graph consistent and unlinks exactly those arcs. */
  lemma DroppedConsistent(g: Graph, h: Graph, R: set<Ref>)
    requires Consistent(g) && Dropped(g, h, R)
    ensures Consistent(h)
    ensures forall b :: Linked(h, b) <==> Linked(g, b) && b !in R
  {
    forall m: Ref, b: Ref | m < |h.nodeObjs| && b in h.nodeObjs[m].inArcs
      ensures IsArc(h, b) && h.arcObjs[b].nodeTo == m
    {
      assert b in g.nodeObjs[m].inArcs;
    }
    forall m: Ref, b: Ref | m < |h.nodeObjs| && b in h.nodeObjs[m].outArcs
      ensures IsArc(h, b) && h.arcObjs[b].nodeFrom == m
    {
      assert b in g.nodeObjs[m].outArcs;
    }
    forall b: Ref | b < |h.arcObjs|
      ensures b in h.nodeObjs[h.arcObjs[b].nodeFrom].outArcs <==> b in h.nodeObjs[h.arcObjs[b].nodeTo].inArcs
    {
      var x, y := g.arcObjs[b].nodeFrom, g.arcObjs[b].nodeTo;
      assert b in g.nodeObjs[x].outArcs <==> b in g.nodeObjs[y].inArcs;
    }
  }

  /** Taking a linked arc off its start node's outArcs and its end node's inArcs drops it. */
  lemma UnlinkedKeepsConsistent(g: Graph, h: Graph, a: Ref)
    requires Consistent(g) && Linked(g, a)
    requires h.arcObjs == g.arcObjs && h.nodes == g.nodes && |h.nodeObjs| == |g.nodeObjs|
    requires forall m :: 0 <= m < |g.nodeObjs| ==>
      && h.nodeObjs[m].params == g.nodeObjs[m].params
      && h.nodeObjs[m].outArcs == (if m == g.arcObjs[a].nodeFrom then RemoveFirst(g.nodeObjs[m].outArcs, a) else g.nodeObjs[m].outArcs)
      && h.nodeObjs[m].inArcs == (if m == g.arcObjs[a].nodeTo then RemoveFirst(g.nodeObjs[m].inArcs, a) else g.nodeObjs[m].inArcs)
    ensures Consistent(h) && !Linked(h, a)
    ensures forall b :: b != a ==> (Linked(h, b) <==> Linked(g, b))
  {
    forall m: Ref | m < |g.nodeObjs|
      ensures Distinct(h.nodeObjs[m].inArcs) && Distinct(h.nodeObjs[m].outArcs)
      ensures forall b :: b in h.nodeObjs[m].inArcs <==> b in g.nodeObjs[m].inArcs && b != a
      ensures forall b :: b in h.nodeObjs[m].outArcs <==> b in g.nodeObjs[m].outArcs && b != a
    {
      assert Distinct(g.nodeObjs[m].inArcs) && Distinct(g.nodeObjs[m].outArcs);
    }
    assert Dropped(g, h, {a});
    DroppedConsistent(g, h, {a});
  }

  /** Every arc found between two nodes of a consistent graph is linked. */
  lemma FoundIsLinked(g: Graph, s: Ref, e: Ref)
    requires Consistent(g) && FindArcBetweenNodes(g, s, e).Ok?
    ensures Linked(g, FindArcBetweenNodes(g, s, e).value)
  {
  }

  // ---------------------------------------------------------------------------
  // Isolation and deletion of nodes

  /** The first loop of isolateNode, over node.inArcs: each arc is taken off the lists of its
      nodeFrom. An entry that is no arc object, which a consistent graph never holds, is the
      undefined whose nodeFrom read throws. */
  function UnlinkStarts(g: Graph, list: seq<Ref>): (r: Result<Graph>)
    ensures r.Ok? ==> r.value.arcObjs == g.arcObjs && r.value.nodes == g.nodes
    ensures r.Ok? ==> |r.value.nodeObjs| == |g.nodeObjs|
    decreases |list|
  {
    if list == [] then Ok(g)
    else if !IsArc(g, list[0]) then Err(Unresolved)
    else
      var g1 :- DeleteArcFromNode(g, list[0], g.arcObjs[list[0]].nodeFrom);
      UnlinkStarts(g1, list[1..])
  }

  /** The second loop of isolateNode, over node.outArcs: each arc is taken off the lists of its
      nodeTo. */
  function UnlinkEnds(g: Graph, list: seq<Ref>): (r: Result<Graph>)
    ensures r.Ok? ==> r.value.arcObjs == g.arcObjs && r.value.nodes == g.nodes
    ensures r.Ok? ==> |r.value.nodeObjs| == |g.nodeObjs|
    decreases |list|
  {
    if list == [] then Ok(g)
    else if !IsArc(g, list[0]) then Err(Unresolved)
    else
      var g1 :- DeleteArcFromNode(g, list[0], g.arcObjs[list[0]].nodeTo);
      UnlinkEnds(g1, list[1..])
  }

  /** isolateNode(node): every arc of node.inArcs is taken off its nodeFrom's lists, every arc
      of node.outArcs off its nodeTo's, and then the node's own lists are emptied. Each loop
      walks the list as it was when the loop began. */
  function IsolateNode(g: Graph, n: Ref): (r: Result<Graph>)
    ensures !IsNode(g, n) ==> r == Err(Unresolved)
    ensures r.Ok? ==> var h := r.value;
      && h.arcObjs == g.arcObjs && h.nodes == g.nodes && |h.nodeObjs| == |g.nodeObjs|
      && IsNode(g, n) && h.nodeObjs[n].inArcs == [] && h.nodeObjs[n].outArcs == []
  {
    if !IsNode(g, n) then Err(Unresolved)
    else
      var g1 :- UnlinkStarts(g, g.nodeObjs[n].inArcs);
      var g2 :- UnlinkEnds(g1, g1.nodeObjs[n].outArcs);
      Ok(Cleared(g2, n))
  }

  /** The graph with node n's lists emptied. */
  function Cleared(g: Graph, n: Ref): (r: Graph)
    requires IsNode(g, n)
    ensures |r.nodeObjs| == |g.nodeObjs| && r.nodeObjs[n].inArcs == [] && r.nodeObjs[n].outArcs == []
  {
    g.(nodeObjs := g.nodeObjs[n := g.nodeObjs[n].(inArcs := [], outArcs := [])])
  }

  /** Arc b is linked in g and touches neither end at node n. */
  ghost predicate LinkedAway(g: Graph, b: Ref, n: Ref) {
    Linked(g, b) && g.arcObjs[b].nodeFrom != n && g.arcObjs[b].nodeTo != n
  }

  /** h is g part way through isolating n: the arcs in D are off every other node's lists,
      and n's own lists are untouched. */
  ghost predicate Unlinked(g: Graph, h: Graph, n: Ref, D: set<Ref>)
    requires IsNode(g, n)
  {
    && h.arcObjs == g.arcObjs && h.nodes == g.nodes && |h.nodeObjs| == |g.nodeObjs|
    && h.nodeObjs[n] == g.nodeObjs[n]
    && forall m: Ref :: m < |g.nodeObjs| && m != n ==>
         h.nodeObjs[m] == g.nodeObjs[m].(inArcs := Without(g.nodeObjs[m].inArcs, D),
                                          outArcs := Without(g.nodeObjs[m].outArcs, D))
  }

  /** The arcs listed by node n. */
  ghost function Touching(g: Graph, n: Ref): set<Ref>
    requires IsNode(g, n)
  {
    Elems(g.nodeObjs[n].inArcs) + Elems(g.nodeObjs[n].outArcs)
  }

  /** On a consistent graph where node n has no self-loop, isolateNode succeeds and keeps the
      graph consistent: n's lists are empty, every other node's lists have lost exactly the
      arcs n listed, the objects, params and `nodes` array are kept, and the linked arcs are
      the old ones except those touching n. */
  lemma IsolateSpec(g: Graph, n: Ref)
    requires Consistent(g) && IsNode(g, n) && NoLoopAt(g, n)
    ensures IsolateNode(g, n).Ok?
    ensures var h := IsolateNode(g, n).value; var T := Touching(g, n);
      && Consistent(h)
      && h.nodeObjs[n] == g.nodeObjs[n].(inArcs := [], outArcs := [])
      && (forall m: Ref :: m < |g.nodeObjs| && m != n ==>
            h.nodeObjs[m] == g.nodeObjs[m].(inArcs := Without(g.nodeObjs[m].inArcs, T),
                                             outArcs := Without(g.nodeObjs[m].outArcs, T)))
      && (forall b: Ref :: Linked(h, b) <==> LinkedAway(g, b, n))
  {
    var h2 := IsolateLoops(g, n);
    IsolatedDropped(g, h2, n);
  }

  /** Both loops of isolateNode run to the end and unlink every arc n listed. */
  lemma IsolateLoops(g: Graph, n: Ref) returns (h2: Graph)
    requires Consistent(g) && IsNode(g, n) && NoLoopAt(g, n)
    ensures Unlinked(g, h2, n, Touching(g, n)) && IsolateNode(g, n) == Ok(Cleared(h2, n))
  {
    var ins, outs := g.nodeObjs[n].inArcs, g.nodeObjs[n].outArcs;
    forall m: Ref | m < |g.nodeObjs| && m != n
      ensures g.nodeObjs[m] == g.nodeObjs[m].(inArcs := Without(g.nodeObjs[m].inArcs, {}),
                                              outArcs := Without(g.nodeObjs[m].outArcs, {}))
    {
      WithoutNothing(g.nodeObjs[m].inArcs);
      WithoutNothing(g.nodeObjs[m].outArcs);
    }
    StartsLoop(g, g, n, {}, ins);
    var h1 := UnlinkStarts(g, ins).value;
    assert {} + Elems(ins) == Elems(ins);
    EndsLoop(g, h1, n, Elems(ins), outs);
    h2 := UnlinkEnds(h1, outs).value;
  }

  /** Emptying n's lists at the end of the isolation drops exactly the arcs n listed. */
  lemma IsolatedDropped(g: Graph, h2: Graph, n: Ref)
    requires Consistent(g) && IsNode(g, n) && Unlinked(g, h2, n, Touching(g, n))
    ensures var h := Cleared(h2, n);
      && Consistent(h)
      && forall b: Ref :: Linked(h, b) <==> LinkedAway(g, b, n)
  {
    var T := Touching(g, n);
    var h := Cleared(h2, n);
    forall m: Ref, b: Ref | m < |g.nodeObjs|
      ensures b in h.nodeObjs[m].inArcs <==> b in g.nodeObjs[m].inArcs && b !in T
      ensures b in h.nodeObjs[m].outArcs <==> b in g.nodeObjs[m].outArcs && b !in T
    {
      if m == n {
        assert b in g.nodeObjs[n].inArcs ==> b in T;
        assert b in g.nodeObjs[n].outArcs ==> b in T;
      } else {
        assert h.nodeObjs[m] == h2.nodeObjs[m];
        assert b in T || b !in T;
      }
    }
    assert Dropped(g, h, T);
    DroppedConsistent(g, h, T);
    forall b: Ref | Linked(g, b)
      ensures b in T <==> g.arcObjs[b].nodeFrom == n || g.arcObjs[b].nodeTo == n
    {
      if b in g.nodeObjs[n].inArcs {
        assert g.arcObjs[b].nodeTo == n;
      }
      if b in g.nodeObjs[n].outArcs {
        assert g.arcObjs[b].nodeFrom == n;
      }
    }
  }

  /** One step of the first loop: an arc ending at n, whose nodeFrom is another node, leaves
      that node's outArcs. */
  lemma StartStep(g: Graph, h: Graph, n: Ref, D: set<Ref>, a: Ref) returns (h1: Graph)
    requires Consistent(g) && IsNode(g, n) && NoLoopAt(g, n) && Unlinked(g, h, n, D)
    requires a in g.nodeObjs[n].inArcs && a !in D
    ensures IsArc(h, a) && DeleteArcFromNode(h, a, h.arcObjs[a].nodeFrom) == Ok(h1)
    ensures Unlinked(g, h1, n, D + {a})
  {
    var s := g.arcObjs[a].nodeFrom;
    assert g.arcObjs[a].nodeTo == n;
    assert a in g.nodeObjs[s].outArcs;
    assert s != n;
    assert a !in g.nodeObjs[s].inArcs;
    assert a in h.nodeObjs[s].outArcs;
    h1 := DeleteArcFromNode(h, a, s).value;
    WithoutRemove(g.nodeObjs[s].outArcs, D, a);
    WithoutAbsent(g.nodeObjs[s].inArcs, D, a);
    forall m: Ref | m < |g.nodeObjs| && m != n && m != s
      ensures Without(g.nodeObjs[m].inArcs, D + {a}) == Without(g.nodeObjs[m].inArcs, D)
      ensures Without(g.nodeObjs[m].outArcs, D + {a}) == Without(g.nodeObjs[m].outArcs, D)
    {
      assert a !in g.nodeObjs[m].inArcs && a !in g.nodeObjs[m].outArcs;
      WithoutAbsent(g.nodeObjs[m].inArcs, D, a);
      WithoutAbsent(g.nodeObjs[m].outArcs, D, a);
    }
  }

  /** One step of the second loop: an arc starting at n, whose nodeTo is another node, leaves
      that node's inArcs. */
  lemma EndStep(g: Graph, h: Graph, n: Ref, D: set<Ref>, a: Ref) returns (h1: Graph)
    requires Consistent(g) && IsNode(g, n) && NoLoopAt(g, n) && Unlinked(g, h, n, D)
    requires a in g.nodeObjs[n].outArcs && a !in D
    ensures IsArc(h, a) && DeleteArcFromNode(h, a, h.arcObjs[a].nodeTo) == Ok(h1)
    ensures Unlinked(g, h1, n, D + {a})
  {
    var e := g.arcObjs[a].nodeTo;
    assert g.arcObjs[a].nodeFrom == n;
    assert a in g.nodeObjs[e].inArcs;
    assert e != n;
    assert a !in g.nodeObjs[e].outArcs;
    assert a in h.nodeObjs[e].inArcs;
    h1 := DeleteArcFromNode(h, a, e).value;
    WithoutRemove(g.nodeObjs[e].inArcs, D, a);
    WithoutAbsent(g.nodeObjs[e].outArcs, D, a);
    forall m: Ref | m < |g.nodeObjs| && m != n && m != e
      ensures Without(g.nodeObjs[m].inArcs, D + {a}) == Without(g.nodeObjs[m].inArcs, D)
      ensures Without(g.nodeObjs[m].outArcs, D + {a}) == Without(g.nodeObjs[m].outArcs, D)
    {
      assert a !in g.nodeObjs[m].inArcs && a !in g.nodeObjs[m].outArcs;
      WithoutAbsent(g.nodeObjs[m].inArcs, D, a);
      WithoutAbsent(g.nodeObjs[m].outArcs, D, a);
    }
  }

  lemma {:induction false} StartsLoop(g: Graph, h: Graph, n: Ref, D: set<Ref>, list: seq<Ref>)
    requires Consistent(g) && IsNode(g, n) && NoLoopAt(g, n) && Unlinked(g, h, n, D)
    requires Distinct(list) && forall a :: a in list ==> a in g.nodeObjs[n].inArcs && a !in D
    ensures UnlinkStarts(h, list).Ok? && Unlinked(g, UnlinkStarts(h, list).value, n, D + Elems(list))
    decreases |list|
  {
    if list == [] {
      assert D + Elems(list) == D;
    } else {
      var h1 := StartStep(g, h, n, D, list[0]);
      ElemsCons(list);
      StartsLoop(g, h1, n, D + {list[0]}, list[1..]);
      assert D + {list[0]} + Elems(list[1..]) == D + Elems(list);
    }
  }

  lemma {:induction false} EndsLoop(g: Graph, h: Graph, n: Ref, D: set<Ref>, list: seq<Ref>)
    requires Consistent(g) && IsNode(g, n) && NoLoopAt(g, n) && Unlinked(g, h, n, D)
    requires Distinct(list) && forall a :: a in list ==> a in g.nodeObjs[n].outArcs && a !in D
    ensures UnlinkEnds(h, list).Ok? && Unlinked(g, UnlinkEnds(h, list).value, n, D + Elems(list))
    decreases |list|
  {
    if list == [] {
      assert D + Elems(list) == D;
    } else {
      var h1 := EndStep(g, h, n, D, list[0]);
      ElemsCons(list);
      EndsLoop(g, h1, n, D + {list[0]}, list[1..]);
      assert D + {list[0]} + Elems(list[1..]) == D + Elems(list);
    }
  }

  /** deleteNode(node): isolates the node, then splices it out of `nodes`; a node object the
      array does not hold throws "no such element", after the isolation has been done. */
  function DeleteNode(g: Graph, n: Ref): (r: Result<Graph>)
    ensures !IsNode(g, n) ==> r == Err(Unresolved)
    ensures IsolateNode(g, n).Ok? && n !in g.nodes ==> r == Err(NoSuchElement)
    ensures r.Ok? ==> n in g.nodes && r.value.nodes == RemoveFirst(g.nodes, n)
  {
    var h :- IsolateNode(g, n);
    if n in h.nodes then Ok(h.(nodes := RemoveFirst(h.nodes, n))) else Err(NoSuchElement)
  }

  /** On a consistent graph, deleting a listed node without self-loops succeeds: the node
      leaves `nodes`, the graph stays consistent, and the linked arcs are the old ones except
      those touching the node. */
  lemma DeleteNodeSpec(g: Graph, n: Ref)
    requires Consistent(g) && IsNode(g, n) && NoLoopAt(g, n) && n in g.nodes
    ensures DeleteNode(g, n).Ok?
    ensures var h := DeleteNode(g, n).value;
      && Consistent(h) && n !in h.nodes
      && (forall m :: m in h.nodes <==> m in g.nodes && m != n)
      && (forall b: Ref :: Linked(h, b) <==> LinkedAway(g, b, n))
  {
    IsolateSpec(g, n);
    var i := IsolateNode(g, n).value;
    var h := DeleteNode(g, n).value;
    assert h == i.(nodes := RemoveFirst(g.nodes, n));
    UnlistKeepsConsistent(i, n);
  }

  /** Splicing an entry out of `nodes` touches no list and no object. */
  lemma UnlistKeepsConsistent(g: Graph, n: Ref)
    requires Consistent(g)
    ensures var h := g.(nodes := RemoveFirst(g.nodes, n));
      && Consistent(h) && forall b: Ref :: Linked(h, b) <==> Linked(g, b)
  {
    var h := g.(nodes := RemoveFirst(g.nodes, n));
    forall i | 0 <= i < |h.nodes|
      ensures IsNode(h, h.nodes[i])
    {
      assert h.nodes[i] in g.nodes;
    }
  }

  /** A node object the graph no longer lists is isolated before deleteNode throws. */
  lemma DetachedNodeThrows(g: Graph, n: Ref)
    requires Consistent(g) && IsNode(g, n) && NoLoopAt(g, n) && n !in g.nodes
    ensures IsolateNode(g, n).Ok? && DeleteNode(g, n) == Err(NoSuchElement)
  {
    IsolateSpec(g, n);
  }

  // ---------------------------------------------------------------------------
  // fillWithTwoArraysGraph

  /** The value a params object holds under key k: its first pair with that key. */
  function Lookup(p: Params, k: string): Option<Graphs.Json> {
    if p == [] then None else if p[0].0 == k then Some(p[0].1) else Lookup(p[1..], k)
  }

  /** `params[k] = v`: a key already present keeps its place and takes the new value, a new
      key goes last. */
  function PutParam(p: Params, k: string, v: Graphs.Json): Params {
    if p == [] then [(k, v)]
    else if p[0].0 == k then [(k, v)] + p[1..]
    else [p[0]] + PutParam(p[1..], k, v)
  }

  /** After `params[k] = v`, k reads v, every other key reads as before, and the object grows
      by one entry exactly when k was new. */
  lemma {:induction false} PutParamSpec(p: Params, k: string, v: Graphs.Json)
    ensures Lookup(PutParam(p, k, v), k) == Some(v)
    ensures forall k' :: k' != k ==> Lookup(PutParam(p, k, v), k') == Lookup(p, k')
    ensures |PutParam(p, k, v)| == if Lookup(p, k).Some? then |p| else |p| + 1
  {
    if p != [] && p[0].0 != k {
      PutParamSpec(p[1..], k, v);
      assert ([p[0]] + PutParam(p[1..], k, v))[1..] == PutParam(p[1..], k, v);
    }
  }

  /** The literal fillWithTwoArraysGraph reads: the keys of its `nodes` object in iteration
      order, each with its params object, and its `arcs` array of [from, to] key pairs. Keys
      are property names, hence strings. */
  datatype TwoArrays = TwoArrays(nodes: seq<(string, Params)>, arcs: seq<(string, string)>)

  function KeysOf(ns: seq<(string, Params)>): (r: seq<string>)
    ensures |r| == |ns| && forall i :: 0 <= i < |ns| ==> r[i] == ns[i].0
  {
    seq(|ns|, i requires 0 <= i < |ns| => ns[i].0)
  }

  /** The params a node of the literal is created with: its own, with `id` set to its key. */
  function WithId(entry: (string, Params)): Params {
    PutParam(entry.1, "id", Graphs.JStr(entry.0))
  }

  /** The position of the first occurrence of k. */
  function IndexOf(keys: seq<string>, k: string): (i: nat)
    requires k in keys
    ensures i < |keys| && keys[i] == k && k !in keys[..i]
  {
    if keys[0] == k then 0
    else
      var j := IndexOf(keys[1..], k);
      assert keys[..j + 1] == [keys[0]] + keys[1..][..j];
      j + 1
  }

  /** The run of references lo, lo + 1, ..., lo + k - 1. */
  function Span(lo: nat, k: nat): (r: seq<Ref>)
    ensures |r| == k && forall i :: 0 <= i < k ==> r[i] == lo + i
  {
    seq(k, i requires 0 <= i < k => lo + i)
  }

  /** The first loop of fillWithTwoArraysGraph: a node per key, created with the key as its
      `id` param and recorded in nodesById under that key. */
  function FillNodes(g: Graph, ns: seq<(string, Params)>, byId: map<string, Ref>): (r: (Graph, map<string, Ref>))
    ensures r.0.arcObjs == g.arcObjs
    decreases |ns|
  {
    if ns == [] then (g, byId)
    else
      var c := CreateNode(g, WithId(ns[0]));
      FillNodes(c.0, ns[1..], byId[ns[0].0 := c.1])
  }

  /** The second loop: an arc with empty params per pair, between the recorded nodes. A key
      nodesById lacks reads as undefined, and createArc then throws. */
  function FillArcs(g: Graph, byId: map<string, Ref>, pairs: seq<(string, string)>): (r: Result<Graph>)
    ensures r.Err? ==> r.error == Unresolved
    decreases |pairs|
  {
    if pairs == [] then Ok(g)
    else if pairs[0].0 !in byId || pairs[0].1 !in byId then Err(Unresolved)
    else
      var p :- CreateArc(g, byId[pairs[0].0], byId[pairs[0].1], []);
      FillArcs(p.0, byId, pairs[1..])
  }

  /** fillWithTwoArraysGraph(twoArraysGraph): every node first, then every arc. The only
      error is a pair naming a key nodesById lacks. */
  function FillWithTwoArraysGraph(g: Graph, t: TwoArrays): (r: Result<Graph>)
    ensures r.Err? ==> r.error == Unresolved
  {
    var (h, byId) := FillNodes(g, t.nodes, map[]);
    FillArcs(h, byId, t.arcs)
  }

  /** fillWithTwoArraysGraph throws exactly when a pair names a key the literal does not have. */
  lemma FillThrowsIff(g: Graph, t: TwoArrays)
    ensures FillWithTwoArraysGraph(g, t).Ok? <==>
              forall j :: 0 <= j < |t.arcs| ==> t.arcs[j].0 in KeysOf(t.nodes) && t.arcs[j].1 in KeysOf(t.nodes)
  {
    var (h, byId) := FillNodes(g, t.nodes, map[]);
    FillNodesHolds(g, t.nodes, map[]);
    FillNodesKeys(g, t.nodes, map[]);
    FillArcsOk(h, byId, t.arcs);
    assert FillWithTwoArraysGraph(g, t) == FillArcs(h, byId, t.arcs);
  }

  /** nodesById after the first loop keeps its old keys, holds every key of the literal, and
      maps each to a node object. */
  lemma {:induction false} FillNodesHolds(g: Graph, ns: seq<(string, Params)>, byId: map<string, Ref>)
    requires forall k :: k in byId ==> IsNode(g, byId[k])
    ensures var r := FillNodes(g, ns, byId);
      && (forall k :: k in byId ==> k in r.1)
      && (forall i :: 0 <= i < |ns| ==> ns[i].0 in r.1)
      && (forall k :: k in r.1 ==> IsNode(r.0, r.1[k]))
    decreases |ns|
  {
    if ns != [] {
      var c := CreateNode(g, WithId(ns[0]));
      assert |c.0.nodeObjs| == |g.nodeObjs| + 1;
      FillNodesHolds(c.0, ns[1..], byId[ns[0].0 := c.1]);
      assert FillNodes(g, ns, byId) == FillNodes(c.0, ns[1..], byId[ns[0].0 := c.1]);
      assert forall i :: 1 <= i < |ns| ==> ns[i] == ns[1..][i - 1];
    }
  }

  /** When nodesById holds only node objects, the second loop throws exactly when a pair
      names a key nodesById lacks. */
  lemma {:induction false} FillArcsOk(g: Graph, byId: map<string, Ref>, pairs: seq<(string, string)>)
    requires forall k :: k in byId ==> IsNode(g, byId[k])
    ensures FillArcs(g, byId, pairs).Ok? <==> forall j :: 0 <= j < |pairs| ==> pairs[j].0 in byId && pairs[j].1 in byId
    decreases |pairs|
  {
    if pairs != [] && pairs[0].0 in byId && pairs[0].1 in byId {
      var h := CreateArc(g, byId[pairs[0].0], byId[pairs[0].1], []).value.0;
      assert forall k :: k in byId ==> IsNode(h, byId[k]);
      FillArcsOk(h, byId, pairs[1..]);
      assert FillArcs(g, byId, pairs) == FillArcs(h, byId, pairs[1..]);
      assert forall j :: 1 <= j < |pairs| ==> pairs[j] == pairs[1..][j - 1];
    }
  }

  /** nodesById after the first loop holds only the keys it started with and the literal's. */
  lemma {:induction false} FillNodesKeys(g: Graph, ns: seq<(string, Params)>, byId: map<string, Ref>)
    requires forall k :: k in byId ==> IsNode(g, byId[k])
    ensures forall k :: k in FillNodes(g, ns, byId).1 ==> k in byId || k in KeysOf(ns)
    decreases |ns|
  {
    if ns != [] {
      var c := CreateNode(g, WithId(ns[0]));
      FillNodesKeys(c.0, ns[1..], byId[ns[0].0 := c.1]);
      assert FillNodes(g, ns, byId) == FillNodes(c.0, ns[1..], byId[ns[0].0 := c.1]);
      assert KeysOf(ns) == [ns[0].0] + KeysOf(ns[1..]);
    }
  }

  /** What the first loop builds: node objects |g.nodeObjs| + i, listed in that order, each
      with its key as `id`. */
  lemma {:induction false} FillNodesShape(g: Graph, ns: seq<(string, Params)>, byId: map<string, Ref>)
    requires forall k :: k in byId ==> IsNode(g, byId[k])
    ensures var h := FillNodes(g, ns, byId).0; var n0 := |g.nodeObjs|;
      && |h.nodeObjs| == n0 + |ns| && h.nodeObjs[..n0] == g.nodeObjs
      && h.nodes == g.nodes + Span(n0, |ns|)
      && (forall i :: 0 <= i < |ns| ==> h.nodeObjs[n0 + i] == NodeObj([], [], WithId(ns[i])))
    decreases |ns|
  {
    if ns != [] {
      var (h1, n) := CreateNode(g, WithId(ns[0]));
      var b1 := byId[ns[0].0 := n];
      FillNodesShape(h1, ns[1..], b1);
      var h := FillNodes(g, ns, byId).0;
      assert h == FillNodes(h1, ns[1..], b1).0;
      var n0 := |g.nodeObjs|;
      assert h.nodeObjs[..n0] == h.nodeObjs[..n0 + 1][..n0];
      assert Span(n0, |ns|) == [n0] + Span(n0 + 1, |ns| - 1);
      forall i | 0 <= i < |ns|
        ensures h.nodeObjs[n0 + i] == NodeObj([], [], WithId(ns[i]))
      {
        if i == 0 {
          assert h.nodeObjs[n0] == h.nodeObjs[..n0 + 1][n0];
        } else {
          assert ns[1..][i - 1] == ns[i];
        }
      }
    }
  }

  /** nodesById after the first loop: keys of the literal map into the new node objects,
      other keys keep their entries. */
  lemma {:induction false} FillNodesMap(g: Graph, ns: seq<(string, Params)>, byId: map<string, Ref>)
    requires forall k :: k in byId ==> IsNode(g, byId[k])
    ensures var b2 := FillNodes(g, ns, byId).1; var n0 := |g.nodeObjs|;
      && (forall k :: k in byId && k !in KeysOf(ns) ==> k in b2 && b2[k] == byId[k])
      && (forall k :: k in KeysOf(ns) ==> k in b2 && n0 <= b2[k] < n0 + |ns|)
    decreases |ns|
  {
    if ns != [] {
      var (h1, n) := CreateNode(g, WithId(ns[0]));
      var b1 := byId[ns[0].0 := n];
      FillNodesMap(h1, ns[1..], b1);
      assert FillNodes(g, ns, byId).1 == FillNodes(h1, ns[1..], b1).1;
      assert KeysOf(ns) == [ns[0].0] + KeysOf(ns[1..]);
    }
  }

  /** The first loop records only node objects it creates, all at or above the old count. */
  lemma {:induction false} FillNodesAbove(g: Graph, ns: seq<(string, Params)>, byId: map<string, Ref>, lo: nat)
    requires lo <= |g.nodeObjs| && forall k :: k in byId ==> lo <= byId[k]
    ensures forall k :: k in FillNodes(g, ns, byId).1 ==> lo <= FillNodes(g, ns, byId).1[k]
    decreases |ns|
  {
    if ns != [] {
      var c := CreateNode(g, WithId(ns[0]));
      assert |c.0.nodeObjs| == |g.nodeObjs| + 1;
      FillNodesAbove(c.0, ns[1..], byId[ns[0].0 := c.1], lo);
      assert FillNodes(g, ns, byId) == FillNodes(c.0, ns[1..], byId[ns[0].0 := c.1]);
    }
  }

  /** With distinct keys, nodesById sends the key at position i to node object |g.nodeObjs| + i. */
  lemma {:induction false} FillNodesIds(g: Graph, ns: seq<(string, Params)>, byId: map<string, Ref>)
    requires forall k :: k in byId ==> IsNode(g, byId[k])
    requires Distinct(KeysOf(ns))
    ensures var b2 := FillNodes(g, ns, byId).1;
      forall i :: 0 <= i < |ns| ==> ns[i].0 in b2 && b2[ns[i].0] == |g.nodeObjs| + i
    decreases |ns|
  {
    if ns != [] {
      var (h1, n) := CreateNode(g, WithId(ns[0]));
      var b1 := byId[ns[0].0 := n];
      assert KeysOf(ns) == [ns[0].0] + KeysOf(ns[1..]);
      assert Distinct(KeysOf(ns[1..]));
      FillNodesIds(h1, ns[1..], b1);
      FillNodesMap(h1, ns[1..], b1);
      FillNodesHolds(g, ns, byId);
      var b2 := FillNodes(g, ns, byId).1;
      assert b2 == FillNodes(h1, ns[1..], b1).1;
      forall i | 0 <= i < |ns|
        ensures b2[ns[i].0] == |g.nodeObjs| + i
      {
        if i > 0 {
          assert ns[1..][i - 1] == ns[i];
        }
      }
    }
  }

  /** The arc objects the second loop appends for the given pairs. */
  function ArcsFor(byId: map<string, Ref>, pairs: seq<(string, string)>): (r: seq<ArcObj>)
    requires forall j :: 0 <= j < |pairs| ==> pairs[j].0 in byId && pairs[j].1 in byId
    ensures |r| == |pairs|
    ensures forall j :: 0 <= j < |pairs| ==> r[j] == ArcObj(byId[pairs[j].0], byId[pairs[j].1], [])
  {
    seq(|pairs|, j requires 0 <= j < |pairs| && pairs[j].0 in byId && pairs[j].1 in byId =>
                   ArcObj(byId[pairs[j].0], byId[pairs[j].1], []))
  }

  /** The second loop appends one arc object per pair, keeps `nodes` and every params object,
      and touches no node below lo when nodesById holds only nodes from lo up. */
  lemma {:induction false} FillArcsShape(g: Graph, byId: map<string, Ref>, pairs: seq<(string, string)>, lo: nat)
    requires forall k :: k in byId ==> IsNode(g, byId[k]) && lo <= byId[k]
    requires forall j :: 0 <= j < |pairs| ==> pairs[j].0 in byId && pairs[j].1 in byId
    ensures FillArcs(g, byId, pairs).Ok?
    ensures var h := FillArcs(g, byId, pairs).value;
      && h.nodes == g.nodes && |h.nodeObjs| == |g.nodeObjs|
      && h.arcObjs == g.arcObjs + ArcsFor(byId, pairs)
      && ParamsOf(h.nodeObjs) == ParamsOf(g.nodeObjs)
      && (forall m :: 0 <= m < lo && m < |g.nodeObjs| ==> h.nodeObjs[m] == g.nodeObjs[m])
    decreases |pairs|
  {
    if pairs != [] {
      var s, e := byId[pairs[0].0], byId[pairs[0].1];
      var h1 := CreateArc(g, s, e, []).value.0;
      assert forall k :: k in byId ==> IsNode(h1, byId[k]);
      assert ParamsOf(h1.nodeObjs) == ParamsOf(g.nodeObjs);
      FillArcsShape(h1, byId, pairs[1..], lo);
      assert FillArcs(g, byId, pairs) == FillArcs(h1, byId, pairs[1..]);
      assert ArcsFor(byId, pairs) == [ArcObj(s, e, [])] + ArcsFor(byId, pairs[1..]);
    }
  }

  /** On a consistent graph the second loop keeps the graph consistent and every old link,
      and links each arc it appends. */
  lemma {:induction false} FillArcsLinks(g: Graph, byId: map<string, Ref>, pairs: seq<(string, string)>)
    requires Consistent(g) && forall k :: k in byId ==> IsNode(g, byId[k])
    requires forall j :: 0 <= j < |pairs| ==> pairs[j].0 in byId && pairs[j].1 in byId
    ensures FillArcs(g, byId, pairs).Ok?
    ensures var h := FillArcs(g, byId, pairs).value;
      && Consistent(h)
      && (forall a :: |g.arcObjs| <= a < |h.arcObjs| ==> Linked(h, a))
      && (forall b :: Linked(g, b) ==> Linked(h, b))
    decreases |pairs|
  {
    if pairs != [] {
      var s, e := byId[pairs[0].0], byId[pairs[0].1];
      CreateArcKeepsConsistent(g, s, e, []);
      var h1 := CreateArc(g, s, e, []).value.0;
      assert forall k :: k in byId ==> IsNode(h1, byId[k]);
      FillArcsLinks(h1, byId, pairs[1..]);
      assert FillArcs(g, byId, pairs) == FillArcs(h1, byId, pairs[1..]);
      assert Linked(h1, |g.arcObjs|);
    }
  }

  /** The params objects of a list of node objects. */
  function ParamsOf(objs: seq<NodeObj>): (r: seq<Params>)
    ensures |r| == |objs| && forall i :: 0 <= i < |objs| ==> r[i] == objs[i].params
  {
    seq(|objs|, i requires 0 <= i < |objs| => objs[i].params)
  }

  /** The params the first loop gives the nodes of the literal, in order. */
  function Stamped(ns: seq<(string, Params)>): (r: seq<Params>)
    ensures |r| == |ns| && forall i :: 0 <= i < |ns| ==> r[i] == WithId(ns[i])
  {
    seq(|ns|, i requires 0 <= i < |ns| => WithId(ns[i]))
  }

  /** What the first loop builds, as FillSpec uses it. */
  lemma FirstLoopShape(g: Graph, t: TwoArrays) returns (h1: Graph, byId: map<string, Ref>)
    ensures h1 == FillNodes(g, t.nodes, map[]).0 && byId == FillNodes(g, t.nodes, map[]).1
    ensures |h1.nodeObjs| == |g.nodeObjs| + |t.nodes| && h1.nodeObjs[..|g.nodeObjs|] == g.nodeObjs
    ensures h1.nodes == g.nodes + Span(|g.nodeObjs|, |t.nodes|) && h1.arcObjs == g.arcObjs
    ensures ParamsOf(h1.nodeObjs)[|g.nodeObjs|..] == Stamped(t.nodes)
    ensures forall k :: k in byId ==> IsNode(h1, byId[k]) && |g.nodeObjs| <= byId[k]
    ensures forall i :: 0 <= i < |t.nodes| ==> t.nodes[i].0 in byId
  {
    h1, byId := FillNodes(g, t.nodes, map[]).0, FillNodes(g, t.nodes, map[]).1;
    FillNodesShape(g, t.nodes, map[]);
    FillNodesHolds(g, t.nodes, map[]);
    FillNodesAbove(g, t.nodes, map[], |g.nodeObjs|);
    var n0 := |g.nodeObjs|;
    forall i | 0 <= i < |t.nodes|
      ensures ParamsOf(h1.nodeObjs)[n0..][i] == Stamped(t.nodes)[i]
    {
      assert h1.nodeObjs[n0 + i] == NodeObj([], [], WithId(t.nodes[i]));
    }
  }

  /** What the first loop builds, as the arc half of FillSpec uses it. */
  lemma FirstLoopIds(g: Graph, t: TwoArrays) returns (h1: Graph, byId: map<string, Ref>)
    requires Distinct(KeysOf(t.nodes))
    ensures h1 == FillNodes(g, t.nodes, map[]).0 && byId == FillNodes(g, t.nodes, map[]).1
    ensures h1.arcObjs == g.arcObjs
    ensures forall k :: k in byId ==> IsNode(h1, byId[k])
    ensures forall i :: 0 <= i < |t.nodes| ==> t.nodes[i].0 in byId && byId[t.nodes[i].0] == |g.nodeObjs| + i
  {
    h1, byId := FillNodes(g, t.nodes, map[]).0, FillNodes(g, t.nodes, map[]).1;
    FillNodesHolds(g, t.nodes, map[]);
    FillNodesIds(g, t.nodes, map[]);
  }

  /** Appending node objects keeps every link. */
  lemma PrefixKeepsLinks(g: Graph, h: Graph)
    requires h.arcObjs == g.arcObjs && |g.nodeObjs| <= |h.nodeObjs| && h.nodeObjs[..|g.nodeObjs|] == g.nodeObjs
    ensures forall b: Ref :: Linked(g, b) ==> Linked(h, b)
  {
    forall b: Ref | Linked(g, b)
      ensures Linked(h, b)
    {
      var s, e := g.arcObjs[b].nodeFrom, g.arcObjs[b].nodeTo;
      assert h.nodeObjs[..|g.nodeObjs|][s] == g.nodeObjs[s];
      assert h.nodeObjs[..|g.nodeObjs|][e] == g.nodeObjs[e];
    }
  }

  /** The appended arc objects name the nodes of their keys' positions. */
  lemma ArcsForKeys(t: TwoArrays, byId: map<string, Ref>, n0: nat, j: nat)
    requires forall i :: 0 <= i < |t.nodes| ==> t.nodes[i].0 in byId && byId[t.nodes[i].0] == n0 + i
    requires j < |t.arcs| && t.arcs[j].0 in KeysOf(t.nodes) && t.arcs[j].1 in KeysOf(t.nodes)
    ensures t.arcs[j].0 in byId && t.arcs[j].1 in byId
    ensures byId[t.arcs[j].0] == n0 + IndexOf(KeysOf(t.nodes), t.arcs[j].0)
    ensures byId[t.arcs[j].1] == n0 + IndexOf(KeysOf(t.nodes), t.arcs[j].1)
  {
    var i1, i2 := IndexOf(KeysOf(t.nodes), t.arcs[j].0), IndexOf(KeysOf(t.nodes), t.arcs[j].1);
    assert byId[t.nodes[i1].0] == n0 + i1;
    assert byId[t.nodes[i2].0] == n0 + i2;
  }

  /** For a literal with distinct keys whose pairs name only its own keys,
      fillWithTwoArraysGraph succeeds: the nodes are listed after the old ones in key order
      with their key as `id`, the old node objects are untouched, and each pair becomes an arc
      object between the nodes of its keys. */
  lemma FillSpec(g: Graph, t: TwoArrays)
    requires Distinct(KeysOf(t.nodes))
    requires forall j :: 0 <= j < |t.arcs| ==> t.arcs[j].0 in KeysOf(t.nodes) && t.arcs[j].1 in KeysOf(t.nodes)
    ensures FillWithTwoArraysGraph(g, t).Ok?
    ensures NodesFilled(g, t, FillWithTwoArraysGraph(g, t).value)
    ensures ArcsFilled(g.arcObjs, FillWithTwoArraysGraph(g, t).value.arcObjs, t, |g.nodeObjs|)
  {
    FillNodesFilled(g, t);
    FillArcsFilled(g, t);
  }

  /** The node half of FillSpec, stated as NodesFilled. */
  lemma FillNodesFilled(g: Graph, t: TwoArrays)
    requires forall j :: 0 <= j < |t.arcs| ==> t.arcs[j].0 in KeysOf(t.nodes) && t.arcs[j].1 in KeysOf(t.nodes)
    ensures FillWithTwoArraysGraph(g, t).Ok? && NodesFilled(g, t, FillWithTwoArraysGraph(g, t).value)
  {
    var h := FillSpecNodes(g, t);
    NodesPointwise(g, h, t.nodes);
  }

  /** The arc half of FillSpec, stated as ArcsFilled. */
  lemma FillArcsFilled(g: Graph, t: TwoArrays)
    requires Distinct(KeysOf(t.nodes))
    requires forall j :: 0 <= j < |t.arcs| ==> t.arcs[j].0 in KeysOf(t.nodes) && t.arcs[j].1 in KeysOf(t.nodes)
    ensures FillWithTwoArraysGraph(g, t).Ok? && ArcsFilled(g.arcObjs, FillWithTwoArraysGraph(g, t).value.arcObjs, t, |g.nodeObjs|)
  {
    FillSpecArcs(g, t);
    ArcsPointwise(g.arcObjs, FillWithTwoArraysGraph(g, t).value.arcObjs, t, |g.nodeObjs|);
  }

  /** The node objects of h are those of g followed by one per literal node, carrying its stamped params. */
  predicate NodesFilled(g: Graph, t: TwoArrays, h: Graph)
  {
    var n0 := |g.nodeObjs|;
    && h.nodes == g.nodes + Span(n0, |t.nodes|)
    && |h.nodeObjs| == n0 + |t.nodes| && (forall m :: 0 <= m < n0 ==> h.nodeObjs[m] == g.nodeObjs[m])
    && (forall i :: 0 <= i < |t.nodes| ==> h.nodeObjs[n0 + i].params == WithId(t.nodes[i]))
  }

  /** The arc objects `all` are `before` followed by one per literal pair, joining the pair's
      node objects when the literal's nodes start at node object n0. */
  predicate ArcsFilled(before: seq<ArcObj>, all: seq<ArcObj>, t: TwoArrays, n0: nat)
    requires forall j :: 0 <= j < |t.arcs| ==> t.arcs[j].0 in KeysOf(t.nodes) && t.arcs[j].1 in KeysOf(t.nodes)
  {
    && |all| == |before| + |t.arcs| && (forall a :: 0 <= a < |before| ==> all[a] == before[a])
    && (forall j :: 0 <= j < |t.arcs| ==>
          all[|before| + j] == ArcObj(n0 + IndexOf(KeysOf(t.nodes), t.arcs[j].0), n0 + IndexOf(KeysOf(t.nodes), t.arcs[j].1), []))
  }

  /** The node half of FillSpec. */
  lemma FillSpecNodes(g: Graph, t: TwoArrays) returns (h: Graph)
    requires forall j :: 0 <= j < |t.arcs| ==> t.arcs[j].0 in KeysOf(t.nodes) && t.arcs[j].1 in KeysOf(t.nodes)
    ensures FillWithTwoArraysGraph(g, t) == Ok(h)
    ensures h.nodes == g.nodes + Span(|g.nodeObjs|, |t.nodes|) && |h.nodeObjs| == |g.nodeObjs| + |t.nodes|
    ensures h.nodeObjs[..|g.nodeObjs|] == g.nodeObjs
    ensures ParamsOf(h.nodeObjs)[|g.nodeObjs|..] == Stamped(t.nodes)
  {
    var h1, byId := FirstLoopShape(g, t);
    PairsInMap(t, byId);
    FillIsTwoLoops(g, t, h1, byId);
    h := SecondLoopNodes(h1, byId, t.arcs, |g.nodeObjs|);
  }

  /** The node facts of FillSpecNodes, element by element. */
  lemma NodesPointwise(g: Graph, h: Graph, ns: seq<(string, Params)>)
    requires |h.nodeObjs| == |g.nodeObjs| + |ns| && h.nodeObjs[..|g.nodeObjs|] == g.nodeObjs
    requires ParamsOf(h.nodeObjs)[|g.nodeObjs|..] == Stamped(ns)
    ensures forall m :: 0 <= m < |g.nodeObjs| ==> h.nodeObjs[m] == g.nodeObjs[m]
    ensures forall i :: 0 <= i < |ns| ==> h.nodeObjs[|g.nodeObjs| + i].params == WithId(ns[i])
  {
    var n0 := |g.nodeObjs|;
    forall m | 0 <= m < n0
      ensures h.nodeObjs[m] == g.nodeObjs[m]
    {
      assert h.nodeObjs[..n0][m] == g.nodeObjs[m];
    }
    forall i | 0 <= i < |ns|
      ensures h.nodeObjs[n0 + i].params == WithId(ns[i])
    {
      assert ParamsOf(h.nodeObjs)[n0..][i] == Stamped(ns)[i];
    }
  }

  /** A pair naming keys of the literal names keys of a nodesById that holds them all. */
  lemma PairsInMap(t: TwoArrays, byId: map<string, Ref>)
    requires forall i :: 0 <= i < |t.nodes| ==> t.nodes[i].0 in byId
    requires forall j :: 0 <= j < |t.arcs| ==> t.arcs[j].0 in KeysOf(t.nodes) && t.arcs[j].1 in KeysOf(t.nodes)
    ensures forall j :: 0 <= j < |t.arcs| ==> t.arcs[j].0 in byId && t.arcs[j].1 in byId
  {
    forall j | 0 <= j < |t.arcs|
      ensures t.arcs[j].0 in byId && t.arcs[j].1 in byId
    {
      var i1, i2 := IndexOf(KeysOf(t.nodes), t.arcs[j].0), IndexOf(KeysOf(t.nodes), t.arcs[j].1);
      assert t.nodes[i1].0 in byId && t.nodes[i2].0 in byId;
    }
  }

  /** The arc half of FillSpec. */
  lemma FillSpecArcs(g: Graph, t: TwoArrays)
    requires Distinct(KeysOf(t.nodes))
    requires forall j :: 0 <= j < |t.arcs| ==> t.arcs[j].0 in KeysOf(t.nodes) && t.arcs[j].1 in KeysOf(t.nodes)
    ensures FillWithTwoArraysGraph(g, t).Ok?
    ensures FillWithTwoArraysGraph(g, t).value.arcObjs == g.arcObjs + PairArcs(t, |g.nodeObjs|)
  {
    var h1, byId := FirstLoopIds(g, t);
    PairsResolve(t, byId, |g.nodeObjs|);
    FillIsTwoLoops(g, t, h1, byId);
    var h := SecondLoopArcs(h1, byId, t.arcs);
    ArcsMatch(byId, t, |g.nodeObjs|);
  }

  /** The arc objects a literal's pairs become when its nodes start at node object n0. */
  function PairArcs(t: TwoArrays, n0: nat): (r: seq<ArcObj>)
    requires forall j :: 0 <= j < |t.arcs| ==> t.arcs[j].0 in KeysOf(t.nodes) && t.arcs[j].1 in KeysOf(t.nodes)
    ensures |r| == |t.arcs|
    ensures forall j :: 0 <= j < |t.arcs| ==>
      r[j] == ArcObj(n0 + IndexOf(KeysOf(t.nodes), t.arcs[j].0), n0 + IndexOf(KeysOf(t.nodes), t.arcs[j].1), [])
  {
    seq(|t.arcs|, j requires 0 <= j < |t.arcs| && t.arcs[j].0 in KeysOf(t.nodes) && t.arcs[j].1 in KeysOf(t.nodes) =>
                    ArcObj(n0 + IndexOf(KeysOf(t.nodes), t.arcs[j].0), n0 + IndexOf(KeysOf(t.nodes), t.arcs[j].1), []))
  }

  /** The arc objects of FillSpecArcs, element by element. */
  lemma ArcsPointwise(before: seq<ArcObj>, all: seq<ArcObj>, t: TwoArrays, n0: nat)
    requires forall j :: 0 <= j < |t.arcs| ==> t.arcs[j].0 in KeysOf(t.nodes) && t.arcs[j].1 in KeysOf(t.nodes)
    requires all == before + PairArcs(t, n0)
    ensures ArcsFilled(before, all, t, n0)
  {
    var ps := PairArcs(t, n0);
    forall j | 0 <= j < |t.arcs|
      ensures all[|before| + j] == ArcObj(n0 + IndexOf(KeysOf(t.nodes), t.arcs[j].0), n0 + IndexOf(KeysOf(t.nodes), t.arcs[j].1), [])
    {
      assert all[|before| + j] == ps[j];
    }
  }

  /** The node objects after the second loop. */
  lemma SecondLoopNodes(h1: Graph, byId: map<string, Ref>, pairs: seq<(string, string)>, n0: nat) returns (h: Graph)
    requires forall k :: k in byId ==> IsNode(h1, byId[k]) && n0 <= byId[k]
    requires forall j :: 0 <= j < |pairs| ==> pairs[j].0 in byId && pairs[j].1 in byId
    requires n0 <= |h1.nodeObjs|
    ensures FillArcs(h1, byId, pairs) == Ok(h)
    ensures h.nodes == h1.nodes && |h.nodeObjs| == |h1.nodeObjs|
    ensures h.nodeObjs[..n0] == h1.nodeObjs[..n0] && ParamsOf(h.nodeObjs) == ParamsOf(h1.nodeObjs)
  {
    FillArcsShape(h1, byId, pairs, n0);
    h := FillArcs(h1, byId, pairs).value;
    assert h.nodeObjs[..n0] == h1.nodeObjs[..n0];
    assert ParamsOf(h.nodeObjs) == ParamsOf(h1.nodeObjs);
  }

  /** The arc objects after the second loop. */
  lemma SecondLoopArcs(h1: Graph, byId: map<string, Ref>, pairs: seq<(string, string)>) returns (h: Graph)
    requires forall k :: k in byId ==> IsNode(h1, byId[k])
    requires forall j :: 0 <= j < |pairs| ==> pairs[j].0 in byId && pairs[j].1 in byId
    ensures FillArcs(h1, byId, pairs) == Ok(h)
    ensures h.arcObjs == h1.arcObjs + ArcsFor(byId, pairs)
  {
    FillArcsShape(h1, byId, pairs, 0);
    h := FillArcs(h1, byId, pairs).value;
  }

  /** Every key a pair names is in nodesById once the first loop has recorded every node. */
  lemma PairsResolve(t: TwoArrays, byId: map<string, Ref>, n0: nat)
    requires forall i :: 0 <= i < |t.nodes| ==> t.nodes[i].0 in byId && byId[t.nodes[i].0] == n0 + i
    requires forall j :: 0 <= j < |t.arcs| ==> t.arcs[j].0 in KeysOf(t.nodes) && t.arcs[j].1 in KeysOf(t.nodes)
    ensures forall j :: 0 <= j < |t.arcs| ==> t.arcs[j].0 in byId && t.arcs[j].1 in byId
  {
    forall j | 0 <= j < |t.arcs|
      ensures t.arcs[j].0 in byId && t.arcs[j].1 in byId
    {
      ArcsForKeys(t, byId, n0, j);
    }
  }

  /** fillWithTwoArraysGraph is its second loop run on what the first loop built. */
  lemma FillIsTwoLoops(g: Graph, t: TwoArrays, h1: Graph, byId: map<string, Ref>)
    requires h1 == FillNodes(g, t.nodes, map[]).0 && byId == FillNodes(g, t.nodes, map[]).1
    requires forall k :: k in byId ==> IsNode(h1, byId[k])
    ensures FillWithTwoArraysGraph(g, t) == FillArcs(h1, byId, t.arcs)
  {
  }

  /** The arcs the second loop appends join the nodes at their keys' positions. */
  lemma ArcsMatch(byId: map<string, Ref>, t: TwoArrays, n0: nat)
    requires forall i :: 0 <= i < |t.nodes| ==> t.nodes[i].0 in byId && byId[t.nodes[i].0] == n0 + i
    requires forall j :: 0 <= j < |t.arcs| ==> t.arcs[j].0 in KeysOf(t.nodes) && t.arcs[j].1 in KeysOf(t.nodes)
    requires forall j :: 0 <= j < |t.arcs| ==> t.arcs[j].0 in byId && t.arcs[j].1 in byId
    ensures ArcsFor(byId, t.arcs) == PairArcs(t, n0)
  {
    forall j | 0 <= j < |t.arcs|
      ensures ArcsFor(byId, t.arcs)[j] == PairArcs(t, n0)[j]
    {
      ArcsForKeys(t, byId, n0, j);
    }
  }

  /** On a consistent graph, a successful fillWithTwoArraysGraph keeps the graph consistent,
      keeps every old link and links every arc it adds. */
  lemma FillKeepsConsistent(g: Graph, t: TwoArrays)
    requires Consistent(g)
    ensures FillWithTwoArraysGraph(g, t).Ok? ==> var h := FillWithTwoArraysGraph(g, t).value;
      && Consistent(h)
      && (forall a :: |g.arcObjs| <= a < |h.arcObjs| ==> Linked(h, a))
      && (forall b: Ref :: Linked(g, b) ==> Linked(h, b))
  {
    if FillWithTwoArraysGraph(g, t).Ok? {
      var (h1, byId) := FillNodes(g, t.nodes, map[]);
      FillNodesShape(g, t.nodes, map[]);
      FillNodesConsistent(g, h1, t.nodes);
      PrefixKeepsLinks(g, h1);
      FillNodesHolds(g, t.nodes, map[]);
      FillArcsOk(h1, byId, t.arcs);
      assert FillWithTwoArraysGraph(g, t) == FillArcs(h1, byId, t.arcs);
      FillArcsLinks(h1, byId, t.arcs);
    }
  }

  /** The first loop is a run of createNode calls, so it keeps the graph consistent. */
  lemma {:induction false} FillNodesConsistent(g: Graph, h: Graph, ns: seq<(string, Params)>)
    requires Consistent(g) && h == FillNodes(g, ns, map[]).0
    ensures Consistent(h)
  {
    FillNodesConsistentFrom(g, ns, map[]);
  }

  lemma {:induction false} FillNodesConsistentFrom(g: Graph, ns: seq<(string, Params)>, byId: map<string, Ref>)
    requires forall k :: k in byId ==> IsNode(g, byId[k])
    requires Consistent(g)
    ensures Consistent(FillNodes(g, ns, byId).0)
    decreases |ns|
  {
    if ns != [] {
      var (h1, n) := CreateNode(g, WithId(ns[0]));
      CreateNodeKeepsConsistent(g, WithId(ns[0]));
      FillNodesConsistentFrom(h1, ns[1..], byId[ns[0].0 := n]);
    }
  }

  /** One arc from node 0 to node 1. */
  const OneArcGraph := Graph(
    [NodeObj([], [0], []), NodeObj([0], [], [])],
    [ArcObj(0, 1, [])],
    [0, 1])

  /** deleteArc on the one arc of OneArcGraph throws, although the lists it was meant to
      change were changed: without the trailing throw the call returns the graph with both
      lists emptied. */
  lemma OneArcThrows()
    ensures Consistent(OneArcGraph) && Linked(OneArcGraph, 0)
    ensures DeleteArcAsWritten(OneArcGraph, 0, 1) == Err(NoSuchElement)
    ensures DeleteArc(OneArcGraph, 0, 1) == Ok(Graph([NodeObj([], [], []), NodeObj([], [], [])], [ArcObj(0, 1, [])], [0, 1]))
  {
    var G := OneArcGraph;
    OneArcConsistent();
    assert FindArcBetweenNodes(G, 0, 1) == Ok(0);
    assert RemoveFirst([0], 0) == [];
    var g1 := Graph([NodeObj([], [], []), NodeObj([0], [], [])], [ArcObj(0, 1, [])], [0, 1]);
    assert G.nodeObjs[0 := NodeObj([], [], [])] == g1.nodeObjs;
    assert DeleteArcFromNode(G, 0, 0) == Ok(g1);
    assert g1.nodeObjs[1 := NodeObj([], [], [])] == [NodeObj([], [], []), NodeObj([], [], [])];
    assert DeleteArcFromNode(g1, 0, 1) == Ok(Graph([NodeObj([], [], []), NodeObj([], [], [])], [ArcObj(0, 1, [])], [0, 1]));
  }

  lemma OneArcConsistent()
    ensures Consistent(OneArcGraph)
  {
    var G := OneArcGraph;
    forall n: Ref, a: Ref | n < |G.nodeObjs| && (a in G.nodeObjs[n].inArcs || a in G.nodeObjs[n].outArcs)
      ensures a == 0
    {
      assert n == 0 || n == 1;
    }
    forall n: Ref | n < |G.nodeObjs|
      ensures Distinct(G.nodeObjs[n].inArcs) && Distinct(G.nodeObjs[n].outArcs)
    {
      assert n == 0 || n == 1;
    }
    forall a: Ref | a < |G.arcObjs| ensures G.arcObjs[a] == ArcObj(0, 1, []) {
      assert a == 0;
    }
  }
}
