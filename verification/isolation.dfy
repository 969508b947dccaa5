/** isolateNode, deleteNode and clear of the id-keyed Graph (modules/graph/graph.js). Isolating
    a node walks its inputArcs and then its outputArcs; each arc is removed from the list of
    its other endpoint and from the arc map, and the node's own lists are emptied at the end.
    The endpoints of an arc are read from the arc objects, which outlive their removal from the
    map, so the model reads them from the arc map as it was when the isolation began. */
module Isolation {
  import opened Wrappers
  import opened Seqs
  import opened Graphs

  datatype Side = Inputs | Outputs

  function ListOf(node: Node, side: Side): seq<Id> {
    if side == Inputs then node.inputArcs else node.outputArcs
  }

  /** The endpoint an arc is unlinked from: the start of an input arc, the end of an output arc. */
  function Far(a: Arc, side: Side): Id {
    if side == Inputs then a.startNode else a.endNode
  }

  /** One step of either loop of isolateNode: deleteArcFromNode(arc, far endpoint), then
      arcs.delete(arc.id). */
  function Unlink(arcs0: map<Id, Arc>, g: Graph, side: Side, y: Id): (r: Result<Graph>)
    ensures y !in arcs0 ==> r == Err(NoSuchElement)
    ensures r.Ok? ==> var h := r.value;
      && h.arcs == g.arcs - {y} && h.arcOrder == RemoveFirst(g.arcOrder, y)
      && h.nodes.Keys == g.nodes.Keys && h.nodeOrder == g.nodeOrder
      && h.lastNodeId == g.lastNodeId && h.lastArcId == g.lastArcId
  {
    if y !in arcs0 then Err(NoSuchElement)
    else
      var g1 :- DeleteArcFromNode(g, y, Far(arcs0[y], side));
      Ok(g1.(arcs := g1.arcs - {y}, arcOrder := RemoveFirst(g1.arcOrder, y)))
  }

  /** A loop over a copy of the list taken before the loop starts. */
  function SnapshotLoop(arcs0: map<Id, Arc>, g: Graph, side: Side, list: seq<Id>): (r: Result<Graph>)
    ensures r.Ok? ==> var h := r.value;
      && h.nodes.Keys == g.nodes.Keys && h.nodeOrder == g.nodeOrder
      && h.lastNodeId == g.lastNodeId && h.lastArcId == g.lastArcId
    decreases |list|
  {
    if list == [] then Ok(g)
    else
      var g1 :- Unlink(arcs0, g, side, list[0]);
      SnapshotLoop(arcs0, g1, side, list[1..])
  }

  /** A for-of loop over the node's own list, which is re-read at every step: an arc removed
      from that very list (a self-loop) shifts the remaining entries down by one. */
  function LiveLoop(arcs0: map<Id, Arc>, g: Graph, n: Id, side: Side, i: nat): (r: Result<Graph>)
    requires n in g.nodes
    ensures r.Ok? ==> var h := r.value;
      && h.nodes.Keys == g.nodes.Keys && h.nodeOrder == g.nodeOrder
      && h.lastNodeId == g.lastNodeId && h.lastArcId == g.lastArcId
    decreases |ListOf(g.nodes[n], side)| - i
  {
    var list := ListOf(g.nodes[n], side);
    if i >= |list| then Ok(g)
    else
      var g1 :- Unlink(arcs0, g, side, list[i]);
      assert |ListOf(g1.nodes[n], side)| <= |list| by {
        ShrinkingList(arcs0, g, side, list[i], n);
      }
      LiveLoop(arcs0, g1, n, side, i + 1)
  }

  lemma ShrinkingList(arcs0: map<Id, Arc>, g: Graph, side: Side, y: Id, n: Id)
    requires n in g.nodes && Unlink(arcs0, g, side, y).Ok?
    ensures |ListOf(Unlink(arcs0, g, side, y).value.nodes[n], side)| <= |ListOf(g.nodes[n], side)|
  {
  }

  /** The node with both arc lists emptied. */
  function ClearLists(g: Graph, n: Id): (h: Graph)
    requires n in g.nodes
    ensures h.nodes.Keys == g.nodes.Keys && h.arcs == g.arcs
    ensures h.nodes[n].inputArcs == [] && h.nodes[n].outputArcs == []
    ensures SameRecord(g.nodes[n], h.nodes[n])
    ensures forall k :: k in g.nodes && k != n ==> h.nodes[k] == g.nodes[k]
  {
    g.(nodes := g.nodes[n := g.nodes[n].(inputArcs := [], outputArcs := [])])
  }

  /** isolateNode(node) as written: both loops run over the node's live lists. A node that
      is not in the graph is the undefined of a failed getNode. */
  function IsolateNodeAsWritten(g: Graph, n: Id): (r: Result<Graph>)
    ensures n !in g.nodes ==> r == Err(Unresolved)
    ensures r.Ok? ==> r.value.nodes.Keys == g.nodes.Keys
    ensures r.Ok? ==> r.value.lastNodeId == g.lastNodeId && r.value.lastArcId == g.lastArcId
  {
    if n !in g.nodes then Err(Unresolved)
    else
      var g1 :- LiveLoop(g.arcs, g, n, Inputs, 0);
      var g2 :- LiveLoop(g.arcs, g1, n, Outputs, 0);
      Ok(ClearLists(g2, n))
  }

  /** isolateNode(node) with both loops over copies of the node's lists taken before the
      loop starts, so that removing a self-loop from the node's own list skips nothing. */
  function IsolateNode(g: Graph, n: Id): (r: Result<Graph>)
    ensures n !in g.nodes ==> r == Err(Unresolved)
    ensures r.Ok? ==> var h := r.value;
      && h.nodes.Keys == g.nodes.Keys && h.nodeOrder == g.nodeOrder
      && h.lastNodeId == g.lastNodeId && h.lastArcId == g.lastArcId
      && h.nodes[n].inputArcs == [] && h.nodes[n].outputArcs == []
  {
    if n !in g.nodes then Err(Unresolved)
    else
      var node := g.nodes[n];
      var g1 :- SnapshotLoop(g.arcs, g, Inputs, node.inputArcs);
      var g2 :- SnapshotLoop(g.arcs, g1, Outputs, node.outputArcs);
      Ok(ClearLists(g2, n))
  }

  // ---------------------------------------------------------------------------
  // Isolation with copied lists

  /** The arc is a self-loop. */
  ghost predicate Loop(g: Graph, y: Id) {
    y in g.arcs && g.arcs[y].startNode == g.arcs[y].endNode
  }

  /** The arcs touching node n. */
  ghost function Touching(g: Graph, n: Id): set<Id> {
    set y | y in g.arcs && (g.arcs[y].startNode == n || g.arcs[y].endNode == n)
  }

  /** Partway through isolating n: the arcs R are gone from the arc map and its order, and
      everything else but the lists is as it was. */
  ghost predicate StageArcs(g0: Graph, h: Graph, R: set<Id>) {
    && h.arcs == g0.arcs - R && h.nodes.Keys == g0.nodes.Keys && h.nodeOrder == g0.nodeOrder
    && h.lastNodeId == g0.lastNodeId && h.lastArcId == g0.lastArcId
    && Distinct(h.arcOrder) && (forall y :: y in h.arcOrder <==> y in h.arcs)
    && (forall k :: k in g0.nodes ==> SameRecord(g0.nodes[k], h.nodes[k]))
  }

  /** The nodes other than n have lost exactly the arcs R from their lists. */
  ghost predicate StageOthers(g0: Graph, h: Graph, n: Id, R: set<Id>)
    requires h.nodes.Keys == g0.nodes.Keys
  {
    forall k, y :: k in g0.nodes && k != n ==>
      && (y in h.nodes[k].inputArcs <==> y in g0.nodes[k].inputArcs && y !in R)
      && (y in h.nodes[k].outputArcs <==> y in g0.nodes[k].outputArcs && y !in R)
  }

  /** n's own lists have lost only the self-loops unlinked through them: RI counts the arcs
      taken from its inputs, RO those taken from its outputs. */
  ghost predicate StageCenter(g0: Graph, h: Graph, n: Id, RI: set<Id>, RO: set<Id>)
    requires n in g0.nodes && n in h.nodes
  {
    forall y ::
      && (y in h.nodes[n].inputArcs <==> y in g0.nodes[n].inputArcs && !(y in RI && Loop(g0, y)))
      && (y in h.nodes[n].outputArcs <==> y in g0.nodes[n].outputArcs && !(y in RO && Loop(g0, y)))
  }

  ghost predicate Stage(g0: Graph, h: Graph, n: Id, RI: set<Id>, RO: set<Id>) {
    && n in g0.nodes
    && StageArcs(g0, h, RI + RO)
    && StageOthers(g0, h, n, RI + RO)
    && StageCenter(g0, h, n, RI, RO)
    && ListsDistinct(h)
  }

  lemma StageStart(g: Graph, n: Id)
    requires Valid(g) && n in g.nodes
    ensures Stage(g, g, n, {}, {})
  {
  }

  /** Unlinking one more input arc of n extends the stage by that arc. */
  lemma UnlinkInputStep(g0: Graph, h: Graph, n: Id, RI: set<Id>, y: Id)
    requires Valid(g0) && Stage(g0, h, n, RI, {})
    requires y in g0.nodes[n].inputArcs && y !in RI
    ensures Unlink(g0.arcs, h, Inputs, y).Ok?
    ensures Stage(g0, Unlink(g0.arcs, h, Inputs, y).value, n, RI + {y}, {})
  {
    var s := InputStepFound(g0, h, n, RI, y);
    var d := DeleteArcFromNode(h, y, s).value;
    var h1 := Unlink(g0.arcs, h, Inputs, y).value;
    assert h1 == d.(arcs := h.arcs - {y}, arcOrder := RemoveFirst(h.arcOrder, y));
    StepArcs(g0, h, d, h1, RI + {}, y, s);
    InputStepOthers(g0, h, d, h1, n, RI, y, s);
    InputStepCenter(g0, h, d, h1, n, RI, y, s);
  }

  /** The input arc y sits in the output list of its start node s (or, for a self-loop, in
      n's input list, which deleteArcFromNode looks at first). */
  lemma InputStepFound(g0: Graph, h: Graph, n: Id, RI: set<Id>, y: Id) returns (s: Id)
    requires Valid(g0) && Stage(g0, h, n, RI, {})
    requires y in g0.nodes[n].inputArcs && y !in RI
    ensures y in g0.arcs && g0.arcs[y].endNode == n && g0.arcs[y].startNode == s
    ensures DeleteArcFromNode(h, y, s).Ok?
    ensures s != n ==> y in h.nodes[s].outputArcs && y !in h.nodes[s].inputArcs
    ensures s == n ==> y in h.nodes[n].inputArcs
  {
    s := g0.arcs[y].startNode;
    assert y in g0.nodes[s].outputArcs;
    if s == n {
      assert y in h.nodes[n].inputArcs;
    } else {
      assert y !in g0.nodes[s].inputArcs;
    }
  }

  /** Removing y from the arc map and its order after one deleteArcFromNode call. */
  lemma StepArcs(g0: Graph, h: Graph, d: Graph, h1: Graph, R: set<Id>, y: Id, f: Id)
    requires StageArcs(g0, h, R) && ListsDistinct(h)
    requires DeleteArcFromNode(h, y, f) == Ok(d)
    requires h1 == d.(arcs := h.arcs - {y}, arcOrder := RemoveFirst(h.arcOrder, y))
    ensures StageArcs(g0, h1, R + {y}) && ListsDistinct(h1)
  {
    DeleteArcFromNodeShrinks(h, y, f);
    assert h1.arcs == g0.arcs - (R + {y});
    assert Distinct(h1.arcOrder) && forall z :: z in h1.arcOrder <==> z in h1.arcs;
    assert forall k :: k in g0.nodes ==> SameRecord(g0.nodes[k], h1.nodes[k]) by {
      forall k | k in g0.nodes ensures SameRecord(g0.nodes[k], h1.nodes[k]) {
        assert SameRecord(h.nodes[k], d.nodes[k]);
      }
    }
  }

  lemma InputStepOthers(g0: Graph, h: Graph, d: Graph, h1: Graph, n: Id, RI: set<Id>, y: Id, s: Id)
    requires Valid(g0) && Stage(g0, h, n, RI, {})
    requires y in g0.arcs && g0.arcs[y].endNode == n && g0.arcs[y].startNode == s
    requires s != n ==> y in h.nodes[s].outputArcs && y !in h.nodes[s].inputArcs
    requires DeleteArcFromNode(h, y, s) == Ok(d) && h1.nodes == d.nodes
    ensures StageOthers(g0, h1, n, RI + {y} + {})
  {
    forall k, z | k in g0.nodes && k != n
      ensures (z in h1.nodes[k].inputArcs <==> z in g0.nodes[k].inputArcs && z !in RI + {y} + {})
      ensures (z in h1.nodes[k].outputArcs <==> z in g0.nodes[k].outputArcs && z !in RI + {y} + {})
    {
      assert k in h.nodes;
      assert y !in g0.nodes[k].inputArcs;
      assert z in h.nodes[k].inputArcs <==> z in g0.nodes[k].inputArcs && z !in RI + {};
      assert z in h.nodes[k].outputArcs <==> z in g0.nodes[k].outputArcs && z !in RI + {};
      if k != s {
        assert y !in g0.nodes[k].outputArcs;
        assert d.nodes[k] == h.nodes[k];
      } else {
        assert Distinct(h.nodes[s].outputArcs);
        assert d.nodes[s].inputArcs == h.nodes[s].inputArcs;
        assert d.nodes[s].outputArcs == RemoveFirst(h.nodes[s].outputArcs, y);
      }
    }
  }

  lemma InputStepCenter(g0: Graph, h: Graph, d: Graph, h1: Graph, n: Id, RI: set<Id>, y: Id, s: Id)
    requires Valid(g0) && Stage(g0, h, n, RI, {}) && y !in RI
    requires y in g0.arcs && g0.arcs[y].endNode == n && g0.arcs[y].startNode == s
    requires s == n ==> y in h.nodes[n].inputArcs
    requires DeleteArcFromNode(h, y, s) == Ok(d) && h1.nodes == d.nodes
    ensures StageCenter(g0, h1, n, RI + {y}, {})
  {
    if s == n {
      assert Distinct(h.nodes[n].inputArcs);
    } else {
      assert d.nodes[n] == h.nodes[n];
    }
  }

  /** Unlinking one more output arc of n, once all its input arcs are unlinked. */
  lemma UnlinkOutputStep(g0: Graph, h: Graph, n: Id, RO: set<Id>, y: Id)
    requires Valid(g0) && n in g0.nodes && Stage(g0, h, n, Elems(g0.nodes[n].inputArcs), RO)
    requires y in g0.nodes[n].outputArcs && y !in RO
    ensures Unlink(g0.arcs, h, Outputs, y).Ok?
    ensures Stage(g0, Unlink(g0.arcs, h, Outputs, y).value, n, Elems(g0.nodes[n].inputArcs), RO + {y})
  {
    var RI := Elems(g0.nodes[n].inputArcs);
    var e := OutputStepFound(g0, h, n, RO, y);
    var d := DeleteArcFromNode(h, y, e).value;
    var h1 := Unlink(g0.arcs, h, Outputs, y).value;
    assert h1 == d.(arcs := h.arcs - {y}, arcOrder := RemoveFirst(h.arcOrder, y));
    StepArcs(g0, h, d, h1, RI + RO, y, e);
    if e == n {
      assert y in RI;
      assert RI + RO + {y} == RI + RO;
    }
    assert RI + RO + {y} == RI + (RO + {y});
    OutputStepOthers(g0, h, d, h1, n, RO, y, e);
    OutputStepCenter(g0, h, d, h1, n, RO, y, e);
  }

  /** The output arc y sits in the input list of its end node e; for a self-loop, n's input
      list has already lost it, so deleteArcFromNode takes it from n's output list. */
  lemma OutputStepFound(g0: Graph, h: Graph, n: Id, RO: set<Id>, y: Id) returns (e: Id)
    requires Valid(g0) && n in g0.nodes && Stage(g0, h, n, Elems(g0.nodes[n].inputArcs), RO)
    requires y in g0.nodes[n].outputArcs && y !in RO
    ensures y in g0.arcs && g0.arcs[y].startNode == n && g0.arcs[y].endNode == e
    ensures DeleteArcFromNode(h, y, e).Ok?
    ensures e != n ==> y in h.nodes[e].inputArcs && y !in Elems(g0.nodes[n].inputArcs)
    ensures e == n ==> y !in h.nodes[n].inputArcs && y in h.nodes[n].outputArcs
  {
    e := g0.arcs[y].endNode;
    assert y in g0.nodes[e].inputArcs;
    if e == n {
      assert y in Elems(g0.nodes[n].inputArcs) && Loop(g0, y);
    } else {
      assert y !in g0.nodes[n].inputArcs;
      OthersAt(g0, h, n, Elems(g0.nodes[n].inputArcs) + RO, e, y);
    }
  }

  lemma OutputStepOthers(g0: Graph, h: Graph, d: Graph, h1: Graph, n: Id, RO: set<Id>, y: Id, e: Id)
    requires Valid(g0) && n in g0.nodes && Stage(g0, h, n, Elems(g0.nodes[n].inputArcs), RO)
    requires y in g0.arcs && g0.arcs[y].startNode == n && g0.arcs[y].endNode == e
    requires e != n ==> y in h.nodes[e].inputArcs
    requires DeleteArcFromNode(h, y, e) == Ok(d) && h1.nodes == d.nodes
    ensures StageOthers(g0, h1, n, Elems(g0.nodes[n].inputArcs) + (RO + {y}))
  {
    var R := Elems(g0.nodes[n].inputArcs) + RO;
    assert StageOthers(g0, h, n, R);
    forall k, z | k in g0.nodes && k != n
      ensures (z in h1.nodes[k].inputArcs <==> z in g0.nodes[k].inputArcs && z !in R + {y})
      ensures (z in h1.nodes[k].outputArcs <==> z in g0.nodes[k].outputArcs && z !in R + {y})
    {
      assert k in h.nodes;
      assert y !in g0.nodes[k].outputArcs;
      OthersAt(g0, h, n, R, k, z);
      if k != e {
        assert y !in g0.nodes[k].inputArcs;
        assert d.nodes[k] == h.nodes[k];
      } else {
        assert Distinct(h.nodes[e].inputArcs);
        assert d.nodes[e].inputArcs == RemoveFirst(h.nodes[e].inputArcs, y);
        assert d.nodes[e].outputArcs == h.nodes[e].outputArcs;
      }
    }
    assert StageOthers(g0, h1, n, R + {y});
    assert Elems(g0.nodes[n].inputArcs) + (RO + {y}) == R + {y};
  }

  lemma OutputStepCenter(g0: Graph, h: Graph, d: Graph, h1: Graph, n: Id, RO: set<Id>, y: Id, e: Id)
    requires Valid(g0) && n in g0.nodes && Stage(g0, h, n, Elems(g0.nodes[n].inputArcs), RO) && y !in RO
    requires y in g0.arcs && g0.arcs[y].startNode == n && g0.arcs[y].endNode == e
    requires e == n ==> y !in h.nodes[n].inputArcs && y in h.nodes[n].outputArcs
    requires DeleteArcFromNode(h, y, e) == Ok(d) && h1.nodes == d.nodes
    ensures StageCenter(g0, h1, n, Elems(g0.nodes[n].inputArcs), RO + {y})
  {
    if e == n {
      assert Distinct(h.nodes[n].outputArcs);
      assert d.nodes[n].outputArcs == RemoveFirst(h.nodes[n].outputArcs, y);
    } else {
      assert d.nodes[n] == h.nodes[n];
    }
  }

  lemma OthersAt(g0: Graph, h: Graph, n: Id, R: set<Id>, k: Id, z: Id)
    requires h.nodes.Keys == g0.nodes.Keys && StageOthers(g0, h, n, R)
    requires k in g0.nodes && k != n
    ensures z in h.nodes[k].inputArcs <==> z in g0.nodes[k].inputArcs && z !in R
    ensures z in h.nodes[k].outputArcs <==> z in g0.nodes[k].outputArcs && z !in R
  {
  }

  /** The input loop unlinks every arc of the list; `done` is the set of input arcs unlinked
      once it finishes. */
  lemma {:induction false} InputsLoop(g0: Graph, h: Graph, n: Id, RI: set<Id>, list: seq<Id>, done: set<Id>)
    requires Valid(g0) && Stage(g0, h, n, RI, {})
    requires Distinct(list) && forall y :: y in list ==> y in g0.nodes[n].inputArcs && y !in RI
    requires done == RI + Elems(list)
    ensures SnapshotLoop(g0.arcs, h, Inputs, list).Ok?
    ensures Stage(g0, SnapshotLoop(g0.arcs, h, Inputs, list).value, n, done, {})
    decreases |list|
  {
    if list == [] {
      assert done == RI;
    } else {
      var y := list[0];
      UnlinkInputStep(g0, h, n, RI, y);
      var h1 := Unlink(g0.arcs, h, Inputs, y).value;
      ElemsCons(list);
      assert SnapshotLoop(g0.arcs, h, Inputs, list) == SnapshotLoop(g0.arcs, h1, Inputs, list[1..]);
      InputsLoop(g0, h1, n, RI + {y}, list[1..], done);
    }
  }

  /** The output loop likewise, after the input loop has unlinked all of n's input arcs. */
  lemma {:induction false} OutputsLoop(g0: Graph, h: Graph, n: Id, RO: set<Id>, list: seq<Id>, done: set<Id>)
    requires Valid(g0) && n in g0.nodes && Stage(g0, h, n, Elems(g0.nodes[n].inputArcs), RO)
    requires Distinct(list) && forall y :: y in list ==> y in g0.nodes[n].outputArcs && y !in RO
    requires done == RO + Elems(list)
    ensures SnapshotLoop(g0.arcs, h, Outputs, list).Ok?
    ensures Stage(g0, SnapshotLoop(g0.arcs, h, Outputs, list).value, n, Elems(g0.nodes[n].inputArcs), done)
    decreases |list|
  {
    if list == [] {
      assert done == RO;
    } else {
      var y := list[0];
      UnlinkOutputStep(g0, h, n, RO, y);
      var h1 := Unlink(g0.arcs, h, Outputs, y).value;
      ElemsCons(list);
      assert SnapshotLoop(g0.arcs, h, Outputs, list) == SnapshotLoop(g0.arcs, h1, Outputs, list[1..]);
      OutputsLoop(g0, h1, n, RO + {y}, list[1..], done);
    }
  }

  /** Under a consistent adjacency the arcs touching n are exactly those in its lists. */
  lemma TouchingIsLists(g: Graph, n: Id)
    requires AdjacencyWith(g, {}) && n in g.nodes
    ensures Touching(g, n) == Elems(g.nodes[n].inputArcs) + Elems(g.nodes[n].outputArcs)
  {
    var In, Out := g.nodes[n].inputArcs, g.nodes[n].outputArcs;
    forall y | y in Touching(g, n)
      ensures y in Elems(In) + Elems(Out)
    {
      assert y in g.nodes[Tail(g.arcs[y], false)].outputArcs;
      assert y in g.nodes[Head(g.arcs[y], false)].inputArcs;
    }
    forall y | y in Elems(In) + Elems(Out)
      ensures y in Touching(g, n)
    {
      if y in In {
        assert y in g.arcs && Head(g.arcs[y], false) == n;
      } else {
        assert y in g.arcs && Tail(g.arcs[y], false) == n;
      }
    }
  }

  /** isolateNode removes exactly the arcs touching the node: from the arc map, from the lists
      of their other endpoints and from the node's own lists, and the graph stays valid. Self-
      loops are allowed. */
  lemma IsolateNodeSpec(g: Graph, n: Id)
    requires Valid(g) && n in g.nodes
    ensures IsolateNode(g, n).Ok?
    ensures var h := IsolateNode(g, n).value;
      && h.arcs == g.arcs - Touching(g, n)
      && NodesWithout(g, h, Touching(g, n))
      && Valid(h)
      && (NoSelfLoops(g) ==> NoSelfLoops(h))
  {
    var In, Out := g.nodes[n].inputArcs, g.nodes[n].outputArcs;
    StageStart(g, n);
    InputsLoop(g, g, n, {}, In, Elems(In));
    var g1 := SnapshotLoop(g.arcs, g, Inputs, In).value;
    OutputsLoop(g, g1, n, {}, Out, Elems(Out));
    var g2 := SnapshotLoop(g.arcs, g1, Outputs, Out).value;
    TouchingIsLists(g, n);
    var h := ClearLists(g2, n);
    assert IsolateNode(g, n) == Ok(h);
    FinishIsolation(g, g2, h, n, Elems(In), Elems(Out));
  }

  lemma FinishIsolation(g: Graph, g2: Graph, h: Graph, n: Id, RI: set<Id>, RO: set<Id>)
    requires Valid(g) && n in g.nodes && Stage(g, g2, n, RI, RO)
    requires RI == Elems(g.nodes[n].inputArcs) && RO == Elems(g.nodes[n].outputArcs)
    requires Touching(g, n) == RI + RO
    requires h == ClearLists(g2, n)
    ensures h.arcs == g.arcs - Touching(g, n)
    ensures NodesWithout(g, h, Touching(g, n))
    ensures Valid(h)
    ensures NoSelfLoops(g) ==> NoSelfLoops(h)
  {
    var T := Touching(g, n);
    assert NodesWithout(g, h, T) by {
      forall k, y | k in g.nodes
        ensures (y in h.nodes[k].inputArcs <==> y in g.nodes[k].inputArcs && y !in T)
        ensures (y in h.nodes[k].outputArcs <==> y in g.nodes[k].outputArcs && y !in T)
      {
        if k != n {
          OthersAt(g, g2, n, T, k, y);
        }
      }
    }
    RemovalKeepsAdjacency(g, h, {}, T);
    assert NodeIdsOk(h) by {
      forall k | k in h.nodes ensures h.nodes[k].id == g.nodes[k].id {
      }
    }
  }

  // ---------------------------------------------------------------------------
  // The loops as written

  /** Unlinking an arc whose far endpoint is not n leaves n's record and lists alone. */
  lemma UnlinkElsewhere(arcs0: map<Id, Arc>, g: Graph, side: Side, y: Id, n: Id)
    requires n in g.nodes && Unlink(arcs0, g, side, y).Ok?
    requires y in arcs0 ==> Far(arcs0[y], side) != n
    ensures Unlink(arcs0, g, side, y).value.nodes[n] == g.nodes[n]
  {
  }

  /** While no entry of n's list leads back to n, the live loop and the loop over a copy of the
      list do the same thing, and n's own lists stay as they were. */
  lemma {:induction false} LiveIsSnapshot(arcs0: map<Id, Arc>, g: Graph, n: Id, side: Side, i: nat)
    requires n in g.nodes && i <= |ListOf(g.nodes[n], side)|
    requires forall y :: y in ListOf(g.nodes[n], side) && y in arcs0 ==> Far(arcs0[y], side) != n
    ensures LiveLoop(arcs0, g, n, side, i) == SnapshotLoop(arcs0, g, side, ListOf(g.nodes[n], side)[i..])
    ensures LiveLoop(arcs0, g, n, side, i).Ok? ==> LiveLoop(arcs0, g, n, side, i).value.nodes[n] == g.nodes[n]
    decreases |ListOf(g.nodes[n], side)| - i
  {
    var L := ListOf(g.nodes[n], side);
    if i < |L| {
      assert L[i..][0] == L[i] && L[i..][1..] == L[i + 1..];
      var u := Unlink(arcs0, g, side, L[i]);
      if u.Ok? {
        UnlinkElsewhere(arcs0, g, side, L[i], n);
        LiveIsSnapshot(arcs0, u.value, n, side, i + 1);
      }
    } else {
      assert L[i..] == [];
    }
  }

  /** Without self-loops, isolateNode and deleteNode as written behave as the corrected ones. */
  lemma AsWrittenAgrees(g: Graph, n: Id)
    requires Valid(g) && NoSelfLoops(g)
    ensures IsolateNodeAsWritten(g, n) == IsolateNode(g, n)
    ensures DeleteNodeAsWritten(g, n) == DeleteNode(g, n)
  {
    if n in g.nodes {
      var In, Out := g.nodes[n].inputArcs, g.nodes[n].outputArcs;
      assert forall y :: y in In && y in g.arcs ==> Far(g.arcs[y], Inputs) != n by {
        forall y | y in In && y in g.arcs ensures Far(g.arcs[y], Inputs) != n {
          assert Head(g.arcs[y], y in {}) == n;
        }
      }
      LiveIsSnapshot(g.arcs, g, n, Inputs, 0);
      assert In[0..] == In;
      var r1 := LiveLoop(g.arcs, g, n, Inputs, 0);
      if r1.Ok? {
        var g1 := r1.value;
        assert g1.nodes[n] == g.nodes[n];
        assert forall y :: y in Out && y in g.arcs ==> Far(g.arcs[y], Outputs) != n by {
          forall y | y in Out && y in g.arcs ensures Far(g.arcs[y], Outputs) != n {
            assert Tail(g.arcs[y], y in {}) == n;
          }
        }
        LiveIsSnapshot(g.arcs, g1, n, Outputs, 0);
        assert Out[0..] == Out;
      }
    }
  }

  /** Node 1 carries a self-loop (arc 1) ahead of arc 2 from node 2 in its input list. */
  const SelfLoopGraph := Graph(
    map[1 := Node(1, [], Origin, [1, 2], [1]), 2 := Node(2, [], Origin, [], [2])], [1, 2],
    map[1 := Arc(1, 1, 1, []), 2 := Arc(2, 2, 1, [])], [1, 2],
    2, 2)

  /** Deleting node 1 as written removes the self-loop from the live input list, which moves
      arc 2 into the slot the loop has already passed: arc 2 survives with an end node that no
      longer exists. The corrected deleteNode removes it. */
  lemma SelfLoopSkipsNext()
    ensures Valid(SelfLoopGraph)
    ensures DeleteNodeAsWritten(SelfLoopGraph, 1).Ok?
    ensures var h := DeleteNodeAsWritten(SelfLoopGraph, 1).value;
      2 in h.arcs && h.arcs[2].endNode !in h.nodes && !Valid(h)
    ensures DeleteNode(SelfLoopGraph, 1).Ok? && DeleteNode(SelfLoopGraph, 1).value.arcs == map[]
  {
    SelfLoopGraphValid();
    var h := SelfLoopAsWritten();
    DanglingInvalid(h, 2);
    SelfLoopCorrected();
  }

  /** The as-written deletion of node 1 keeps arc 2, and node 2 still lists it. */
  lemma SelfLoopAsWritten() returns (h: Graph)
    ensures DeleteNodeAsWritten(SelfLoopGraph, 1) == Ok(h)
    ensures h.nodes.Keys == {2} && h.arcs == map[2 := Arc(2, 2, 1, [])]
  {
    var i := SelfLoopIsolated();
    h := i.(nodes := i.nodes - {1}, nodeOrder := RemoveFirst(i.nodeOrder, 1));
    assert h.nodes.Keys == {2};
  }

  lemma SelfLoopIsolated() returns (i: Graph)
    ensures IsolateNodeAsWritten(SelfLoopGraph, 1) == Ok(i)
    ensures i.nodes.Keys == {1, 2} && i.arcs == map[2 := Arc(2, 2, 1, [])]
    ensures i.nodes[2] == SelfLoopGraph.nodes[2]
  {
    var G := SelfLoopGraph;
    var g1 := G.(nodes := G.nodes[1 := Node(1, [], Origin, [2], [1])], arcs := map[2 := Arc(2, 2, 1, [])], arcOrder := [2]);
    var g2 := g1.(nodes := g1.nodes[1 := Node(1, [], Origin, [2], [])]);
    SelfLoopInputPass(g1);
    SelfLoopOutputPass(g1, g2);
    i := ClearLists(g2, 1);
  }

  /** An arc whose end node is gone leaves the graph invalid. */
  lemma DanglingInvalid(h: Graph, y: Id)
    requires y in h.arcs && h.arcs[y].endNode !in h.nodes
    ensures !Valid(h)
  {
    assert Head(h.arcs[y], y in {}) !in h.nodes;
  }

  lemma SelfLoopGraphValid()
    ensures Valid(SelfLoopGraph)
  {
    SelfLoopKeys();
    SelfLoopSound();
    SelfLoopPlaced();
  }

  lemma SelfLoopKeys()
    ensures KeysOk(SelfLoopGraph)
  {
    var G := SelfLoopGraph;
    assert forall k :: k in G.nodeOrder <==> k == 1 || k == 2;
    assert forall k :: k in G.arcOrder <==> k == 1 || k == 2;
    forall k | k in G.nodes ensures G.nodes[k].id == k && k != 0 && k <= G.lastNodeId {
      assert k == 1 || k == 2;
    }
    forall k | k in G.arcs ensures G.arcs[k].id == k && k != 0 && k <= G.lastArcId {
      assert k == 1 || k == 2;
    }
  }

  lemma SelfLoopSound()
    ensures InputsSound(SelfLoopGraph, {}) && OutputsSound(SelfLoopGraph, {}) && ListsDistinct(SelfLoopGraph)
  {
    var G := SelfLoopGraph;
    forall k, x | k in G.nodes && x in G.nodes[k].inputArcs ensures x in G.arcs && Head(G.arcs[x], x in {}) == k {
      assert k == 1 && (x == 1 || x == 2);
    }
    forall k, x | k in G.nodes && x in G.nodes[k].outputArcs ensures x in G.arcs && Tail(G.arcs[x], x in {}) == k {
      assert (k == 1 && x == 1) || (k == 2 && x == 2);
    }
    forall k | k in G.nodes ensures Distinct(G.nodes[k].inputArcs) && Distinct(G.nodes[k].outputArcs) {
      assert k == 1 || k == 2;
    }
  }

  lemma SelfLoopPlaced()
    ensures ArcsPlaced(SelfLoopGraph, {})
  {
    var G := SelfLoopGraph;
    forall x | x in G.arcs
      ensures Tail(G.arcs[x], x in {}) in G.nodes && Head(G.arcs[x], x in {}) in G.nodes
      ensures x in G.nodes[Tail(G.arcs[x], x in {})].outputArcs
      ensures x in G.nodes[Head(G.arcs[x], x in {})].inputArcs
    {
      assert x == 1 || x == 2;
    }
  }

  /** The input pass unlinks the self-loop and then stops, its index past the shortened list. */
  lemma SelfLoopInputPass(g1: Graph)
    requires g1 == SelfLoopGraph.(nodes := SelfLoopGraph.nodes[1 := Node(1, [], Origin, [2], [1])],
                                  arcs := map[2 := Arc(2, 2, 1, [])], arcOrder := [2])
    ensures LiveLoop(SelfLoopGraph.arcs, SelfLoopGraph, 1, Inputs, 0) == Ok(g1)
  {
    var G := SelfLoopGraph;
    assert RemoveFirst([1, 2], 1) == [2];
    assert DeleteArcFromNode(G, 1, 1) == Ok(G.(nodes := G.nodes[1 := Node(1, [], Origin, [2], [1])]));
    assert G.arcs - {1} == map[2 := Arc(2, 2, 1, [])];
    assert Unlink(G.arcs, G, Inputs, 1) == Ok(g1);
    assert LiveLoop(G.arcs, g1, 1, Inputs, 1) == Ok(g1);
  }

  /** The output pass finds the self-loop in node 1's output list and unlinks it again. */
  lemma SelfLoopOutputPass(g1: Graph, g2: Graph)
    requires g1 == SelfLoopGraph.(nodes := SelfLoopGraph.nodes[1 := Node(1, [], Origin, [2], [1])],
                                  arcs := map[2 := Arc(2, 2, 1, [])], arcOrder := [2])
    requires g2 == g1.(nodes := g1.nodes[1 := Node(1, [], Origin, [2], [])])
    ensures LiveLoop(SelfLoopGraph.arcs, g1, 1, Outputs, 0) == Ok(g2)
  {
    var G := SelfLoopGraph;
    assert RemoveFirst([1], 1) == [] && RemoveFirst([2], 1) == [2];
    assert DeleteArcFromNode(g1, 1, 1) == Ok(g2);
    assert g1.arcs - {1} == g1.arcs;
    assert Unlink(G.arcs, g1, Outputs, 1) == Ok(g2);
    assert LiveLoop(G.arcs, g2, 1, Outputs, 1) == Ok(g2);
  }

  lemma SelfLoopCorrected()
    ensures DeleteNode(SelfLoopGraph, 1).Ok? && DeleteNode(SelfLoopGraph, 1).value.arcs == map[]
  {
    SelfLoopGraphValid();
    DeleteNodeSpec(SelfLoopGraph, 1);
    SelfLoopTouching();
    assert SelfLoopGraph.arcs - {1, 2} == map[];
  }

  lemma SelfLoopTouching()
    ensures Touching(SelfLoopGraph, 1) == {1, 2}
  {
    var G := SelfLoopGraph;
    assert 1 in Touching(G, 1) && 2 in Touching(G, 1);
    forall y | y in Touching(G, 1) ensures y == 1 || y == 2 {
      assert y in G.arcs;
    }
  }

  // ---------------------------------------------------------------------------
  // deleteNode and clear

  /** deleteNode(node): isolates the node, then deletes it from the node map. */
  function DeleteNode(g: Graph, n: Id): (r: Result<Graph>)
    ensures n !in g.nodes ==> r == Err(Unresolved)
    ensures r.Ok? ==> var h := r.value;
      && h.nodes.Keys == g.nodes.Keys - {n} && h.nodeOrder == RemoveFirst(g.nodeOrder, n)
      && h.lastNodeId == g.lastNodeId && h.lastArcId == g.lastArcId
  {
    var h :- IsolateNode(g, n);
    Ok(h.(nodes := h.nodes - {n}, nodeOrder := RemoveFirst(h.nodeOrder, n)))
  }

  /** deleteNode(node) over the isolation as written. */
  function DeleteNodeAsWritten(g: Graph, n: Id): (r: Result<Graph>)
    ensures n !in g.nodes ==> r == Err(Unresolved)
    ensures r.Ok? ==> r.value.nodes.Keys == g.nodes.Keys - {n}
    ensures r.Ok? ==> r.value.lastNodeId == g.lastNodeId && r.value.lastArcId == g.lastArcId
  {
    var h :- IsolateNodeAsWritten(g, n);
    Ok(h.(nodes := h.nodes - {n}, nodeOrder := RemoveFirst(h.nodeOrder, n)))
  }

  /** h is g without node n and without the arcs T touching it: the other nodes keep their
      records, and their lists have lost exactly the entries in T. */
  ghost predicate RemovedNode(g: Graph, h: Graph, n: Id, T: set<Id>) {
    && h.nodes.Keys == g.nodes.Keys - {n}
    && h.arcs == g.arcs - T
    && (forall k :: k in h.nodes ==> SameRecord(g.nodes[k], h.nodes[k]))
    && (forall k, y :: k in h.nodes ==>
          (y in h.nodes[k].inputArcs <==> y in g.nodes[k].inputArcs && y !in T))
    && (forall k, y :: k in h.nodes ==>
          (y in h.nodes[k].outputArcs <==> y in g.nodes[k].outputArcs && y !in T))
  }

  /** Deleting a node of a valid graph succeeds, removes the node and exactly the arcs touching
      it, leaves every other node's record and the rest of its lists alone, and keeps the
      graph valid. */
  lemma DeleteNodeSpec(g: Graph, n: Id)
    requires Valid(g) && n in g.nodes
    ensures DeleteNode(g, n).Ok?
    ensures RemovedNode(g, DeleteNode(g, n).value, n, Touching(g, n))
    ensures Valid(DeleteNode(g, n).value)
    ensures NoSelfLoops(g) ==> NoSelfLoops(DeleteNode(g, n).value)
  {
    IsolateNodeSpec(g, n);
    var i := IsolateNode(g, n).value;
    var h := i.(nodes := i.nodes - {n}, nodeOrder := RemoveFirst(i.nodeOrder, n));
    assert DeleteNode(g, n) == Ok(h);
    DropIsolatedNode(g, i, h, n, Touching(g, n));
  }

  /** Dropping a node with empty lists that no arc touches keeps the graph valid and every
      other node as it was. */
  lemma DropIsolatedNode(g: Graph, i: Graph, h: Graph, n: Id, T: set<Id>)
    requires Valid(i) && n in i.nodes && i.nodes[n].inputArcs == [] && i.nodes[n].outputArcs == []
    requires T == Touching(g, n) && i.arcs == g.arcs - T && NodesWithout(g, i, T)
    requires h == i.(nodes := i.nodes - {n}, nodeOrder := RemoveFirst(i.nodeOrder, n))
    ensures RemovedNode(g, h, n, T)
    ensures Valid(h)
    ensures NoSelfLoops(g) ==> NoSelfLoops(h)
  {
    assert forall y :: y in i.arcs ==> i.arcs[y].startNode != n && i.arcs[y].endNode != n;
    DropPlaced(i, h, n);
    DropKeys(i, h, n);
    DropSound(i, h, n);
    DropRemoved(g, i, h, n, T);
  }

  lemma DropRemoved(g: Graph, i: Graph, h: Graph, n: Id, T: set<Id>)
    requires i.arcs == g.arcs - T && NodesWithout(g, i, T)
    requires h.arcs == i.arcs && h.nodes == i.nodes - {n}
    ensures RemovedNode(g, h, n, T)
  {
    forall k, y | k in h.nodes
      ensures (y in h.nodes[k].inputArcs <==> y in g.nodes[k].inputArcs && y !in T)
      ensures (y in h.nodes[k].outputArcs <==> y in g.nodes[k].outputArcs && y !in T)
    {
      assert k in g.nodes && h.nodes[k] == i.nodes[k];
      WithoutAt(g, i, T, k, y);
    }
  }

  lemma DropSound(i: Graph, h: Graph, n: Id)
    requires InputsSound(i, {}) && OutputsSound(i, {}) && ListsDistinct(i)
    requires h.arcs == i.arcs && h.nodes == i.nodes - {n}
    ensures InputsSound(h, {}) && OutputsSound(h, {}) && ListsDistinct(h)
  {
  }

  lemma DropPlaced(i: Graph, h: Graph, n: Id)
    requires ArcsPlaced(i, {}) && n in i.nodes
    requires forall y :: y in i.arcs ==> i.arcs[y].startNode != n && i.arcs[y].endNode != n
    requires h.arcs == i.arcs && h.nodes == i.nodes - {n}
    ensures ArcsPlaced(h, {})
  {
  }

  lemma DropKeys(i: Graph, h: Graph, n: Id)
    requires KeysOk(i) && n in i.nodes
    requires h == i.(nodes := i.nodes - {n}, nodeOrder := RemoveFirst(i.nodeOrder, n))
    ensures KeysOk(h)
  {
  }

  /** deleteNode over the corrected isolation, or over the isolation as written. */
  function DeleteNodeBy(g: Graph, n: Id, corrected: bool): (r: Result<Graph>)
    ensures n !in g.nodes ==> r == Err(Unresolved)
    ensures r.Ok? ==> r.value.nodes.Keys == g.nodes.Keys - {n}
    ensures r.Ok? ==> r.value.lastNodeId == g.lastNodeId && r.value.lastArcId == g.lastArcId
  {
    if corrected then DeleteNode(g, n) else DeleteNodeAsWritten(g, n)
  }

  /** The nodes of the order, in turn; an id no longer in the map is skipped, as Map.forEach
      skips entries deleted during the iteration. Each node goes through the corrected
      deleteNode, or through deleteNode as written. */
  function DeleteAll(g: Graph, order: seq<Id>, corrected: bool): (r: Result<Graph>)
    ensures r.Ok? ==> r.value.nodes.Keys == g.nodes.Keys - Elems(order)
    ensures r.Ok? ==> r.value.lastNodeId == g.lastNodeId && r.value.lastArcId == g.lastArcId
    decreases |order|
  {
    if order == [] then Ok(g)
    else if order[0] !in g.nodes then DeleteAll(g, order[1..], corrected)
    else
      var g1 :- DeleteNodeBy(g, order[0], corrected);
      DeleteAll(g1, order[1..], corrected)
  }

  /** clear() with the corrected deleteNode: deletes every node (and with it every arc), then
      resets both counters. */
  function Clear(g: Graph): (r: Result<Graph>)
    ensures r.Ok? ==> r.value.lastNodeId == 0 && r.value.lastArcId == 0
    ensures r.Ok? ==> r.value.nodes.Keys == g.nodes.Keys - Elems(g.nodeOrder)
  {
    var h :- DeleteAll(g, g.nodeOrder, true);
    Ok(h.(lastNodeId := 0, lastArcId := 0))
  }

  /** clear() over deleteNode as written. */
  function ClearAsWritten(g: Graph): (r: Result<Graph>)
    ensures r.Ok? ==> r.value.lastNodeId == 0 && r.value.lastArcId == 0
    ensures r.Ok? ==> r.value.nodes.Keys == g.nodes.Keys - Elems(g.nodeOrder)
  {
    var h :- DeleteAll(g, g.nodeOrder, false);
    Ok(h.(lastNodeId := 0, lastArcId := 0))
  }

  lemma {:induction false} DeleteAllSpec(g: Graph, order: seq<Id>)
    requires Valid(g) && forall k :: k in g.nodes ==> k in order
    ensures DeleteAll(g, order, true).Ok?
    ensures Valid(DeleteAll(g, order, true).value) && DeleteAll(g, order, true).value.nodes == map[]
    decreases |order|
  {
    if order == [] {
      assert forall k :: k !in g.nodes;
      assert g.nodes == map[];
    } else if order[0] !in g.nodes {
      DeleteAllSpec(g, order[1..]);
    } else {
      DeleteNodeSpec(g, order[0]);
      var g1 := DeleteNode(g, order[0]).value;
      assert forall k :: k in g1.nodes ==> k in order[1..] by {
        forall k | k in g1.nodes ensures k in order[1..] {
          assert k in order && k != order[0];
        }
      }
      DeleteAllSpec(g1, order[1..]);
    }
  }

  /** On a valid graph without self-loops, deleting nodes with deleteNode as written does
      exactly what the corrected deleteNode does, node after node. */
  lemma {:induction false} DeleteAllAgrees(g: Graph, order: seq<Id>)
    requires Valid(g) && NoSelfLoops(g)
    ensures DeleteAll(g, order, false) == DeleteAll(g, order, true)
    decreases |order|
  {
    if order != [] {
      if order[0] in g.nodes {
        AsWrittenAgrees(g, order[0]);
        DeleteNodeSpec(g, order[0]);
        DeleteAllAgrees(DeleteNode(g, order[0]).value, order[1..]);
      } else {
        DeleteAllAgrees(g, order[1..]);
      }
    }
  }

  /** A valid graph with no nodes has no arcs and empty orders. */
  lemma NoNodesIsEmpty(g: Graph)
    requires Valid(g) && g.nodes == map[]
    ensures g.arcs == map[] && g.nodeOrder == [] && g.arcOrder == []
  {
    assert forall y :: y in g.arcs ==> Tail(g.arcs[y], y in {}) in g.nodes;
    assert g.arcs.Keys == {};
    assert NodeOrderOk(g) && ArcOrderOk(g);
    assert forall k :: k !in g.nodeOrder;
    assert forall k :: k !in g.arcOrder;
    NoMembersEmpty(g.nodeOrder);
    NoMembersEmpty(g.arcOrder);
  }

  /** clear() on a valid graph gives the freshly constructed graph. */
  lemma ClearEmpties(g: Graph)
    requires Valid(g)
    ensures Clear(g) == Ok(EmptyGraph)
  {
    DeleteAllSpec(g, g.nodeOrder);
    NoNodesIsEmpty(DeleteAll(g, g.nodeOrder, true).value);
  }

  /** On a valid graph without self-loops, clear() as written also gives the freshly
      constructed graph. */
  lemma ClearAgrees(g: Graph)
    requires Valid(g) && NoSelfLoops(g)
    ensures ClearAsWritten(g) == Clear(g) == Ok(EmptyGraph)
  {
    DeleteAllAgrees(g, g.nodeOrder);
    ClearEmpties(g);
  }

  /** clear() as written throws on SelfLoopGraph: deleting node 1 keeps arc 2, which node 2
      still lists, and deleting node 2 then looks for arc 2 in the lists of node 1, which is
      gone. The corrected clear() empties the graph. */
  lemma ClearSelfLoopThrows()
    ensures Valid(SelfLoopGraph)
    ensures ClearAsWritten(SelfLoopGraph) == Err(NoSuchElement)
    ensures Clear(SelfLoopGraph) == Ok(EmptyGraph)
  {
    SelfLoopGraphValid();
    ClearEmpties(SelfLoopGraph);
    var h := SelfLoopLeft();
    SecondDeleteThrows(h);
    assert DeleteAll(h, [2], false) == Err(NoSuchElement);
    assert [1, 2][1..] == [2];
  }

  /** What deleting node 1 as written leaves: node 2 alone, still listing arc 2, which ends at
      the deleted node 1. */
  lemma SelfLoopLeft() returns (h: Graph)
    ensures DeleteNodeAsWritten(SelfLoopGraph, 1) == Ok(h)
    ensures h.nodes.Keys == {2} && h.arcs == map[2 := Arc(2, 2, 1, [])]
    ensures h.nodes[2].inputArcs == [] && h.nodes[2].outputArcs == [2]
  {
    var i := SelfLoopIsolated();
    h := i.(nodes := i.nodes - {1}, nodeOrder := RemoveFirst(i.nodeOrder, 1));
  }

  /** Deleting node 2 then unlinks arc 2 from its end node 1, which is gone. */
  lemma SecondDeleteThrows(h: Graph)
    requires h.nodes.Keys == {2} && h.arcs == map[2 := Arc(2, 2, 1, [])]
    requires h.nodes[2].inputArcs == [] && h.nodes[2].outputArcs == [2]
    ensures DeleteNodeAsWritten(h, 2) == Err(NoSuchElement)
  {
    assert LiveLoop(h.arcs, h, 2, Inputs, 0) == Ok(h);
    assert DeleteArcFromNode(h, 2, 1) == Err(NoSuchElement);
    assert Unlink(h.arcs, h, Outputs, 2) == Err(NoSuchElement);
  }
}
