/** changeToVersion(version) of VersionsVisualGraph in modules/graph/graph.js: four passes
    that make the live graph match a snapshot, collecting the ids of the nodes and arcs they
    touch. Pass 1 creates or updates the snapshot's nodes, pass 2 deletes the nodes the
    snapshot lacks, pass 3 creates or re-points the snapshot's arcs, pass 4 deletes the arcs
    the snapshot lacks. */
module Changes {
  import opened Wrappers
  import opened Seqs
  import opened Graphs
  import opened Isolation

  /** The `{nodes, arcs}` object changeToVersion returns. */
  datatype ChangeSet = ChangeSet(nodes: set<Id>, arcs: set<Id>)

  /** A node id that is in one graph only, or in both with records that do not compare equal. */
  ghost predicate NodeChanged(g: Graph, v: Graph, k: Id) {
    (k in g.nodes || k in v.nodes) && !(k in g.nodes && k in v.nodes && NodeCompare(g.nodes[k], v.nodes[k]))
  }

  /** The same for arcs. */
  ghost predicate ArcChanged(g: Graph, v: Graph, x: Id) {
    (x in g.arcs || x in v.arcs) && !(x in g.arcs && x in v.arcs && ArcCompare(g.arcs[x], v.arcs[x]))
  }

  // ---------------------------------------------------------------------------
  // Pass 1: the snapshot's nodes

  /** One step of pass 1: a node missing from the live graph is created under the snapshot
      record's id; a node whose params or coords differ gets the snapshot's (its lists stay).
      The flag tells whether the id goes into the change set. */
  function SyncNode(g: Graph, id: Id, d: Node): (r: (Graph, bool))
    ensures r.1 <==> id !in g.nodes || !NodeCompare(g.nodes[id], d)
    ensures r.0.arcs == g.arcs && r.0.arcOrder == g.arcOrder && r.0.lastArcId == g.lastArcId
    ensures r.0.lastNodeId >= g.lastNodeId
  {
    if id !in g.nodes then (CreateNode(g, d.params, IdArgOf(d.id), d.coords).0, true)
    else if !NodeCompare(g.nodes[id], d) then
      (g.(nodes := g.nodes[id := g.nodes[id].(params := d.params, coords := d.coords)]), true)
    else (g, false)
  }

  /** Pass 1 over the snapshot's node order. */
  function SyncNodes(g: Graph, v: Graph, order: seq<Id>): (r: (Graph, set<Id>))
    ensures r.0.arcs == g.arcs && r.0.arcOrder == g.arcOrder && r.0.lastArcId == g.lastArcId
    ensures r.0.lastNodeId >= g.lastNodeId
    decreases |order|
  {
    if order == [] then (g, {})
    else if order[0] !in v.nodes then SyncNodes(g, v, order[1..])
    else
      var (h, changed) := SyncNode(g, order[0], v.nodes[order[0]]);
      var (r, C) := SyncNodes(h, v, order[1..]);
      (r, if changed then {order[0]} + C else C)
  }

  /** Every node of h has g's lists if g had it, and empty lists otherwise. */
  ghost predicate ListsFrom(g: Graph, h: Graph) {
    forall k :: k in h.nodes ==>
      if k in g.nodes then
        h.nodes[k].inputArcs == g.nodes[k].inputArcs && h.nodes[k].outputArcs == g.nodes[k].outputArcs
      else h.nodes[k].inputArcs == [] && h.nodes[k].outputArcs == []
  }

  lemma SyncNodeSpec(g: Graph, id: Id, d: Node)
    requires Valid(g) && d.id == id && id != 0
    ensures var h := SyncNode(g, id, d).0;
      && Valid(h)
      && h.nodes.Keys == g.nodes.Keys + {id}
      && NodeCompare(h.nodes[id], d)
      && (forall k :: k in g.nodes && k != id ==> h.nodes[k] == g.nodes[k])
      && ListsFrom(g, h)
  {
    if id !in g.nodes {
      CreateNodeKeepsValid(g, d.params, IdArgOf(d.id), d.coords);
    } else if !NodeCompare(g.nodes[id], d) {
      var h := SyncNode(g, id, d).0;
      RecordKeepsValid(g, h, id);
    }
  }

  /** Replacing a node's params and coords keeps the graph valid. */
  lemma RecordKeepsValid(g: Graph, h: Graph, id: Id)
    requires Valid(g) && id in g.nodes
    requires h.nodes.Keys == g.nodes.Keys && h.arcs == g.arcs
    requires h.nodeOrder == g.nodeOrder && h.arcOrder == g.arcOrder
    requires h.lastNodeId == g.lastNodeId && h.lastArcId == g.lastArcId
    requires forall k :: k in g.nodes && k != id ==> h.nodes[k] == g.nodes[k]
    requires h.nodes[id].id == id
    requires h.nodes[id].inputArcs == g.nodes[id].inputArcs && h.nodes[id].outputArcs == g.nodes[id].outputArcs
    ensures Valid(h)
  {
    assert NodeIdsOk(h);
    SameLists(g, h, {});
  }

  /** Adjacency looks only at the lists, the key set and the arc map. */
  lemma SameLists(g: Graph, h: Graph, F: set<Id>)
    requires h.nodes.Keys == g.nodes.Keys && h.arcs == g.arcs
    requires forall k :: k in g.nodes ==>
      h.nodes[k].inputArcs == g.nodes[k].inputArcs && h.nodes[k].outputArcs == g.nodes[k].outputArcs
    requires AdjacencyWith(g, F)
    ensures AdjacencyWith(h, F)
  {
  }

  /** In a graph whose ids are in order every record carries its own key. */
  ghost predicate NodesKeyed(v: Graph) {
    forall k :: k in v.nodes ==> v.nodes[k].id == k && k != 0
  }

  /** Pass 1 creates every node of the snapshot's order that the live graph lacks and gives
      every one of them the snapshot's params and coords; other nodes are left alone, old
      nodes keep their lists, new ones have none, and the ids reported are exactly those
      whose node was missing or compared unequal. */
  lemma {:induction false} SyncNodesSpec(g: Graph, v: Graph, order: seq<Id>)
    requires Valid(g) && NodesKeyed(v) && Distinct(order)
    ensures var (h, C) := SyncNodes(g, v, order);
      && Valid(h)
      && (forall k :: k in h.nodes <==> k in g.nodes || (k in order && k in v.nodes))
      && (forall k :: k in order && k in v.nodes ==> NodeCompare(h.nodes[k], v.nodes[k]))
      && (forall k :: k in g.nodes && !(k in order && k in v.nodes) ==> h.nodes[k] == g.nodes[k])
      && ListsFrom(g, h)
      && (forall k :: k in C <==> k in order && k in v.nodes && NodeChanged(g, v, k))
    decreases |order|
  {
    if order == [] {
    } else if order[0] !in v.nodes {
      ElemsCons(order);
      SyncNodesSpec(g, v, order[1..]);
    } else {
      var id := order[0];
      ElemsCons(order);
      SyncNodeSpec(g, id, v.nodes[id]);
      var (h1, changed) := SyncNode(g, id, v.nodes[id]);
      SyncNodesSpec(h1, v, order[1..]);
      var (h, C1) := SyncNodes(h1, v, order[1..]);
      assert SyncNodes(g, v, order) == (h, if changed then {id} + C1 else C1);
      SyncNodesStep(g, v, order, h1, h, C1, changed);
    }
  }

  lemma SyncNodesStep(g: Graph, v: Graph, order: seq<Id>, h1: Graph, h: Graph, C1: set<Id>, changed: bool)
    requires order != [] && order[0] in v.nodes && order[0] !in order[1..]
    requires forall y :: y in order[1..] ==> y in order
    requires changed <==> order[0] !in g.nodes || !NodeCompare(g.nodes[order[0]], v.nodes[order[0]])
    requires h1.nodes.Keys == g.nodes.Keys + {order[0]}
    requires NodeCompare(h1.nodes[order[0]], v.nodes[order[0]])
    requires forall k :: k in g.nodes && k != order[0] ==> h1.nodes[k] == g.nodes[k]
    requires ListsFrom(g, h1)
    requires forall k :: k in h.nodes <==> k in h1.nodes || (k in order[1..] && k in v.nodes)
    requires forall k :: k in order[1..] && k in v.nodes ==> NodeCompare(h.nodes[k], v.nodes[k])
    requires forall k :: k in h1.nodes && !(k in order[1..] && k in v.nodes) ==> h.nodes[k] == h1.nodes[k]
    requires ListsFrom(h1, h)
    requires forall k :: k in C1 <==> k in order[1..] && k in v.nodes && NodeChanged(h1, v, k)
    ensures forall k :: k in h.nodes <==> k in g.nodes || (k in order && k in v.nodes)
    ensures forall k :: k in order && k in v.nodes ==> NodeCompare(h.nodes[k], v.nodes[k])
    ensures forall k :: k in g.nodes && !(k in order && k in v.nodes) ==> h.nodes[k] == g.nodes[k]
    ensures ListsFrom(g, h)
    ensures forall k :: k in (if changed then {order[0]} + C1 else C1) <==>
      k in order && k in v.nodes && NodeChanged(g, v, k)
  {
    var id := order[0];
    forall k | k in order[1..] && k in v.nodes
      ensures NodeChanged(h1, v, k) <==> NodeChanged(g, v, k)
    {
      assert k != id;
    }
    forall k | k in h.nodes
      ensures if k in g.nodes then
          h.nodes[k].inputArcs == g.nodes[k].inputArcs && h.nodes[k].outputArcs == g.nodes[k].outputArcs
        else h.nodes[k].inputArcs == [] && h.nodes[k].outputArcs == []
    {
      if k in h1.nodes {
        assert k in g.nodes || k == id;
      }
    }
  }

  // ---------------------------------------------------------------------------
  // Pass 2: nodes the snapshot lacks

  /** Pass 2 over the live node order: a live node the snapshot lacks is deleted, and its id
      and the ids in its lists are reported. The deletion is the corrected deleteNode, or
      deleteNode as written. */
  function DropNodes(g: Graph, v: Graph, order: seq<Id>, corrected: bool): (r: Result<(Graph, set<Id>, set<Id>)>)
    ensures r.Ok? ==> r.value.0.nodes.Keys == g.nodes.Keys - (Elems(order) - v.nodes.Keys)
    ensures r.Ok? ==> r.value.1 == (g.nodes.Keys * Elems(order)) - v.nodes.Keys
    ensures r.Ok? ==> r.value.0.lastNodeId == g.lastNodeId && r.value.0.lastArcId == g.lastArcId
    decreases |order|
  {
    if order == [] then Ok((g, {}, {}))
    else if order[0] in g.nodes && order[0] !in v.nodes then
      var node := g.nodes[order[0]];
      var h :- DeleteNodeBy(g, order[0], corrected);
      var p :- DropNodes(h, v, order[1..], corrected);
      Ok((p.0, {order[0]} + p.1, Elems(node.inputArcs) + Elems(node.outputArcs) + p.2))
    else DropNodes(g, v, order[1..], corrected)
  }

  /** A live node of the order that the snapshot lacks. */
  ghost predicate Dropped(g: Graph, v: Graph, order: seq<Id>, k: Id) {
    k in g.nodes && k in order && k !in v.nodes
  }

  /** An arc with an endpoint that pass 2 deletes. */
  ghost predicate Cut(g: Graph, v: Graph, order: seq<Id>, x: Id)
    requires x in g.arcs
  {
    Dropped(g, v, order, g.arcs[x].startNode) || Dropped(g, v, order, g.arcs[x].endNode)
  }

  /** Pass 2 on a valid graph succeeds, deletes exactly the nodes of the order that the
      snapshot lacks and exactly the arcs touching them, keeps every other record, reports
      those nodes and those arcs, and keeps the graph valid. */
  lemma {:induction false} DropNodesSpec(g: Graph, v: Graph, order: seq<Id>)
    requires Valid(g) && Distinct(order)
    ensures DropNodes(g, v, order, true).Ok?
    ensures var (h, N, A) := DropNodes(g, v, order, true).value;
      && Valid(h)
      && (forall k :: k in h.nodes <==> k in g.nodes && !Dropped(g, v, order, k))
      && (forall k :: k in h.nodes ==> SameRecord(g.nodes[k], h.nodes[k]))
      && (forall x :: x in h.arcs <==> x in g.arcs && !Cut(g, v, order, x))
      && (forall x :: x in h.arcs ==> h.arcs[x] == g.arcs[x])
      && (forall k :: k in N <==> Dropped(g, v, order, k))
      && (forall x :: x in A <==> x in g.arcs && Cut(g, v, order, x))
    decreases |order|
  {
    if order == [] {
    } else if order[0] in g.nodes && order[0] !in v.nodes {
      var id := order[0];
      ElemsCons(order);
      DeleteNodeSpec(g, id);
      TouchingIsLists(g, id);
      var h1 := DeleteNode(g, id).value;
      DropNodesSpec(h1, v, order[1..]);
      var p := DropNodes(h1, v, order[1..], true).value;
      var node := g.nodes[id];
      assert DropNodes(g, v, order, true).value == (p.0, {id} + p.1, Elems(node.inputArcs) + Elems(node.outputArcs) + p.2);
      DropNodesStep(g, v, order, h1, p.0, p.1, p.2);
    } else {
      ElemsCons(order);
      DropNodesSpec(g, v, order[1..]);
      var p := DropNodes(g, v, order[1..], true).value;
      DropNodesSkip(g, v, order, p.0, p.1, p.2);
    }
  }

  lemma DropNodesStep(g: Graph, v: Graph, order: seq<Id>, h1: Graph, h: Graph, N: set<Id>, A: set<Id>)
    requires order != [] && order[0] in g.nodes && order[0] !in v.nodes && order[0] !in order[1..]
    requires forall y :: y in order[1..] ==> y in order
    requires RemovedNode(g, h1, order[0], Touching(g, order[0]))
    requires forall k :: k in h.nodes <==> k in h1.nodes && !Dropped(h1, v, order[1..], k)
    requires forall k :: k in h.nodes ==> SameRecord(h1.nodes[k], h.nodes[k])
    requires forall x :: x in h.arcs <==> x in h1.arcs && !Cut(h1, v, order[1..], x)
    requires forall x :: x in h.arcs ==> h.arcs[x] == h1.arcs[x]
    requires forall k :: k in N <==> Dropped(h1, v, order[1..], k)
    requires forall x :: x in A <==> x in h1.arcs && Cut(h1, v, order[1..], x)
    ensures forall k :: k in h.nodes <==> k in g.nodes && !Dropped(g, v, order, k)
    ensures forall k :: k in h.nodes ==> SameRecord(g.nodes[k], h.nodes[k])
    ensures forall x :: x in h.arcs <==> x in g.arcs && !Cut(g, v, order, x)
    ensures forall x :: x in h.arcs ==> h.arcs[x] == g.arcs[x]
    ensures forall k :: k in {order[0]} + N <==> Dropped(g, v, order, k)
    ensures forall x :: x in Touching(g, order[0]) + A <==> x in g.arcs && Cut(g, v, order, x)
  {
    var id := order[0];
    assert forall k :: Dropped(h1, v, order[1..], k) <==> Dropped(g, v, order, k) && k != id;
    forall x | x in h1.arcs ensures Cut(h1, v, order[1..], x) <==> Cut(g, v, order, x) {
      assert h1.arcs[x] == g.arcs[x];
      assert x !in Touching(g, id);
    }
    forall x | x in g.arcs && x !in h1.arcs ensures Cut(g, v, order, x) {
      assert x in Touching(g, id);
    }
  }

  lemma DropNodesSkip(g: Graph, v: Graph, order: seq<Id>, h: Graph, N: set<Id>, A: set<Id>)
    requires order != [] && !(order[0] in g.nodes && order[0] !in v.nodes) && order[0] !in order[1..]
    requires forall y :: y in order[1..] ==> y in order
    requires forall k :: k in h.nodes <==> k in g.nodes && !Dropped(g, v, order[1..], k)
    requires forall x :: x in h.arcs <==> x in g.arcs && !Cut(g, v, order[1..], x)
    requires forall k :: k in N <==> Dropped(g, v, order[1..], k)
    requires forall x :: x in A <==> x in g.arcs && Cut(g, v, order[1..], x)
    ensures forall k :: k in h.nodes <==> k in g.nodes && !Dropped(g, v, order, k)
    ensures forall x :: x in h.arcs <==> x in g.arcs && !Cut(g, v, order, x)
    ensures forall k :: k in N <==> Dropped(g, v, order, k)
    ensures forall x :: x in A <==> x in g.arcs && Cut(g, v, order, x)
  {
    assert forall k :: Dropped(g, v, order[1..], k) <==> Dropped(g, v, order, k);
  }

  // ---------------------------------------------------------------------------
  // Pass 3: the snapshot's arcs

  /** How pass 3 re-points an existing arc that compares unequal to the snapshot's. As written
      (moveLists false) only the record changes: an arc given new endpoints stays in the lists
      of its old ones. Corrected (moveLists true) an arc whose endpoints change leaves those
      lists and joins the new start's outputArcs and the new end's inputArcs, as reverseArc
      does; an arc that keeps its endpoints is updated in place either way. */
  function Repoint(g: Graph, x: Id, d: Arc, moveLists: bool): (r: Result<Graph>)
    requires x in g.arcs
    ensures r.Ok? ==> r.value.arcs == g.arcs[x := Arc(x, d.startNode, d.endNode, d.params)]
    ensures r.Ok? ==> r.value.nodes.Keys == g.nodes.Keys && r.value.arcOrder == g.arcOrder
    ensures r.Ok? ==> r.value.lastNodeId == g.lastNodeId && r.value.lastArcId == g.lastArcId
    ensures !moveLists || SameEnds(g.arcs[x], d) ==> r == Ok(g.(arcs := g.arcs[x := Arc(x, d.startNode, d.endNode, d.params)]))
  {
    var a := Arc(x, d.startNode, d.endNode, d.params);
    if !moveLists || SameEnds(g.arcs[x], d) then Ok(g.(arcs := g.arcs[x := a]))
    else if d.startNode !in g.nodes || d.endNode !in g.nodes then Err(Unresolved)
    else
      var h :- DeleteArc(g, x);
      Ok(AddArc(h, x, a).(arcOrder := g.arcOrder))
  }

  /** Two arc records join the same start node to the same end node. */
  predicate SameEnds(a: Arc, b: Arc) {
    a.startNode == b.startNode && a.endNode == b.endNode
  }

  /** One step of pass 3: an arc missing from the live graph is created between the live nodes
      with the snapshot's endpoint ids, under the snapshot record's id; an arc that compares
      unequal is re-pointed. The flag tells whether the id goes into the change set. */
  function SyncArc(g: Graph, id: Id, d: Arc, moveLists: bool): (r: Result<(Graph, bool)>)
    ensures r.Ok? ==> (r.value.1 <==> id !in g.arcs || !ArcCompare(g.arcs[id], d))
    ensures r.Ok? ==> r.value.0.nodes.Keys == g.nodes.Keys && r.value.0.lastNodeId == g.lastNodeId
    ensures r.Ok? && d.id == id && id != 0 && (id in g.arcs ==> g.arcs[id].id == id) ==>
      r.value.0.arcs == g.arcs[id := d]
  {
    assert d.id == id ==> d == Arc(id, d.startNode, d.endNode, d.params);
    if id !in g.arcs then
      var p :- CreateArc(g, d.startNode, d.endNode, d.params, IdArgOf(d.id));
      Ok((p.0, true))
    else if !ArcCompare(g.arcs[id], d) then
      var h :- Repoint(g, id, d, moveLists);
      Ok((h, true))
    else
      assert d.id == id && g.arcs[id].id == id ==> g.arcs[id] == d;
      Ok((g, false))
  }

  /** Pass 3 over the snapshot's arc order. */
  function SyncArcs(g: Graph, v: Graph, order: seq<Id>, moveLists: bool): (r: Result<(Graph, set<Id>)>)
    ensures r.Ok? ==> r.value.0.nodes.Keys == g.nodes.Keys && r.value.0.lastNodeId == g.lastNodeId
    decreases |order|
  {
    if order == [] then Ok((g, {}))
    else if order[0] !in v.arcs then SyncArcs(g, v, order[1..], moveLists)
    else
      var p :- SyncArc(g, order[0], v.arcs[order[0]], moveLists);
      var q :- SyncArcs(p.0, v, order[1..], moveLists);
      Ok((q.0, if p.1 then {order[0]} + q.1 else q.1))
  }

  /** Moving a live arc to new live endpoints keeps the graph valid and every node record. */
  lemma MoveArcKeepsValid(g: Graph, x: Id, d: Arc)
    requires Valid(g) && x in g.arcs && d.startNode in g.nodes && d.endNode in g.nodes
    ensures Repoint(g, x, d, true).Ok?
    ensures var h := Repoint(g, x, d, true).value;
      Valid(h) && forall k :: k in g.nodes ==> SameRecord(g.nodes[k], h.nodes[k])
  {
    var a := Arc(x, d.startNode, d.endNode, d.params);
    if SameEnds(g.arcs[x], d) {
      RetagKeepsValid(g, x, a);
    } else {
      DeleteArcKeepsValid(g, {}, x);
      var del := DeleteArc(g, x).value;
      AddArcKeepsAdjacency(del, {}, x, a);
      var H := AddArc(del, x, a);
      var h := H.(arcOrder := g.arcOrder);
      assert Repoint(g, x, d, true) == Ok(h);
      SameAdjacency(H, h, {});
      MovedKeys(g, del, h, x, a);
    }
  }

  /** Giving a live arc new params under the same endpoints keeps the graph valid. */
  lemma RetagKeepsValid(g: Graph, x: Id, a: Arc)
    requires Valid(g) && x in g.arcs && a.id == x && SameEnds(g.arcs[x], a)
    ensures Valid(g.(arcs := g.arcs[x := a]))
  {
    var h := g.(arcs := g.arcs[x := a]);
    assert forall y :: y in h.arcs ==>
      Tail(h.arcs[y], y in {}) == Tail(g.arcs[y], y in {}) && Head(h.arcs[y], y in {}) == Head(g.arcs[y], y in {});
    assert ArcIdsOk(h) && ArcOrderOk(h);
  }

  lemma MovedKeys(g: Graph, del: Graph, h: Graph, x: Id, a: Arc)
    requires KeysOk(g) && x in g.arcs && a.id == x
    requires NodesWithout(g, del, {x}) && del.nodes.Keys == h.nodes.Keys
    requires forall k :: k in del.nodes ==> SameRecord(del.nodes[k], h.nodes[k])
    requires h.arcs == g.arcs[x := a] && h.arcOrder == g.arcOrder && h.nodeOrder == g.nodeOrder
    requires h.lastNodeId == g.lastNodeId && h.lastArcId == g.lastArcId
    ensures KeysOk(h) && forall k :: k in g.nodes ==> SameRecord(g.nodes[k], h.nodes[k])
  {
    assert NodeIdsOk(h) by {
      forall k | k in h.nodes ensures h.nodes[k].id == g.nodes[k].id {
      }
    }
  }

  /** In a graph whose ids are in order every arc record carries its own key. */
  ghost predicate ArcsKeyed(v: Graph) {
    forall x :: x in v.arcs ==> v.arcs[x].id == x && x != 0
  }

  /** One corrected step of pass 3 on a valid graph succeeds and stores the snapshot's record. */
  lemma SyncArcSpec(g: Graph, id: Id, d: Arc)
    requires Valid(g) && d.id == id && id != 0 && d.startNode in g.nodes && d.endNode in g.nodes
    ensures SyncArc(g, id, d, true).Ok?
    ensures var h := SyncArc(g, id, d, true).value.0;
      && Valid(h) && h.arcs == g.arcs[id := d] && h.lastArcId >= g.lastArcId
      && (forall k :: k in g.nodes ==> SameRecord(g.nodes[k], h.nodes[k]))
  {
    assert d == Arc(id, d.startNode, d.endNode, d.params);
    if id !in g.arcs {
      CreateArcKeepsAdjacency(g, {}, d.startNode, d.endNode, d.params, IdArgOf(d.id));
    } else if !ArcCompare(g.arcs[id], d) {
      MoveArcKeepsValid(g, id, d);
    }
  }

  /** Corrected pass 3 on a valid graph whose nodes include every endpoint of the snapshot
      succeeds, keeps the graph valid and keeps every node record. */
  lemma {:induction false} SyncArcsValid(g: Graph, v: Graph, order: seq<Id>)
    requires Valid(g) && ArcsKeyed(v)
    requires forall x :: x in v.arcs ==> v.arcs[x].startNode in g.nodes && v.arcs[x].endNode in g.nodes
    ensures SyncArcs(g, v, order, true).Ok?
    ensures var h := SyncArcs(g, v, order, true).value.0;
      && Valid(h) && h.lastArcId >= g.lastArcId
      && (forall k :: k in g.nodes ==> SameRecord(g.nodes[k], h.nodes[k]))
    decreases |order|
  {
    if order != [] {
      if order[0] in v.arcs {
        var id := order[0];
        SyncArcSpec(g, id, v.arcs[id]);
        var h1 := SyncArc(g, id, v.arcs[id], true).value.0;
        SyncArcsValid(h1, v, order[1..]);
      } else {
        SyncArcsValid(g, v, order[1..]);
      }
    }
  }

  /** Corrected pass 3 gives every arc of the order the snapshot's record, leaves every other
      arc alone, and reports exactly the ids whose arc was missing or compared unequal. */
  lemma {:induction false} SyncArcsSpec(g: Graph, v: Graph, order: seq<Id>)
    requires ArcsKeyed(g) && ArcsKeyed(v) && Distinct(order) && SyncArcs(g, v, order, true).Ok?
    ensures var (h, C) := SyncArcs(g, v, order, true).value;
      && (forall x :: x in h.arcs <==> x in g.arcs || (x in order && x in v.arcs))
      && (forall x :: x in order && x in v.arcs ==> h.arcs[x] == v.arcs[x])
      && (forall x :: x in g.arcs && !(x in order && x in v.arcs) ==> h.arcs[x] == g.arcs[x])
      && (forall x :: x in C <==> x in order && x in v.arcs && ArcChanged(g, v, x))
    decreases |order|
  {
    if order == [] {
    } else if order[0] !in v.arcs {
      ElemsCons(order);
      SyncArcsSpec(g, v, order[1..]);
    } else {
      var id := order[0];
      ElemsCons(order);
      var p := SyncArc(g, id, v.arcs[id], true).value;
      SyncArcsSpec(p.0, v, order[1..]);
      var q := SyncArcs(p.0, v, order[1..], true).value;
      assert SyncArcs(g, v, order, true) == Ok((q.0, if p.1 then {id} + q.1 else q.1));
      SyncArcsStep(g, v, order, p.0, q.0, q.1, p.1);
    }
  }

  lemma SyncArcsStep(g: Graph, v: Graph, order: seq<Id>, h1: Graph, h: Graph, C1: set<Id>, changed: bool)
    requires order != [] && order[0] in v.arcs && order[0] !in order[1..]
    requires forall y :: y in order[1..] ==> y in order
    requires changed <==> order[0] !in g.arcs || !ArcCompare(g.arcs[order[0]], v.arcs[order[0]])
    requires h1.arcs == g.arcs[order[0] := v.arcs[order[0]]]
    requires forall x :: x in h.arcs <==> x in h1.arcs || (x in order[1..] && x in v.arcs)
    requires forall x :: x in order[1..] && x in v.arcs ==> h.arcs[x] == v.arcs[x]
    requires forall x :: x in h1.arcs && !(x in order[1..] && x in v.arcs) ==> h.arcs[x] == h1.arcs[x]
    requires forall x :: x in C1 <==> x in order[1..] && x in v.arcs && ArcChanged(h1, v, x)
    ensures forall x :: x in h.arcs <==> x in g.arcs || (x in order && x in v.arcs)
    ensures forall x :: x in order && x in v.arcs ==> h.arcs[x] == v.arcs[x]
    ensures forall x :: x in g.arcs && !(x in order && x in v.arcs) ==> h.arcs[x] == g.arcs[x]
    ensures forall x :: x in (if changed then {order[0]} + C1 else C1) <==>
      x in order && x in v.arcs && ArcChanged(g, v, x)
  {
    var id := order[0];
    forall x | x in order[1..] && x in v.arcs
      ensures ArcChanged(h1, v, x) <==> ArcChanged(g, v, x)
    {
      assert x != id;
    }
  }

  // ---------------------------------------------------------------------------
  // Pass 4: arcs the snapshot lacks

  /** Pass 4 over the live arc order: a live arc the snapshot lacks is deleted and reported. */
  function DropArcs(g: Graph, v: Graph, order: seq<Id>): (r: Result<(Graph, set<Id>)>)
    ensures r.Ok? ==> r.value.0.nodes.Keys == g.nodes.Keys
    ensures r.Ok? ==> r.value.0.lastNodeId == g.lastNodeId && r.value.0.lastArcId == g.lastArcId
    decreases |order|
  {
    if order == [] then Ok((g, {}))
    else if order[0] in g.arcs && order[0] !in v.arcs then
      var h :- DeleteArc(g, order[0]);
      var p :- DropArcs(h, v, order[1..]);
      Ok((p.0, {order[0]} + p.1))
    else DropArcs(g, v, order[1..])
  }

  /** Pass 4 on a valid graph succeeds, deletes and reports exactly the live arcs of the order
      that the snapshot lacks, keeps every other arc and every node record, and keeps the
      graph valid. */
  lemma {:induction false} DropArcsSpec(g: Graph, v: Graph, order: seq<Id>)
    requires Valid(g)
    ensures DropArcs(g, v, order).Ok?
    ensures var (h, C) := DropArcs(g, v, order).value;
      && Valid(h)
      && (forall k :: k in g.nodes ==> SameRecord(g.nodes[k], h.nodes[k]))
      && (forall x :: x in h.arcs <==> x in g.arcs && !(x in order && x !in v.arcs))
      && (forall x :: x in h.arcs ==> h.arcs[x] == g.arcs[x])
      && (forall x :: x in C <==> x in g.arcs && x in order && x !in v.arcs)
    decreases |order|
  {
    if order == [] {
    } else if order[0] in g.arcs && order[0] !in v.arcs {
      var id := order[0];
      DeleteArcKeepsValid(g, {}, id);
      var h1 := DeleteArc(g, id).value;
      DropArcsSpec(h1, v, order[1..]);
      var p := DropArcs(h1, v, order[1..]).value;
      assert DropArcs(g, v, order) == Ok((p.0, {id} + p.1));
      DropArcsStep(g, v, order, h1, p.0, p.1);
    } else {
      DropArcsSpec(g, v, order[1..]);
      var p := DropArcs(g, v, order[1..]).value;
      assert forall x :: x in order[1..] ==> x in order;
    }
  }

  lemma DropArcsStep(g: Graph, v: Graph, order: seq<Id>, h1: Graph, h: Graph, C1: set<Id>)
    requires order != [] && order[0] in g.arcs && order[0] !in v.arcs && h1.nodes.Keys == g.nodes.Keys
    requires h1.arcs == g.arcs - {order[0]} && NodesWithout(g, h1, {order[0]})
    requires h.nodes.Keys == h1.nodes.Keys
    requires forall k :: k in h1.nodes ==> SameRecord(h1.nodes[k], h.nodes[k])
    requires forall x :: x in h.arcs <==> x in h1.arcs && !(x in order[1..] && x !in v.arcs)
    requires forall x :: x in h.arcs ==> h.arcs[x] == h1.arcs[x]
    requires forall x :: x in C1 <==> x in h1.arcs && x in order[1..] && x !in v.arcs
    ensures forall k :: k in g.nodes ==> SameRecord(g.nodes[k], h.nodes[k])
    ensures forall x :: x in h.arcs <==> x in g.arcs && !(x in order && x !in v.arcs)
    ensures forall x :: x in h.arcs ==> h.arcs[x] == g.arcs[x]
    ensures forall x :: x in {order[0]} + C1 <==> x in g.arcs && x in order && x !in v.arcs
  {
    assert forall x :: x != order[0] ==> (x in order <==> x in order[1..]);
  }

  // ---------------------------------------------------------------------------
  // The four passes together

  /** changeToVersion(version): the four passes in turn, pass 2 over the node order and pass 4
      over the arc order the live graph has when the pass starts; the change set is the union
      of what they report. */
  function ApplyVersion(g: Graph, v: Graph, corrected: bool): (r: Result<(Graph, ChangeSet)>)
    ensures r.Ok? ==> r.value.0.lastNodeId >= g.lastNodeId
  {
    var (g1, n1) := SyncNodes(g, v, v.nodeOrder);
    var p2 :- DropNodes(g1, v, g1.nodeOrder, corrected);
    var p3 :- SyncArcs(p2.0, v, v.arcOrder, corrected);
    var p4 :- DropArcs(p3.0, v, p3.0.arcOrder);
    Ok((p4.0, ChangeSet(n1 + p2.1, p2.2 + p3.1 + p4.1)))
  }

  /** changeToVersion as written: pass 2 deletes nodes with deleteNode as written, and pass 3
      re-points arcs in place. */
  function ChangeToVersionAsWritten(g: Graph, v: Graph): (r: Result<(Graph, ChangeSet)>)
    ensures r.Ok? ==> r.value.0.lastNodeId >= g.lastNodeId
  {
    ApplyVersion(g, v, false)
  }

  /** changeToVersion corrected: pass 2 deletes nodes with the corrected deleteNode, and pass 3
      moves an arc whose endpoints change to the lists of its new endpoints. */
  function ChangeToVersion(g: Graph, v: Graph): (r: Result<(Graph, ChangeSet)>)
    ensures r.Ok? ==> r.value.0.lastNodeId >= g.lastNodeId
  {
    ApplyVersion(g, v, true)
  }

  /** An arc of g with an endpoint the snapshot lacks. */
  ghost predicate Orphaned(g: Graph, v: Graph, x: Id)
    requires x in g.arcs
  {
    g.arcs[x].startNode !in v.nodes || g.arcs[x].endNode !in v.nodes
  }

  /** Passes 1 and 2 on valid graphs: the live nodes become the snapshot's with its params and
      coords, the arcs left are those of g whose endpoints both survive, and the node ids
      reported are exactly the changed ones; the arcs reported are the orphaned ones. */
  lemma NodePasses(g: Graph, v: Graph)
    requires Valid(g) && Valid(v)
    ensures DropNodes(SyncNodes(g, v, v.nodeOrder).0, v, SyncNodes(g, v, v.nodeOrder).0.nodeOrder, true).Ok?
    ensures var (g1, n1) := SyncNodes(g, v, v.nodeOrder);
      var (h2, N2, A2) := DropNodes(g1, v, g1.nodeOrder, true).value;
      && Valid(h2) && h2.nodes.Keys == v.nodes.Keys
      && (forall k :: k in v.nodes ==> SameRecord(v.nodes[k], h2.nodes[k]))
      && (forall x :: x in h2.arcs <==> x in g.arcs && !Orphaned(g, v, x))
      && (forall x :: x in h2.arcs ==> h2.arcs[x] == g.arcs[x])
      && (forall k :: k in n1 + N2 <==> NodeChanged(g, v, k))
      && (forall x :: x in A2 <==> x in g.arcs && Orphaned(g, v, x))
      && h2.lastNodeId >= g.lastNodeId && h2.lastArcId == g.lastArcId
  {
    assert NodeOrderOk(v) && NodesKeyed(v);
    SyncNodesSpec(g, v, v.nodeOrder);
    var (g1, n1) := SyncNodes(g, v, v.nodeOrder);
    assert NodeOrderOk(g1);
    DropNodesSpec(g1, v, g1.nodeOrder);
    var (h2, N2, A2) := DropNodes(g1, v, g1.nodeOrder, true).value;
    NodePassesNodes(g, v, g1, n1, h2, N2);
    NodePassesArcs(g, v, g1, h2, A2);
  }

  lemma NodePassesNodes(g: Graph, v: Graph, g1: Graph, n1: set<Id>, h2: Graph, N2: set<Id>)
    requires Valid(g) && Valid(v) && NodeOrderOk(g1)
    requires forall k :: k in g1.nodes <==> k in g.nodes || (k in v.nodeOrder && k in v.nodes)
    requires forall k :: k in v.nodeOrder && k in v.nodes ==> NodeCompare(g1.nodes[k], v.nodes[k])
    requires forall k :: k in n1 <==> k in v.nodeOrder && k in v.nodes && NodeChanged(g, v, k)
    requires Valid(g1)
    requires forall k :: k in h2.nodes <==> k in g1.nodes && !Dropped(g1, v, g1.nodeOrder, k)
    requires forall k :: k in h2.nodes ==> SameRecord(g1.nodes[k], h2.nodes[k])
    requires forall k :: k in N2 <==> Dropped(g1, v, g1.nodeOrder, k)
    ensures h2.nodes.Keys == v.nodes.Keys
    ensures forall k :: k in v.nodes ==> SameRecord(v.nodes[k], h2.nodes[k])
    ensures forall k :: k in n1 + N2 <==> NodeChanged(g, v, k)
  {
    assert NodeOrderOk(v) && NodeIdsOk(v) && NodeIdsOk(g1);
    forall k | k in v.nodes ensures k in h2.nodes && SameRecord(v.nodes[k], h2.nodes[k]) {
      assert k in v.nodeOrder && v.nodes[k].id == k && g1.nodes[k].id == k;
    }
    forall k | k in h2.nodes ensures k in v.nodes {
      assert k in g1.nodeOrder;
    }
    forall k ensures k in n1 + N2 <==> NodeChanged(g, v, k) {
      if k in g.nodes && k !in v.nodes {
        assert k in g1.nodes && k in g1.nodeOrder;
      } else if k in v.nodes {
        assert k in v.nodeOrder;
      }
    }
  }

  lemma NodePassesArcs(g: Graph, v: Graph, g1: Graph, h2: Graph, A2: set<Id>)
    requires Valid(g) && NodeOrderOk(g1) && g1.arcs == g.arcs
    requires forall k :: k in g.nodes ==> k in g1.nodes
    requires forall x :: x in h2.arcs <==> x in g1.arcs && !Cut(g1, v, g1.nodeOrder, x)
    requires forall x :: x in A2 <==> x in g1.arcs && Cut(g1, v, g1.nodeOrder, x)
    ensures forall x :: x in h2.arcs <==> x in g.arcs && !Orphaned(g, v, x)
    ensures forall x :: x in A2 <==> x in g.arcs && Orphaned(g, v, x)
  {
    forall x | x in g.arcs ensures Cut(g1, v, g1.nodeOrder, x) <==> Orphaned(g, v, x) {
      assert Tail(g.arcs[x], x in {}) in g.nodes && Head(g.arcs[x], x in {}) in g.nodes;
    }
  }

  /** Passes 3 and 4 (corrected) on a valid graph holding exactly the snapshot's nodes: the
      arcs become the snapshot's, node records are kept, and the arc ids reported are exactly
      those that differ between the graph the passes start from and the snapshot. */
  lemma ArcPasses(h2: Graph, v: Graph)
    requires Valid(h2) && Valid(v) && h2.nodes.Keys == v.nodes.Keys
    ensures SyncArcs(h2, v, v.arcOrder, true).Ok?
    ensures DropArcs(SyncArcs(h2, v, v.arcOrder, true).value.0, v, SyncArcs(h2, v, v.arcOrder, true).value.0.arcOrder).Ok?
    ensures var (h3, C3) := SyncArcs(h2, v, v.arcOrder, true).value;
      var (h4, C4) := DropArcs(h3, v, h3.arcOrder).value;
      && Valid(h4) && h4.arcs == v.arcs && h4.nodes.Keys == h2.nodes.Keys
      && (forall k :: k in h2.nodes ==> SameRecord(h2.nodes[k], h4.nodes[k]))
      && h4.lastNodeId == h2.lastNodeId && h4.lastArcId >= h2.lastArcId
      && (forall x :: x in C3 + C4 <==> ArcChanged(h2, v, x))
  {
    assert ArcOrderOk(v) && ArcsKeyed(v) && ArcsKeyed(h2);
    assert forall x :: x in v.arcs ==> Tail(v.arcs[x], x in {}) in v.nodes && Head(v.arcs[x], x in {}) in v.nodes;
    SyncArcsValid(h2, v, v.arcOrder);
    SyncArcsSpec(h2, v, v.arcOrder);
    var (h3, C3) := SyncArcs(h2, v, v.arcOrder, true).value;
    assert ArcOrderOk(h3);
    DropArcsSpec(h3, v, h3.arcOrder);
    var (h4, C4) := DropArcs(h3, v, h3.arcOrder).value;
    ArcPassesResult(h2, v, h3, C3, h4, C4);
  }

  lemma ArcPassesResult(h2: Graph, v: Graph, h3: Graph, C3: set<Id>, h4: Graph, C4: set<Id>)
    requires ArcOrderOk(v) && ArcOrderOk(h3)
    requires forall x :: x in h3.arcs <==> x in h2.arcs || (x in v.arcOrder && x in v.arcs)
    requires forall x :: x in v.arcOrder && x in v.arcs ==> h3.arcs[x] == v.arcs[x]
    requires forall x :: x in C3 <==> x in v.arcOrder && x in v.arcs && ArcChanged(h2, v, x)
    requires forall x :: x in h4.arcs <==> x in h3.arcs && !(x in h3.arcOrder && x !in v.arcs)
    requires forall x :: x in h4.arcs ==> h4.arcs[x] == h3.arcs[x]
    requires forall x :: x in C4 <==> x in h3.arcs && x in h3.arcOrder && x !in v.arcs
    ensures h4.arcs == v.arcs
    ensures forall x :: x in C3 + C4 <==> ArcChanged(h2, v, x)
  {
    forall x | x in v.arcs ensures x in h4.arcs && h4.arcs[x] == v.arcs[x] {
      assert x in v.arcOrder;
      assert x in h3.arcs;
    }
    forall x | x in h4.arcs ensures x in v.arcs {
      assert x in h3.arcs;
      assert x in h3.arcOrder;
    }
    assert h4.arcs.Keys == v.arcs.Keys;
  }

  /** The arcs reported by passes 2 to 4 together are exactly the arcs that differ between g
      and the snapshot: an orphaned arc cannot compare equal to a snapshot arc, whose
      endpoints are snapshot nodes. */
  lemma ArcChangesCombine(g: Graph, v: Graph, h2: Graph, A2: set<Id>, C: set<Id>)
    requires Valid(v)
    requires forall x :: x in h2.arcs <==> x in g.arcs && !Orphaned(g, v, x)
    requires forall x :: x in h2.arcs ==> h2.arcs[x] == g.arcs[x]
    requires forall x :: x in A2 <==> x in g.arcs && Orphaned(g, v, x)
    requires forall x :: x in C <==> ArcChanged(h2, v, x)
    ensures forall x :: x in A2 + C <==> ArcChanged(g, v, x)
  {
    forall x | x in v.arcs ensures v.arcs[x].startNode in v.nodes && v.arcs[x].endNode in v.nodes {
      assert Tail(v.arcs[x], x in {}) in v.nodes && Head(v.arcs[x], x in {}) in v.nodes;
    }
  }

  /** changeToVersion on valid graphs succeeds and leaves a valid graph with exactly the
      snapshot's nodes (params and coords included) and exactly its arc records; neither
      counter goes down. The ids it reports are exactly the nodes and arcs that were added,
      removed or changed. */
  lemma ChangeToVersionSpec(g: Graph, v: Graph)
    requires Valid(g) && Valid(v)
    ensures ChangeToVersion(g, v).Ok?
    ensures var (h, c) := ChangeToVersion(g, v).value;
      && Valid(h) && h.nodes.Keys == v.nodes.Keys
      && (forall k :: k in v.nodes ==> SameRecord(v.nodes[k], h.nodes[k]))
      && h.arcs == v.arcs
      && h.lastNodeId >= g.lastNodeId && h.lastArcId >= g.lastArcId
      && (forall k :: k in c.nodes <==> NodeChanged(g, v, k))
      && (forall x :: x in c.arcs <==> ArcChanged(g, v, x))
  {
    NodePasses(g, v);
    var (g1, n1) := SyncNodes(g, v, v.nodeOrder);
    var (h2, N2, A2) := DropNodes(g1, v, g1.nodeOrder, true).value;
    ArcPasses(h2, v);
    var (h3, C3) := SyncArcs(h2, v, v.arcOrder, true).value;
    var (h4, C4) := DropArcs(h3, v, h3.arcOrder).value;
    assert ChangeToVersion(g, v) == Ok((h4, ChangeSet(n1 + N2, A2 + C3 + C4)));
    ArcChangesCombine(g, v, h2, A2, C3 + C4);
    assert A2 + C3 + C4 == A2 + (C3 + C4);
  }

  /** Hence the graph after changeToVersion compares equal to the snapshot. */
  lemma ChangeToVersionSameContent(g: Graph, v: Graph)
    requires Valid(g) && Valid(v)
    ensures ChangeToVersion(g, v).Ok? && SameContent(ChangeToVersion(g, v).value.0, v)
  {
    ChangeToVersionSpec(g, v);
  }

  // ---------------------------------------------------------------------------
  // Where changeToVersion as written agrees with the corrected one

  /** Every arc held by both the live graph and the snapshot joins the same two nodes in both. */
  ghost predicate NoArcMoved(g: Graph, v: Graph) {
    forall x :: x in g.arcs && x in v.arcs ==> SameEnds(g.arcs[x], v.arcs[x])
  }

  /** On a valid graph without self-loops, pass 2 as written does what the corrected one does. */
  lemma {:induction false} DropNodesAgrees(g: Graph, v: Graph, order: seq<Id>)
    requires Valid(g) && NoSelfLoops(g)
    ensures DropNodes(g, v, order, false) == DropNodes(g, v, order, true)
    decreases |order|
  {
    if order != [] {
      if order[0] in g.nodes && order[0] !in v.nodes {
        AsWrittenAgrees(g, order[0]);
        DeleteNodeSpec(g, order[0]);
        DropNodesAgrees(DeleteNode(g, order[0]).value, v, order[1..]);
      } else {
        DropNodesAgrees(g, v, order[1..]);
      }
    }
  }

  /** While no arc pass 3 meets has to change endpoints, re-pointing in place does what the
      corrected pass does. */
  lemma {:induction false} SyncArcsAgree(g: Graph, v: Graph, order: seq<Id>)
    requires ArcsKeyed(g) && ArcsKeyed(v) && NoArcMoved(g, v)
    ensures SyncArcs(g, v, order, false) == SyncArcs(g, v, order, true)
    decreases |order|
  {
    if order != [] {
      if order[0] in v.arcs {
        var id := order[0];
        var d := v.arcs[id];
        assert SyncArc(g, id, d, false) == SyncArc(g, id, d, true);
        var p := SyncArc(g, id, d, true);
        if p.Ok? {
          var h := p.value.0;
          assert h.arcs == g.arcs[id := d];
          assert ArcsKeyed(h) && NoArcMoved(h, v);
          SyncArcsAgree(h, v, order[1..]);
        }
      } else {
        SyncArcsAgree(g, v, order[1..]);
      }
    }
  }

  /** changeToVersion as written gives the same graph and reports the same ids as the
      corrected one whenever the live graph has no self-loop and no arc has to change its
      endpoints. */
  lemma ChangeToVersionAgrees(g: Graph, v: Graph)
    requires Valid(g) && Valid(v) && NoSelfLoops(g) && NoArcMoved(g, v)
    ensures ChangeToVersionAsWritten(g, v) == ChangeToVersion(g, v)
  {
    assert NodeOrderOk(v) && NodesKeyed(v);
    SyncNodesSpec(g, v, v.nodeOrder);
    var (g1, n1) := SyncNodes(g, v, v.nodeOrder);
    assert NoSelfLoops(g1);
    DropNodesAgrees(g1, v, g1.nodeOrder);
    NodePasses(g, v);
    var (h2, N2, A2) := DropNodes(g1, v, g1.nodeOrder, true).value;
    assert ArcsKeyed(h2) && ArcsKeyed(v) && NoArcMoved(h2, v);
    SyncArcsAgree(h2, v, v.arcOrder);
  }

  // ---------------------------------------------------------------------------
  // Re-pointing in place leaves stale lists

  /** Nodes 1 and 2 joined by arc 1 from s to e, with the lists to match. */
  function OneArc(s: Id, e: Id): (g: Graph)
    requires (s == 1 && e == 2) || (s == 2 && e == 1)
    ensures g.nodes.Keys == {1, 2} && g.arcs.Keys == {1}
  {
    Graph(
      map[s := Node(s, [], Origin, [], [1]), e := Node(e, [], Origin, [1], [])], [1, 2],
      map[1 := Arc(1, s, e, [])], [1],
      2, 1)
  }

  lemma OneArcValid(s: Id, e: Id)
    requires (s == 1 && e == 2) || (s == 2 && e == 1)
    ensures Valid(OneArc(s, e))
  {
    OneArcKeys(s, e);
    OneArcSound(s, e);
    OneArcPlaced(s, e);
  }

  lemma OneArcKeys(s: Id, e: Id)
    requires (s == 1 && e == 2) || (s == 2 && e == 1)
    ensures KeysOk(OneArc(s, e))
  {
    var G := OneArc(s, e);
    assert forall k :: k in G.nodeOrder <==> k == 1 || k == 2;
    assert forall k :: k in G.arcOrder <==> k == 1;
    forall k | k in G.nodes ensures G.nodes[k].id == k && k != 0 && k <= G.lastNodeId {
      assert k == 1 || k == 2;
    }
  }

  lemma OneArcSound(s: Id, e: Id)
    requires (s == 1 && e == 2) || (s == 2 && e == 1)
    ensures InputsSound(OneArc(s, e), {}) && OutputsSound(OneArc(s, e), {}) && ListsDistinct(OneArc(s, e))
  {
    var G := OneArc(s, e);
    forall k, x | k in G.nodes && x in G.nodes[k].inputArcs ensures x in G.arcs && Head(G.arcs[x], x in {}) == k {
      assert k == e && x == 1;
    }
    forall k, x | k in G.nodes && x in G.nodes[k].outputArcs ensures x in G.arcs && Tail(G.arcs[x], x in {}) == k {
      assert k == s && x == 1;
    }
  }

  lemma OneArcPlaced(s: Id, e: Id)
    requires (s == 1 && e == 2) || (s == 2 && e == 1)
    ensures ArcsPlaced(OneArc(s, e), {})
  {
    var G := OneArc(s, e);
    forall x | x in G.arcs
      ensures Tail(G.arcs[x], x in {}) in G.nodes && Head(G.arcs[x], x in {}) in G.nodes
      ensures x in G.nodes[Tail(G.arcs[x], x in {})].outputArcs && x in G.nodes[Head(G.arcs[x], x in {})].inputArcs
    {
      assert x == 1;
    }
  }

  /** Changing to the version where arc 1 points the other way: done as written, arc 1 gets
      its new endpoints but stays in the output list of node 1 and the input list of node 2,
      so the graph is no longer consistent; the corrected pass moves it and the result is the
      version itself. */
  lemma RepointLeavesStaleLists()
    ensures Valid(OneArc(1, 2)) && Valid(OneArc(2, 1))
    ensures ChangeToVersionAsWritten(OneArc(1, 2), OneArc(2, 1)).Ok?
    ensures var h := ChangeToVersionAsWritten(OneArc(1, 2), OneArc(2, 1)).value.0;
      h.arcs[1] == Arc(1, 2, 1, []) && 1 in h.nodes[1].outputArcs && !Valid(h)
    ensures ChangeToVersion(OneArc(1, 2), OneArc(2, 1)).Ok?
    ensures var h := ChangeToVersion(OneArc(1, 2), OneArc(2, 1)).value.0;
      Valid(h) && h.arcs == OneArc(2, 1).arcs
  {
    OneArcValid(1, 2);
    OneArcValid(2, 1);
    ChangeToVersionSpec(OneArc(1, 2), OneArc(2, 1));
    var h := StaleRepoint();
    assert 1 in h.nodes[1].outputArcs && Tail(h.arcs[1], 1 in {}) != 1;
  }

  lemma StaleRepoint() returns (h: Graph)
    ensures ChangeToVersionAsWritten(OneArc(1, 2), OneArc(2, 1)) == Ok((h, ChangeSet({}, {1})))
    ensures h.arcs == map[1 := Arc(1, 2, 1, [])] && h.nodes == OneArc(1, 2).nodes
  {
    var G, V := OneArc(1, 2), OneArc(2, 1);
    assert SyncNodes(G, V, [2]) == (G, {});
    assert SyncNodes(G, V, [1, 2]) == (G, {});
    assert DropNodes(G, V, [2], false) == Ok((G, {}, {}));
    assert DropNodes(G, V, [1, 2], false) == Ok((G, {}, {}));
    h := StalePass3();
    assert DropArcs(h, V, []) == Ok((h, {}));
    assert DropArcs(h, V, [1]) == Ok((h, {}));
    assert G.nodeOrder == [1, 2] && V.arcOrder == [1] && h.arcOrder == [1];
    var none: set<Id> := {};
    assert ApplyVersion(G, V, false) == Ok((h, ChangeSet(none + none, none + {1} + none)));
    assert none + none == {} && none + {1} + none == {1};
  }

  lemma StalePass3() returns (h: Graph)
    ensures SyncArcs(OneArc(1, 2), OneArc(2, 1), [1], false) == Ok((h, {1}))
    ensures h == OneArc(1, 2).(arcs := OneArc(1, 2).arcs[1 := Arc(1, 2, 1, [])])
    ensures h.arcs == map[1 := Arc(1, 2, 1, [])]
  {
    var G, V := OneArc(1, 2), OneArc(2, 1);
    h := G.(arcs := G.arcs[1 := Arc(1, 2, 1, [])]);
    var d := V.arcs[1];
    assert d == Arc(1, 2, 1, []) && !ArcCompare(G.arcs[1], d);
    assert Repoint(G, 1, d, false) == Ok(h);
    assert SyncArc(G, 1, d, false) == Ok((h, true));
    assert SyncArcs(h, V, [1][1..], false) == Ok((h, {}));
    assert [1][0] == 1 && 1 in V.arcs;
    assert SyncArcs(G, V, [1], false) == Ok((h, {1} + {}));
    assert {1} + {} == {1};
  }

  /** Changing SelfLoopGraph into the empty graph as written throws: pass 2 deletes node 1 as
      written, which keeps arc 2, and deleting node 2 then looks for arc 2 in the lists of the
      deleted node 1. The corrected changeToVersion succeeds. */
  lemma DropSelfLoopThrows()
    ensures Valid(SelfLoopGraph) && Valid(EmptyGraph)
    ensures ChangeToVersionAsWritten(SelfLoopGraph, EmptyGraph) == Err(NoSuchElement)
    ensures ChangeToVersion(SelfLoopGraph, EmptyGraph).Ok?
  {
    SelfLoopGraphValid();
    assert Valid(EmptyGraph);
    ChangeToVersionSpec(SelfLoopGraph, EmptyGraph);
    DropPassThrows();
    assert SyncNodes(SelfLoopGraph, EmptyGraph, EmptyGraph.nodeOrder) == (SelfLoopGraph, {});
  }

  lemma DropPassThrows()
    ensures DropNodes(SelfLoopGraph, EmptyGraph, SelfLoopGraph.nodeOrder, false) == Err(NoSuchElement)
  {
    var h := SelfLoopLeft();
    SecondDeleteThrows(h);
    assert DeleteNodeBy(h, 2, false) == Err(NoSuchElement);
    assert DropNodes(h, EmptyGraph, [2], false) == Err(NoSuchElement);
    assert [1, 2][1..] == [2];
  }
}
