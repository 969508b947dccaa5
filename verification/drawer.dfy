/** The graph-level logic of GraphDrawer in modules/graph/graph-drawer.js: the two selection
    sets, the bulk edits on the selection, and the reconciliation of the element maps with the
    graph after a change of version. Painting is a no-op and each element map is reduced to
    the set of its keys; the arc and arrow maps always hold the same ids and are one set here. */
module Drawing {
  import opened Wrappers
  import opened Seqs
  import opened Graphs
  import opened Isolation
  import opened Changes
  import opened Documents
  import opened Loading
  import opened Snapshots
  import Versions

  /** The drawer: the versioned graph, the selected node and arc ids in Set insertion order,
      and the ids that have a node element or an arc (and arrow) element. */
  datatype Drawer = Drawer(
    history: Versions.History,
    selNodes: seq<Id>,
    selArcs: seq<Id>,
    nodeViews: set<Id>,
    arcViews: set<Id>)

  function GraphOf(d: Drawer): Graph {
    d.history.graph
  }

  /** The element maps hold exactly the graph's ids. */
  ghost predicate Synced(d: Drawer) {
    d.nodeViews == GraphOf(d).nodes.Keys && d.arcViews == GraphOf(d).arcs.Keys
  }

  /** The drawer's invariant: a consistent history, element maps in line with the graph, and
      selections without repeats (they are Sets). */
  ghost predicate DrawerOk(d: Drawer) {
    Versions.HistoryOk(d.history) && Synced(d) && Distinct(d.selNodes) && Distinct(d.selArcs)
  }

  // ---------------------------------------------------------------------------
  // Selection

  /** `set.add(id)`: a new id goes last, a selected one keeps its place. */
  function Select(sel: seq<Id>, id: Id): (r: seq<Id>)
    ensures forall y :: y in r <==> y in sel || y == id
    ensures Distinct(sel) ==> Distinct(r)
    ensures id in sel ==> r == sel
  {
    PutOrder(sel, id in sel, id)
  }

  /** `set.delete(id)`. */
  function Deselect(sel: seq<Id>, id: Id): (r: seq<Id>)
    ensures Distinct(sel) ==> Distinct(r) && forall y :: y in r <==> y in sel && y != id
    ensures id !in sel ==> r == sel
  {
    RemoveFirst(sel, id)
  }

  /** changeNodeSelection / changeArcSelection: flips the membership of id, leaving every
      other id as it was. */
  function Toggle(sel: seq<Id>, id: Id): (r: seq<Id>)
    requires Distinct(sel)
    ensures Distinct(r)
    ensures id in r <==> id !in sel
    ensures forall y :: y != id ==> (y in r <==> y in sel)
  {
    if id in sel then Deselect(sel, id) else Select(sel, id)
  }

  /** Toggling twice restores the selected set; an id that was not selected also leaves the
      order as it was, while a selected one moves to the end. */
  lemma ToggleTwice(sel: seq<Id>, id: Id)
    requires Distinct(sel)
    ensures Elems(Toggle(Toggle(sel, id), id)) == Elems(sel)
    ensures id !in sel ==> Toggle(Toggle(sel, id), id) == sel
    ensures id in sel ==> Toggle(Toggle(sel, id), id) == RemoveFirst(sel, id) + [id]
  {
    if id !in sel {
      RemoveLastAdded(sel, id);
    }
  }

  lemma {:induction false} RemoveLastAdded(s: seq<Id>, x: Id)
    requires x !in s
    ensures RemoveFirst(s + [x], x) == s
  {
    if s != [] {
      assert (s + [x])[0] == s[0] && (s + [x])[1..] == s[1..] + [x];
      RemoveLastAdded(s[1..], x);
    }
  }

  /** The selected ids that resolve in m, in selection order: removeNonExistent*FromSelection
      deletes the current entry of the Set it walks, which the walk tolerates. */
  function Prune<V>(sel: seq<Id>, m: map<Id, V>): (r: seq<Id>)
    ensures |r| <= |sel|
    decreases |sel|
  {
    if sel == [] then []
    else if sel[0] in m then [sel[0]] + Prune(sel[1..], m)
    else Prune(sel[1..], m)
  }

  /** Pruning keeps exactly the selected ids that resolve, without repeats, in their order. */
  lemma {:induction false} PruneSpec<V>(sel: seq<Id>, m: map<Id, V>)
    ensures forall y :: y in Prune(sel, m) <==> y in sel && y in m
    ensures Distinct(sel) ==> Distinct(Prune(sel, m))
    ensures (forall y :: y in sel ==> y in m) ==> Prune(sel, m) == sel
    decreases |sel|
  {
    if sel != [] {
      PruneSpec(sel[1..], m);
      assert forall y :: y in sel <==> y == sel[0] || y in sel[1..];
      if (forall y :: y in sel ==> y in m) {
        assert sel == [sel[0]] + sel[1..];
      }
      if Distinct(sel) {
        assert Distinct(sel[1..]) && sel[0] !in sel[1..];
      }
    }
  }

  /** The deselect loops of clearSelection: each entry is looked up and the lookup is
      dereferenced, so an id that no longer resolves throws; otherwise every entry is deleted. */
  function DeselectEach<V>(sel: seq<Id>, m: map<Id, V>): (r: Result<seq<Id>>)
    ensures r.Ok? ==> r.value == []
    ensures r.Err? ==> r.error == Unresolved
    decreases |sel|
  {
    if sel == [] then Ok([])
    else if sel[0] !in m then Err(Unresolved)
    else DeselectEach(sel[1..], m)
  }

  lemma {:induction false} DeselectEachSpec<V>(sel: seq<Id>, m: map<Id, V>)
    ensures DeselectEach(sel, m).Ok? <==> forall y :: y in sel ==> y in m
    decreases |sel|
  {
    if sel != [] {
      DeselectEachSpec(sel[1..], m);
      assert forall y :: y in sel <==> y == sel[0] || y in sel[1..];
    }
  }

  /** clearSelection(): the nodes first, then the arcs. */
  function ClearSelection(d: Drawer): (r: Result<Drawer>)
    ensures r.Ok? ==> r.value == d.(selNodes := [], selArcs := [])
  {
    var n :- DeselectEach(d.selNodes, GraphOf(d).nodes);
    var a :- DeselectEach(d.selArcs, GraphOf(d).arcs);
    Ok(d.(selNodes := n, selArcs := a))
  }

  /** clearSelection succeeds exactly when every selected id resolves in the graph. */
  lemma ClearSelectionSpec(d: Drawer)
    ensures ClearSelection(d).Ok? <==>
      (forall k :: k in d.selNodes ==> k in GraphOf(d).nodes) &&
      (forall x :: x in d.selArcs ==> x in GraphOf(d).arcs)
    ensures ClearSelection(d).Err? ==> ClearSelection(d).error == Unresolved
  {
    DeselectEachSpec(d.selNodes, GraphOf(d).nodes);
    DeselectEachSpec(d.selArcs, GraphOf(d).arcs);
  }

  // ---------------------------------------------------------------------------
  // Deletion

  function WithGraph(d: Drawer, g: Graph): (r: Drawer)
    ensures GraphOf(r) == g
  {
    d.(history := d.history.(graph := g))
  }

  /** Everything but the graph and the element maps is as it was. */
  ghost predicate Rest(d: Drawer, r: Drawer) {
    && r.history.backups == d.history.backups && r.history.updates == d.history.updates
    && r.history.maxBackups == d.history.maxBackups && r.history.maxUpdates == d.history.maxUpdates
    && r.selNodes == d.selNodes && r.selArcs == d.selArcs
  }

  /** deleteArc(arc) of the drawer: the arc element and the arrow element are removed (a
      missing one is dereferenced and throws), then the graph deletes the arc. */
  function DeleteArcWithView(d: Drawer, x: Id): (r: Result<Drawer>)
    ensures x !in d.arcViews ==> r == Err(Unresolved)
    ensures r.Ok? ==> r.value.nodeViews == d.nodeViews && r.value.arcViews == d.arcViews - {x}
    ensures r.Ok? ==> Rest(d, r.value)
  {
    if x !in d.arcViews then Err(Unresolved)
    else
      var g :- DeleteArc(GraphOf(d), x);
      Ok(WithGraph(d, g).(arcViews := d.arcViews - {x}))
  }

  /** The arcs collected by forEachNodeArc, deleted one by one. */
  function DeleteArcsWithViews(d: Drawer, xs: seq<Id>): (r: Result<Drawer>)
    ensures r.Ok? ==> r.value.nodeViews == d.nodeViews && Rest(d, r.value)
    decreases |xs|
  {
    if xs == [] then Ok(d)
    else
      var d1 :- DeleteArcWithView(d, xs[0]);
      DeleteArcsWithViews(d1, xs[1..])
  }

  /** deleteNode(node) of the drawer: the node's input arcs and then its output arcs are
      deleted one at a time, then the node element, then the node itself. */
  function DeleteNodeWithViews(d: Drawer, n: Id): (r: Result<Drawer>)
    ensures n !in GraphOf(d).nodes ==> r == Err(Unresolved)
    ensures r.Ok? ==> r.value.nodeViews == d.nodeViews - {n} && Rest(d, r.value)
  {
    if n !in GraphOf(d).nodes then Err(Unresolved)
    else
      var node := GraphOf(d).nodes[n];
      var d1 :- DeleteArcsWithViews(d, node.inputArcs + node.outputArcs);
      RemoveNodeView(d1, n)
  }

  /** The end of the drawer's deleteNode: the node element, then the node. */
  function RemoveNodeView(d: Drawer, n: Id): (r: Result<Drawer>)
    ensures n !in d.nodeViews ==> r == Err(Unresolved)
    ensures r.Ok? ==> r.value.nodeViews == d.nodeViews - {n} && r.value.arcViews == d.arcViews
    ensures r.Ok? ==> Rest(d, r.value)
  {
    if n !in d.nodeViews then Err(Unresolved)
    else
      var g :- DeleteNode(GraphOf(d), n);
      Ok(WithGraph(d, g).(nodeViews := d.nodeViews - {n}))
  }

  /** h is g without the nodes N and the arcs R: h is consistent, every remaining node keeps
      its record, and no self-loop appears. */
  ghost predicate Shrunk(g: Graph, h: Graph, N: set<Id>, R: set<Id>) {
    && Valid(h)
    && h.nodes.Keys == g.nodes.Keys - N
    && h.arcs == g.arcs - R
    && (forall k :: k in h.nodes ==> SameRecord(g.nodes[k], h.nodes[k]))
    && (NoSelfLoops(g) ==> NoSelfLoops(h))
  }

  lemma ShrunkTrans(g: Graph, h: Graph, i: Graph, N1: set<Id>, R1: set<Id>, N2: set<Id>, R2: set<Id>)
    requires Shrunk(g, h, N1, R1) && Shrunk(h, i, N2, R2)
    ensures Shrunk(g, i, N1 + N2, R1 + R2)
  {
    assert i.arcs == g.arcs - (R1 + R2);
  }

  /** Deleting distinct live arcs from a consistent graph whose element maps are in line
      succeeds, removes exactly those arcs and their elements, keeps every node record, and
      keeps the graph consistent. */
  lemma {:induction false} DeleteArcsSpec(d: Drawer, xs: seq<Id>)
    requires Valid(GraphOf(d)) && Synced(d) && Distinct(xs)
    requires forall x :: x in xs ==> x in GraphOf(d).arcs
    ensures DeleteArcsWithViews(d, xs).Ok?
    ensures var r := DeleteArcsWithViews(d, xs).value;
      Synced(r) && Shrunk(GraphOf(d), GraphOf(r), {}, Elems(xs))
    decreases |xs|
  {
    if xs == [] {
      assert GraphOf(d).arcs - {} == GraphOf(d).arcs;
    } else {
      ElemsCons(xs);
      DeleteArcStep(d, xs[0]);
      var d1 := DeleteArcWithView(d, xs[0]).value;
      DeleteArcsSpec(d1, xs[1..]);
      var r := DeleteArcsWithViews(d1, xs[1..]).value;
      ShrunkTrans(GraphOf(d), GraphOf(d1), GraphOf(r), {}, {xs[0]}, {}, Elems(xs[1..]));
    }
  }

  lemma DeleteArcStep(d: Drawer, x: Id)
    requires Valid(GraphOf(d)) && Synced(d) && x in GraphOf(d).arcs
    ensures DeleteArcWithView(d, x).Ok?
    ensures var r := DeleteArcWithView(d, x).value;
      Synced(r) && Shrunk(GraphOf(d), GraphOf(r), {}, {x})
  {
    DeleteArcKeepsValid(GraphOf(d), {}, x);
  }

  /** A node without a self-loop: its input and output lists share no arc. */
  ghost predicate NoLoopAt(g: Graph, n: Id) {
    forall x :: x in g.arcs && g.arcs[x].startNode == n ==> g.arcs[x].endNode != n
  }

  /** Deleting a node without a self-loop, with the element maps in line, succeeds: the node
      and exactly the arcs touching it are gone from the graph and from the element maps, the
      other node records are kept, and the graph stays consistent. */
  lemma DeleteNodeWithViewsSpec(d: Drawer, n: Id)
    requires Valid(GraphOf(d)) && Synced(d) && n in GraphOf(d).nodes && NoLoopAt(GraphOf(d), n)
    ensures DeleteNodeWithViews(d, n).Ok?
    ensures var r := DeleteNodeWithViews(d, n).value;
      Synced(r) && Shrunk(GraphOf(d), GraphOf(r), {n}, Touching(GraphOf(d), n))
  {
    var g := GraphOf(d);
    var xs := g.nodes[n].inputArcs + g.nodes[n].outputArcs;
    NodeArcsListed(g, n);
    DeleteArcsSpec(d, xs);
    var d1 := DeleteArcsWithViews(d, xs).value;
    NoArcsLeft(g, GraphOf(d1), n);
    RemoveNodeViewSpec(d1, n);
    var r := RemoveNodeView(d1, n).value;
    assert DeleteNodeWithViews(d, n) == Ok(r);
    ShrunkCompose(g, GraphOf(d1), GraphOf(r), n, Touching(g, n));
  }

  lemma ShrunkCompose(g: Graph, h: Graph, i: Graph, n: Id, T: set<Id>)
    requires Shrunk(g, h, {}, T) && Shrunk(h, i, {n}, {})
    ensures Shrunk(g, i, {n}, T)
  {
    ShrunkTrans(g, h, i, {}, T, {n}, {});
    assert {} + {n} == {n} && T + {} == T;
  }

  lemma NoArcsLeft(g: Graph, g1: Graph, n: Id)
    requires g1.arcs == g.arcs - Touching(g, n)
    ensures Touching(g1, n) == {}
  {
  }

  /** Removing a node no arc touches, with the element maps in line. */
  lemma RemoveNodeViewSpec(d: Drawer, n: Id)
    requires Valid(GraphOf(d)) && Synced(d) && n in GraphOf(d).nodes && Touching(GraphOf(d), n) == {}
    ensures RemoveNodeView(d, n).Ok?
    ensures var r := RemoveNodeView(d, n).value;
      Synced(r) && Shrunk(GraphOf(d), GraphOf(r), {n}, {})
  {
    DeleteNodeSpec(GraphOf(d), n);
    assert GraphOf(d).arcs - {} == GraphOf(d).arcs;
  }

  /** The arcs forEachNodeArc visits on a node without a self-loop: each arc touching it,
      once. */
  lemma NodeArcsListed(g: Graph, n: Id)
    requires Valid(g) && n in g.nodes && NoLoopAt(g, n)
    ensures var xs := g.nodes[n].inputArcs + g.nodes[n].outputArcs;
      && Distinct(xs) && Elems(xs) == Touching(g, n)
      && (forall x :: x in xs ==> x in g.arcs)
  {
    var In, Out := g.nodes[n].inputArcs, g.nodes[n].outputArcs;
    TouchingIsLists(g, n);
    assert Distinct(In) && Distinct(Out);
    forall y | y in In ensures y !in Out && y in g.arcs {
      assert y in g.arcs && Head(g.arcs[y], y in {}) == n;
      assert Tail(g.arcs[y], y in {}) != n;
    }
    DistinctConcat(In, Out);
    assert forall x :: x in In + Out <==> x in In || x in Out;
  }

  /** An arc id the element maps no longer hold makes the deletion loop throw when it gets
      there. */
  lemma {:induction false} MissingViewFails(d: Drawer, xs: seq<Id>, j: nat)
    requires j < |xs| && xs[j] !in d.arcViews
    ensures DeleteArcsWithViews(d, xs).Err?
    decreases j
  {
    if j > 0 && DeleteArcWithView(d, xs[0]).Ok? {
      MissingViewFails(DeleteArcWithView(d, xs[0]).value, xs[1..], j - 1);
    }
  }

  /** An arc listed twice makes the deletion loop throw: its elements are gone the second
      time. */
  lemma {:induction false} RepeatFails(d: Drawer, xs: seq<Id>, i: nat, j: nat)
    requires i < j < |xs| && xs[i] == xs[j]
    ensures DeleteArcsWithViews(d, xs).Err?
    decreases i
  {
    if DeleteArcWithView(d, xs[0]).Ok? {
      var d1 := DeleteArcWithView(d, xs[0]).value;
      if i == 0 {
        MissingViewFails(d1, xs[1..], j - 1);
      } else {
        RepeatFails(d1, xs[1..], i - 1, j - 1);
      }
    }
  }

  /** A self-loop sits in both lists of its node, so forEachNodeArc hands it over twice and
      the drawer's deleteNode throws. */
  lemma DeleteNodeSelfLoopFails(d: Drawer, n: Id, x: Id)
    requires Valid(GraphOf(d)) && x in GraphOf(d).arcs
    requires GraphOf(d).arcs[x].startNode == n && GraphOf(d).arcs[x].endNode == n
    ensures DeleteNodeWithViews(d, n).Err?
  {
    var g := GraphOf(d);
    assert Tail(g.arcs[x], x in {}) == n && Head(g.arcs[x], x in {}) == n;
    var In, Out := g.nodes[n].inputArcs, g.nodes[n].outputArcs;
    var i :| 0 <= i < |In| && In[i] == x;
    var j :| 0 <= j < |Out| && Out[j] == x;
    assert (In + Out)[i] == x && (In + Out)[|In| + j] == x;
    RepeatFails(d, In + Out, i, |In| + j);
  }

  // ---------------------------------------------------------------------------
  // Deleting the selection

  /** The arcs with an endpoint among the nodes N. */
  ghost function Attached(g: Graph, N: set<Id>): set<Id> {
    set x | x in g.arcs && (g.arcs[x].startNode in N || g.arcs[x].endNode in N)
  }

  /** The arc half of deleteSelected: each selected id is looked up, and an id that does not
      resolve is dereferenced and throws. */
  function DeleteEachArc(d: Drawer, xs: seq<Id>): (r: Result<Drawer>)
    ensures r.Ok? ==> r.value.nodeViews == d.nodeViews && Rest(d, r.value)
    decreases |xs|
  {
    if xs == [] then Ok(d)
    else if xs[0] !in GraphOf(d).arcs then Err(Unresolved)
    else
      var d1 :- DeleteArcWithView(d, xs[0]);
      DeleteEachArc(d1, xs[1..])
  }

  /** The node half of deleteSelected: the drawer's deleteNode on each selected id. */
  function DeleteEachNode(d: Drawer, ns: seq<Id>): (r: Result<Drawer>)
    ensures r.Ok? ==> Rest(d, r.value)
    decreases |ns|
  {
    if ns == [] then Ok(d)
    else
      var d1 :- DeleteNodeWithViews(d, ns[0]);
      DeleteEachNode(d1, ns[1..])
  }

  /** deleteSelected(): the selected arcs, then the selected nodes, then both selections are
      cleared. */
  function DeleteSelected(d: Drawer): (r: Result<Drawer>)
    ensures r.Ok? ==> r.value.selNodes == [] && r.value.selArcs == []
    ensures r.Ok? ==> (r.value.history.backups == d.history.backups
      && r.value.history.updates == d.history.updates)
  {
    var d1 :- DeleteEachArc(d, d.selArcs);
    var d2 :- DeleteEachNode(d1, d.selNodes);
    Ok(d2.(selNodes := [], selArcs := []))
  }

  lemma {:induction false} DeleteEachArcSpec(d: Drawer, xs: seq<Id>)
    requires Valid(GraphOf(d)) && Synced(d) && Distinct(xs)
    requires forall x :: x in xs ==> x in GraphOf(d).arcs
    ensures DeleteEachArc(d, xs).Ok?
    ensures var r := DeleteEachArc(d, xs).value;
      Synced(r) && Shrunk(GraphOf(d), GraphOf(r), {}, Elems(xs))
    decreases |xs|
  {
    if xs == [] {
      assert GraphOf(d).arcs - {} == GraphOf(d).arcs;
    } else {
      ElemsCons(xs);
      DeleteArcStep(d, xs[0]);
      var d1 := DeleteArcWithView(d, xs[0]).value;
      DeleteEachArcSpec(d1, xs[1..]);
      var r := DeleteEachArc(d1, xs[1..]).value;
      ShrunkTrans(GraphOf(d), GraphOf(d1), GraphOf(r), {}, {xs[0]}, {}, Elems(xs[1..]));
    }
  }

  /** Deleting distinct live nodes of a graph without self-loops removes exactly those nodes
      and every arc attached to them. */
  lemma {:induction false} DeleteEachNodeSpec(d: Drawer, ns: seq<Id>)
    requires Valid(GraphOf(d)) && Synced(d) && NoSelfLoops(GraphOf(d)) && Distinct(ns)
    requires forall n :: n in ns ==> n in GraphOf(d).nodes
    ensures DeleteEachNode(d, ns).Ok?
    ensures var r := DeleteEachNode(d, ns).value;
      Synced(r) && Shrunk(GraphOf(d), GraphOf(r), Elems(ns), Attached(GraphOf(d), Elems(ns)))
    decreases |ns|
  {
    var g := GraphOf(d);
    if ns == [] {
      assert Attached(g, {}) == {};
      assert g.arcs - {} == g.arcs && g.nodes.Keys - {} == g.nodes.Keys;
    } else {
      var n := ns[0];
      ElemsCons(ns);
      DeleteNodeWithViewsSpec(d, n);
      var d1 := DeleteNodeWithViews(d, n).value;
      DeleteEachNodeSpec(d1, ns[1..]);
      var r := DeleteEachNode(d1, ns[1..]).value;
      ShrunkTrans(g, GraphOf(d1), GraphOf(r), {n}, Touching(g, n), Elems(ns[1..]), Attached(GraphOf(d1), Elems(ns[1..])));
      AttachedStep(g, GraphOf(d1), n, Elems(ns[1..]));
    }
  }

  /** Removing the arcs of n first leaves the arcs attached to the other nodes as they were. */
  lemma AttachedStep(g: Graph, g1: Graph, n: Id, N: set<Id>)
    requires g1.arcs == g.arcs - Touching(g, n)
    ensures Touching(g, n) + Attached(g1, N) == Attached(g, {n} + N)
  {
  }

  lemma AttachedAfter(g: Graph, g1: Graph, R: set<Id>, N: set<Id>)
    requires g1.arcs == g.arcs - R
    ensures Attached(g1, N) == Attached(g, N) - R
  {
  }

  /** deleteSelected on a consistent drawer whose graph has no self-loops and whose
      selections resolve: the selected nodes go, and with them the selected arcs and every arc
      attached to a selected node; both selections end empty and the invariant holds. */
  lemma DeleteSelectedSpec(d: Drawer)
    requires DrawerOk(d) && NoSelfLoops(GraphOf(d))
    requires forall n :: n in d.selNodes ==> n in GraphOf(d).nodes
    requires forall x :: x in d.selArcs ==> x in GraphOf(d).arcs
    ensures DeleteSelected(d).Ok?
    ensures var r := DeleteSelected(d).value;
      && DrawerOk(r) && r.selNodes == [] && r.selArcs == []
      && Shrunk(GraphOf(d), GraphOf(r), Elems(d.selNodes), Elems(d.selArcs) + Attached(GraphOf(d), Elems(d.selNodes)))
  {
    var g := GraphOf(d);
    var A, N := Elems(d.selArcs), Elems(d.selNodes);
    DeleteEachArcSpec(d, d.selArcs);
    var d1 := DeleteEachArc(d, d.selArcs).value;
    DeleteEachNodeSpec(d1, d.selNodes);
    var d2 := DeleteEachNode(d1, d.selNodes).value;
    ShrunkThenNodes(g, GraphOf(d1), GraphOf(d2), A, N);
    RestOk(d, d2);
  }

  lemma ShrunkThenNodes(g: Graph, g1: Graph, g2: Graph, A: set<Id>, N: set<Id>)
    requires Shrunk(g, g1, {}, A) && Shrunk(g1, g2, N, Attached(g1, N))
    ensures Shrunk(g, g2, N, A + Attached(g, N))
  {
    ShrunkTrans(g, g1, g2, {}, A, N, Attached(g1, N));
    AttachedAfter(g, g1, A, N);
    assert {} + N == N && A + (Attached(g, N) - A) == A + Attached(g, N);
  }

  /** A drawer whose graph stays consistent and whose element maps stay in line keeps the
      invariant when everything else is as it was. */
  lemma RestOk(d: Drawer, r: Drawer)
    requires DrawerOk(d) && Rest(d, r) && Valid(GraphOf(r)) && Synced(r)
    ensures DrawerOk(r) && DrawerOk(r.(selNodes := [], selArcs := []))
  {
  }

  // ---------------------------------------------------------------------------
  // Creation

  /** createNode(params, coords) of the drawer: the graph allocates the next node id and the
      node gets an element. */
  function CreateNodeWithView(d: Drawer, params: Params, coords: Vector): (r: (Drawer, Id))
    ensures r.0.nodeViews == d.nodeViews + {r.1} && r.0.arcViews == d.arcViews && Rest(d, r.0)
    ensures (GraphOf(r.0), r.1) == CreateNode(GraphOf(d), params, Auto, coords)
    ensures r.1 == GraphOf(d).lastNodeId + 1
  {
    var (g, n) := CreateNode(GraphOf(d), params, Auto, coords);
    (WithGraph(d, g).(nodeViews := d.nodeViews + {n}), n)
  }

  /** createArc(startNode, endNode, params) of the drawer: the graph allocates the next arc id
      and the arc gets its elements; a missing endpoint is dereferenced and throws. */
  function CreateArcWithView(d: Drawer, s: Id, e: Id, params: Params): (r: Result<(Drawer, Id)>)
    ensures r.Ok? <==> s in GraphOf(d).nodes && e in GraphOf(d).nodes
    ensures r.Err? ==> r.error == Unresolved
    ensures r.Ok? ==> r.value.0.nodeViews == d.nodeViews && r.value.0.arcViews == d.arcViews + {r.value.1}
    ensures r.Ok? ==> Rest(d, r.value.0) && GraphOf(r.value.0).nodes.Keys == GraphOf(d).nodes.Keys
  {
    var p :- CreateArc(GraphOf(d), s, e, params, Auto);
    Ok((WithGraph(d, p.0).(arcViews := d.arcViews + {p.1}), p.1))
  }

  /** h has g's nodes, in the same order and with the same records, and the same node
      counter. */
  ghost predicate NodesKept(g: Graph, h: Graph) {
    && h.nodes.Keys == g.nodes.Keys && h.nodeOrder == g.nodeOrder && h.lastNodeId == g.lastNodeId
    && (forall k :: k in g.nodes ==> SameRecord(g.nodes[k], h.nodes[k]))
  }

  /** xs are the ids after g's arc counter, in order, none of them taken. */
  ghost predicate NextArcIds(g: Graph, xs: seq<Id>) {
    forall i :: 0 <= i < |xs| ==> xs[i] == g.lastArcId + 1 + i && xs[i] !in g.arcs
  }

  /** h's arcs are g's followed by xs, the i-th from ends[i].0 to ends[i].1 with no params. */
  ghost predicate ArcsAppended(g: Graph, h: Graph, xs: seq<Id>, ends: seq<(Id, Id)>) {
    && |xs| == |ends|
    && h.lastArcId == g.lastArcId + |xs|
    && h.arcOrder == g.arcOrder + xs
    && h.arcs.Keys == g.arcs.Keys + Elems(xs)
    && (forall x :: x in g.arcs ==> h.arcs[x] == g.arcs[x])
    && (forall i :: 0 <= i < |xs| ==> h.arcs[xs[i]] == Arc(xs[i], ends[i].0, ends[i].1, []))
  }

  /** No pair of endpoints is a loop. */
  predicate Proper(ends: seq<(Id, Id)>) {
    forall i :: 0 <= i < |ends| ==> ends[i].0 != ends[i].1
  }

  /** h is g with the arcs xs appended under consecutive fresh ids, the i-th running from
      ends[i].0 to ends[i].1; h is consistent and gains no self-loop. */
  ghost predicate ArcsAdded(g: Graph, h: Graph, xs: seq<Id>, ends: seq<(Id, Id)>) {
    && Valid(h) && NodesKept(g, h) && NextArcIds(g, xs) && ArcsAppended(g, h, xs, ends)
    && (NoSelfLoops(g) && Proper(ends) ==> NoSelfLoops(h))
  }

  lemma ArcsAddedNone(g: Graph)
    requires Valid(g)
    ensures ArcsAdded(g, g, [], [])
  {
    assert g.arcOrder + [] == g.arcOrder;
  }

  lemma ArcsAddedTrans(g: Graph, h: Graph, i: Graph, x: Id, xs: seq<Id>, ends: seq<(Id, Id)>)
    requires ends != [] && ArcsAdded(g, h, [x], [ends[0]]) && ArcsAdded(h, i, xs, ends[1..])
    ensures ArcsAdded(g, i, [x] + xs, ends)
  {
    NextArcIdsTrans(g, h, x, xs);
    ArcsAppendedTrans(g, h, i, x, xs, ends);
    NodesKeptTrans(g, h, i);
    if NoSelfLoops(g) && Proper(ends) {
      ProperTail(ends);
    }
  }

  lemma NodesKeptTrans(g: Graph, h: Graph, i: Graph)
    requires NodesKept(g, h) && NodesKept(h, i)
    ensures NodesKept(g, i)
  {
  }

  lemma ProperTail(ends: seq<(Id, Id)>)
    requires ends != [] && Proper(ends)
    ensures Proper([ends[0]]) && Proper(ends[1..])
  {
  }

  lemma NextArcIdsTrans(g: Graph, h: Graph, x: Id, xs: seq<Id>)
    requires NextArcIds(g, [x]) && NextArcIds(h, xs)
    requires h.lastArcId == g.lastArcId + 1 && g.arcs.Keys <= h.arcs.Keys
    ensures NextArcIds(g, [x] + xs)
  {
    var ys := [x] + xs;
    forall j | 0 <= j < |ys| ensures ys[j] == g.lastArcId + 1 + j && ys[j] !in g.arcs {
      if j > 0 {
        assert ys[j] == xs[j - 1];
      }
    }
  }

  lemma ArcsAppendedTrans(g: Graph, h: Graph, i: Graph, x: Id, xs: seq<Id>, ends: seq<(Id, Id)>)
    requires ends != [] && ArcsAppended(g, h, [x], [ends[0]]) && ArcsAppended(h, i, xs, ends[1..])
    requires x !in g.arcs && forall j :: 0 <= j < |xs| ==> xs[j] !in h.arcs
    ensures ArcsAppended(g, i, [x] + xs, ends)
  {
    var ys := [x] + xs;
    assert g.arcOrder + ys == g.arcOrder + [x] + xs;
    assert Elems(ys) == {x} + Elems(xs);
    forall j | 0 <= j < |ys| ensures i.arcs[ys[j]] == Arc(ys[j], ends[j].0, ends[j].1, []) {
      if j > 0 {
        assert ys[j] == xs[j - 1] && ends[j] == ends[1..][j - 1];
      } else {
        assert x in h.arcs;
      }
    }
  }

  /** One arc created between live nodes of a consistent graph. */
  lemma CreateArcStep(d: Drawer, s: Id, e: Id)
    requires Valid(GraphOf(d)) && Synced(d) && s in GraphOf(d).nodes && e in GraphOf(d).nodes
    ensures CreateArcWithView(d, s, e, []).Ok?
    ensures var p := CreateArcWithView(d, s, e, []).value;
      Synced(p.0) && ArcsAdded(GraphOf(d), GraphOf(p.0), [p.1], [(s, e)])
  {
    var g := GraphOf(d);
    CreateArcKeepsAdjacency(g, {}, s, e, [], Auto);
    var h := CreateArc(g, s, e, [], Auto).value.0;
    assert h.arcs.Keys == g.arcs.Keys + Elems([g.lastArcId + 1]);
  }

  /** The endpoints connectSelectedNodes joins after visiting p: each node to the next. */
  function ChainFrom(p: Id, sel: seq<Id>): (r: seq<(Id, Id)>)
    decreases |sel|
  {
    if sel == [] then [] else [(p, sel[0])] + ChainFrom(sel[0], sel[1..])
  }

  function Chain(sel: seq<Id>): (r: seq<(Id, Id)>) {
    if sel == [] then [] else ChainFrom(sel[0], sel[1..])
  }

  /** The i-th pair of the chain joins the i-th visited node to the next one. */
  lemma {:induction false} ChainFromIndex(p: Id, sel: seq<Id>)
    ensures |ChainFrom(p, sel)| == |sel|
    ensures forall i :: 0 <= i < |sel| ==> ChainFrom(p, sel)[i] == (([p] + sel)[i], sel[i])
    decreases |sel|
  {
    if sel != [] {
      ChainFromIndex(sel[0], sel[1..]);
      forall i | 0 <= i < |sel| ensures ChainFrom(p, sel)[i] == (([p] + sel)[i], sel[i]) {
        if i > 0 {
          assert ChainFrom(p, sel)[i] == ChainFrom(sel[0], sel[1..])[i - 1];
          assert ([sel[0]] + sel[1..])[i - 1] == ([p] + sel)[i];
        }
      }
    }
  }

  /** The endpoints createNodeConnectedToSelectedNodes joins: each selected node to n. */
  function Spokes(sel: seq<Id>, n: Id): (r: seq<(Id, Id)>) {
    seq(|sel|, i requires 0 <= i < |sel| => (sel[i], n))
  }

  /** createArc on each pair of endpoints in turn, with no params; returns the new arcs. */
  function CreateEach(d: Drawer, ends: seq<(Id, Id)>): (r: Result<(Drawer, seq<Id>)>)
    ensures r.Ok? ==> Rest(d, r.value.0) && r.value.0.nodeViews == d.nodeViews
    decreases |ends|
  {
    if ends == [] then Ok((d, []))
    else
      var p :- CreateArcWithView(d, ends[0].0, ends[0].1, []);
      var q :- CreateEach(p.0, ends[1..]);
      Ok((q.0, [p.1] + q.1))
  }

  /** Every endpoint is a node of g. */
  ghost predicate EndsLive(g: Graph, ends: seq<(Id, Id)>) {
    forall i :: 0 <= i < |ends| ==> ends[i].0 in g.nodes && ends[i].1 in g.nodes
  }

  lemma EndsLiveTail(g: Graph, h: Graph, ends: seq<(Id, Id)>)
    requires ends != [] && EndsLive(g, ends) && h.nodes.Keys == g.nodes.Keys
    ensures EndsLive(h, ends[1..])
  {
    forall i | 0 <= i < |ends| - 1 ensures ends[1..][i].0 in h.nodes && ends[1..][i].1 in h.nodes {
      assert ends[1..][i] == ends[i + 1];
    }
  }

  /** Creating arcs between live nodes of a consistent graph succeeds and appends exactly
      those arcs under the next ids. */
  lemma {:induction false} CreateEachSpec(d: Drawer, ends: seq<(Id, Id)>)
    requires Valid(GraphOf(d)) && Synced(d) && EndsLive(GraphOf(d), ends)
    ensures CreateEach(d, ends).Ok?
    ensures var (r, xs) := CreateEach(d, ends).value;
      Synced(r) && ArcsAdded(GraphOf(d), GraphOf(r), xs, ends)
    decreases |ends|
  {
    var g := GraphOf(d);
    if ends == [] {
      ArcsAddedNone(g);
    } else {
      CreateArcStep(d, ends[0].0, ends[0].1);
      var (d1, x) := CreateArcWithView(d, ends[0].0, ends[0].1, []).value;
      EndsLiveTail(g, GraphOf(d1), ends);
      CreateEachSpec(d1, ends[1..]);
      var (r, xs) := CreateEach(d1, ends[1..]).value;
      ArcsAddedTrans(g, GraphOf(d1), GraphOf(r), x, xs, ends);
    }
  }

  /** The loop of connectSelectedNodes: prev is the node visited last, if it resolved. An id
      that does not resolve is skipped when nothing came before it, and makes createArc throw
      otherwise. */
  function ConnectFrom(d: Drawer, prev: Option<Id>, sel: seq<Id>): (r: Result<(Drawer, seq<Id>)>)
    ensures r.Ok? ==> Rest(d, r.value.0) && r.value.0.nodeViews == d.nodeViews
    decreases |sel|
  {
    if sel == [] then Ok((d, []))
    else if prev.None? then
      ConnectFrom(d, if sel[0] in GraphOf(d).nodes then Some(sel[0]) else None, sel[1..])
    else
      var p :- CreateArcWithView(d, prev.value, sel[0], []);
      var q :- ConnectFrom(p.0, Some(sel[0]), sel[1..]);
      Ok((q.0, [p.1] + q.1))
  }

  /** connectSelectedNodes(): returns the created arcs. */
  function ConnectSelected(d: Drawer): (r: Result<(Drawer, seq<Id>)>)
    ensures r.Ok? ==> Rest(d, r.value.0)
  {
    ConnectFrom(d, None, d.selNodes)
  }

  /** Once a node has been visited, the loop creates the arcs of the chain, whatever the
      graph. */
  lemma {:induction false} ConnectFromChain(d: Drawer, p: Id, sel: seq<Id>)
    ensures ConnectFrom(d, Some(p), sel) == CreateEach(d, ChainFrom(p, sel))
    decreases |sel|
  {
    if sel != [] {
      var c := CreateArcWithView(d, p, sel[0], []);
      var ends := ChainFrom(p, sel);
      assert ends[0] == (p, sel[0]) && ends[1..] == ChainFrom(sel[0], sel[1..]);
      if c.Ok? {
        ConnectFromChain(c.value.0, sel[0], sel[1..]);
      }
    }
  }

  /** connectSelectedNodes on a consistent drawer whose selected nodes resolve: with k nodes
      selected it creates k - 1 arcs, the i-th from the i-th selected node to the next one, and
      the invariant holds. */
  lemma ConnectSelectedSpec(d: Drawer)
    requires DrawerOk(d)
    requires forall k :: k in d.selNodes ==> k in GraphOf(d).nodes
    ensures ConnectSelected(d).Ok?
    ensures var (r, xs) := ConnectSelected(d).value;
      && DrawerOk(r)
      && ArcsAdded(GraphOf(d), GraphOf(r), xs, Chain(d.selNodes))
      && |xs| == (if |d.selNodes| == 0 then 0 else |d.selNodes| - 1)
      && (forall i :: 0 <= i < |xs| ==>
            GraphOf(r).arcs[xs[i]].startNode == d.selNodes[i] && GraphOf(r).arcs[xs[i]].endNode == d.selNodes[i + 1])
  {
    var sel := d.selNodes;
    if sel == [] {
      ArcsAddedNone(GraphOf(d));
    } else {
      ConnectFromChain(d, sel[0], sel[1..]);
      ChainLive(GraphOf(d), sel);
      CreateEachSpec(d, Chain(sel));
      var (r, xs) := ConnectSelected(d).value;
      RestOk(d, r);
      ChainEnds(GraphOf(d), GraphOf(r), xs, sel);
    }
  }

  lemma ChainLive(g: Graph, sel: seq<Id>)
    requires sel != [] && forall k :: k in sel ==> k in g.nodes
    ensures EndsLive(g, Chain(sel))
  {
    ChainFromIndex(sel[0], sel[1..]);
    var c := Chain(sel);
    forall i | 0 <= i < |c| ensures c[i].0 in g.nodes && c[i].1 in g.nodes {
      assert ([sel[0]] + sel[1..])[i] == sel[i] && sel[1..][i] == sel[i + 1];
    }
  }

  lemma ChainEnds(g: Graph, h: Graph, xs: seq<Id>, sel: seq<Id>)
    requires ArcsAppended(g, h, xs, Chain(sel))
    ensures |xs| == (if |sel| == 0 then 0 else |sel| - 1)
    ensures forall i :: 0 <= i < |xs| ==> h.arcs[xs[i]].startNode == sel[i] && h.arcs[xs[i]].endNode == sel[i + 1]
  {
    if sel != [] {
      ChainFromIndex(sel[0], sel[1..]);
      assert [sel[0]] + sel[1..] == sel;
    }
  }

  /** An id that does not resolve, once a resolving one came before it, makes
      connectSelectedNodes throw. */
  lemma {:induction false} ConnectFromFails(d: Drawer, p: Id, sel: seq<Id>, j: nat)
    requires j < |sel| && sel[j] !in GraphOf(d).nodes
    ensures ConnectFrom(d, Some(p), sel).Err?
    decreases j
  {
    var c := CreateArcWithView(d, p, sel[0], []);
    if j > 0 && c.Ok? {
      ConnectFromFails(c.value.0, sel[0], sel[1..], j - 1);
    }
  }

  /** createNodeConnectedToSelectedNodes(): the coordinates are computed by the caller (the
      mean of the selected nodes' coordinates, jittered or taken from the camera); reading
      them dereferences every selected node first. Then one arc runs from each selected node
      to the new one. */
  function CreateNodeConnected(d: Drawer, coords: Vector): (r: Result<(Drawer, Id, seq<Id>)>)
    ensures r.Ok? ==> Rest(d, r.value.0)
  {
    if exists k :: k in d.selNodes && k !in GraphOf(d).nodes then Err(Unresolved)
    else
      var (d1, n) := CreateNodeWithView(d, [], coords);
      var q :- CreateEach(d1, Spokes(d.selNodes, n));
      Ok((q.0, n, q.1))
  }

  /** createNodeConnectedToSelectedNodes on a consistent drawer: it fails exactly when a
      selected id does not resolve; otherwise the new node takes the next node id, has no
      params and the given coordinates, and receives one arc from each selected node, in
      selection order. */
  lemma CreateNodeConnectedSpec(d: Drawer, coords: Vector)
    requires DrawerOk(d)
    ensures CreateNodeConnected(d, coords).Ok? <==> forall k :: k in d.selNodes ==> k in GraphOf(d).nodes
    ensures CreateNodeConnected(d, coords).Err? ==> CreateNodeConnected(d, coords).error == Unresolved
    ensures CreateNodeConnected(d, coords).Ok? ==>
      var (r, n, xs) := CreateNodeConnected(d, coords).value;
      var g1 := CreateNode(GraphOf(d), [], Auto, coords).0;
      && DrawerOk(r)
      && n == GraphOf(d).lastNodeId + 1 && n !in GraphOf(d).nodes
      && GraphOf(r).nodes.Keys == GraphOf(d).nodes.Keys + {n}
      && SameRecord(GraphOf(r).nodes[n], Node(n, [], coords, [], []))
      && ArcsAdded(g1, GraphOf(r), xs, Spokes(d.selNodes, n))
      && (NoSelfLoops(GraphOf(d)) ==> NoSelfLoops(GraphOf(r)))
  {
    var g := GraphOf(d);
    if forall k :: k in d.selNodes ==> k in g.nodes {
      NewNodeStep(d, coords);
      var (d1, n) := CreateNodeWithView(d, [], coords);
      var S := Spokes(d.selNodes, n);
      CreateEachSpec(d1, S);
      var (r, xs) := CreateEach(d1, S).value;
      assert CreateNodeConnected(d, coords) == Ok((r, n, xs));
      RestOk(d, r);
    }
  }

  /** The node createNodeConnectedToSelectedNodes adds before its arcs. */
  lemma NewNodeStep(d: Drawer, coords: Vector)
    requires DrawerOk(d) && forall k :: k in d.selNodes ==> k in GraphOf(d).nodes
    ensures var (d1, n) := CreateNodeWithView(d, [], coords);
      var g, g1 := GraphOf(d), GraphOf(d1);
      && Valid(g1) && Synced(d1)
      && n == g.lastNodeId + 1 && n !in g.nodes && g1.nodes.Keys == g.nodes.Keys + {n}
      && g1.nodes[n] == Node(n, [], coords, [], [])
      && EndsLive(g1, Spokes(d.selNodes, n)) && Proper(Spokes(d.selNodes, n))
      && (NoSelfLoops(g) ==> NoSelfLoops(g1))
  {
    var g := GraphOf(d);
    assert forall k :: k in d.selNodes ==> k in g.nodes;
    CreateNodeKeepsValid(g, [], Auto, coords);
    var (d1, n) := CreateNodeWithView(d, [], coords);
    var S := Spokes(d.selNodes, n);
    forall i | 0 <= i < |S| ensures S[i].0 in GraphOf(d1).nodes && S[i].1 in GraphOf(d1).nodes && S[i].0 != S[i].1 {
      assert S[i] == (d.selNodes[i], n) && d.selNodes[i] in d.selNodes;
      assert d.selNodes[i] in g.nodes;
      assert GraphOf(d1).nodes.Keys == g.nodes.Keys + {n};
    }
  }

  // ---------------------------------------------------------------------------
  // Reversing the selection

  /** h is g with the arcs X pointing the other way: h is consistent, the nodes keep their
      records, every other arc is as it was, and no self-loop appears. */
  ghost predicate Flipped(g: Graph, h: Graph, X: set<Id>) {
    && Valid(h)
    && h.nodes.Keys == g.nodes.Keys
    && (forall k :: k in g.nodes ==> SameRecord(g.nodes[k], h.nodes[k]))
    && h.arcs.Keys == g.arcs.Keys
    && (forall x :: x in g.arcs ==> h.arcs[x] == if x in X then Reversed(g.arcs[x]) else g.arcs[x])
    && (NoSelfLoops(g) ==> NoSelfLoops(h))
  }

  /** The loop of reverseSelectedArcs: each selected id is looked up, and an id that does not
      resolve is dereferenced and throws. */
  function ReverseEach(d: Drawer, xs: seq<Id>): (r: Result<Drawer>)
    ensures r.Ok? ==> Rest(d, r.value) && r.value.nodeViews == d.nodeViews && r.value.arcViews == d.arcViews
    decreases |xs|
  {
    if xs == [] then Ok(d)
    else if xs[0] !in GraphOf(d).arcs then Err(Unresolved)
    else
      var g :- ReverseArc(GraphOf(d), xs[0]);
      ReverseEach(WithGraph(d, g), xs[1..])
  }

  /** reverseSelectedArcs(). */
  function ReverseSelected(d: Drawer): (r: Result<Drawer>)
    ensures r.Ok? ==> Rest(d, r.value)
  {
    ReverseEach(d, d.selArcs)
  }

  lemma ReverseStep(d: Drawer, x: Id)
    requires Valid(GraphOf(d)) && x in GraphOf(d).arcs
    ensures ReverseArc(GraphOf(d), x).Ok?
    ensures Flipped(GraphOf(d), ReverseArc(GraphOf(d), x).value, {x})
  {
    ReverseArcKeepsValid(GraphOf(d), {}, x);
    assert {} - {x} == {};
  }

  lemma FlippedTrans(g: Graph, h: Graph, i: Graph, x: Id, X: set<Id>)
    requires Flipped(g, h, {x}) && Flipped(h, i, X) && x !in X
    ensures Flipped(g, i, {x} + X)
  {
  }

  lemma {:induction false} ReverseEachSpec(d: Drawer, xs: seq<Id>)
    requires Valid(GraphOf(d)) && Synced(d) && Distinct(xs)
    requires forall x :: x in xs ==> x in GraphOf(d).arcs
    ensures ReverseEach(d, xs).Ok?
    ensures var r := ReverseEach(d, xs).value;
      Synced(r) && Flipped(GraphOf(d), GraphOf(r), Elems(xs))
    decreases |xs|
  {
    var g := GraphOf(d);
    if xs != [] {
      ElemsCons(xs);
      ReverseStep(d, xs[0]);
      var d1 := WithGraph(d, ReverseArc(g, xs[0]).value);
      ReverseEachSpec(d1, xs[1..]);
      FlippedTrans(g, GraphOf(d1), GraphOf(ReverseEach(d1, xs[1..]).value), xs[0], Elems(xs[1..]));
    }
  }

  /** reverseSelectedArcs on a consistent drawer whose selected arcs resolve: exactly the
      selected arcs now point the other way and the invariant holds. */
  lemma ReverseSelectedSpec(d: Drawer)
    requires DrawerOk(d) && forall x :: x in d.selArcs ==> x in GraphOf(d).arcs
    ensures ReverseSelected(d).Ok?
    ensures var r := ReverseSelected(d).value;
      DrawerOk(r) && Flipped(GraphOf(d), GraphOf(r), Elems(d.selArcs))
  {
    ReverseEachSpec(d, d.selArcs);
    RestOk(d, ReverseSelected(d).value);
  }

  /** Reversing the same arcs twice gives back every arc. */
  lemma FlippedTwice(g: Graph, h: Graph, i: Graph, X: set<Id>)
    requires Flipped(g, h, X) && Flipped(h, i, X)
    ensures i.arcs == g.arcs && i.nodes.Keys == g.nodes.Keys
    ensures forall k :: k in g.nodes ==> SameRecord(g.nodes[k], i.nodes[k])
  {
    forall x | x in g.arcs ensures i.arcs[x] == g.arcs[x] {
      if x in X {
        var a := g.arcs[x];
        assert Reversed(Reversed(a)) == a;
      }
    }
  }

  // ---------------------------------------------------------------------------
  // Bringing the elements back into line after a change of version

  /** updateGraphChangedElements(changes): for each id in the change set an element is
      created when the graph holds the id and the map does not, and removed when the map
      holds it and the graph does not; the selections then drop the ids that no longer
      resolve. Redrawing is left out. */
  function UpdateViews(d: Drawer, c: ChangeSet): (r: Drawer)
    ensures forall k :: k in c.nodes ==> (k in r.nodeViews <==> k in GraphOf(d).nodes)
    ensures forall k :: k !in c.nodes ==> (k in r.nodeViews <==> k in d.nodeViews)
    ensures forall x :: x in c.arcs ==> (x in r.arcViews <==> x in GraphOf(d).arcs)
    ensures forall x :: x !in c.arcs ==> (x in r.arcViews <==> x in d.arcViews)
    ensures r.history == d.history
  {
    var g := GraphOf(d);
    var newNodes := set k | k in c.nodes && k in g.nodes;
    var newArcs := set x | x in c.arcs && x in g.arcs;
    var oldArcs := set x | x in c.arcs && x !in g.arcs;
    var oldNodes := set k | k in c.nodes && k !in g.nodes;
    d.(nodeViews := d.nodeViews + newNodes - oldNodes,
       arcViews := d.arcViews + newArcs - oldArcs,
       selNodes := Prune(d.selNodes, g.nodes),
       selArcs := Prune(d.selArcs, g.arcs))
  }

  /** The change set names every id whose presence differs between g0 and g. */
  ghost predicate Covers(g0: Graph, g: Graph, c: ChangeSet) {
    && (forall k :: k in g0.nodes && k !in g.nodes ==> k in c.nodes)
    && (forall k :: k !in g0.nodes && k in g.nodes ==> k in c.nodes)
    && (forall x :: x in g0.arcs && x !in g.arcs ==> x in c.arcs)
    && (forall x :: x !in g0.arcs && x in g.arcs ==> x in c.arcs)
  }

  /** Element maps in line with the graph before the change, and a change set that covers
      the change, give element maps in line with the graph after it; the selections keep
      exactly the ids that still resolve. */
  lemma UpdateViewsSyncs(d: Drawer, g0: Graph, c: ChangeSet)
    requires d.nodeViews == g0.nodes.Keys && d.arcViews == g0.arcs.Keys && Covers(g0, GraphOf(d), c)
    ensures Synced(UpdateViews(d, c))
    ensures forall y :: y in UpdateViews(d, c).selNodes <==> y in d.selNodes && y in GraphOf(d).nodes
    ensures forall y :: y in UpdateViews(d, c).selArcs <==> y in d.selArcs && y in GraphOf(d).arcs
    ensures Distinct(d.selNodes) ==> Distinct(UpdateViews(d, c).selNodes)
    ensures Distinct(d.selArcs) ==> Distinct(UpdateViews(d, c).selArcs)
  {
    var r, g := UpdateViews(d, c), GraphOf(d);
    forall k ensures k in r.nodeViews <==> k in g.nodes {
      if k !in c.nodes {
        assert k in d.nodeViews <==> k in g0.nodes;
      }
    }
    forall x ensures x in r.arcViews <==> x in g.arcs {
      if x !in c.arcs {
        assert x in d.arcViews <==> x in g0.arcs;
      }
    }
    assert r.nodeViews == g.nodes.Keys && r.arcViews == g.arcs.Keys;
    PruneSpec(d.selNodes, g.nodes);
    PruneSpec(d.selArcs, g.arcs);
  }

  /** A change to a version with the exact change set covers the change. */
  lemma BecameCovers(g: Graph, v: Graph, h: Graph, c: ChangeSet)
    requires Versions.BecameVersion(g, v, h, c)
    ensures Covers(g, h, c)
  {
  }

  // ---------------------------------------------------------------------------
  // Versions

  /** rollback() of the drawer: only when a backup is left. */
  function Rollback(d: Drawer): (r: Result<Drawer>)
    ensures |d.history.backups| == 0 ==> r == Ok(d)
  {
    if |d.history.backups| > 0 then
      var p :- Versions.Rollback(d.history);
      Ok(UpdateViews(d.(history := p.0), p.1))
    else Ok(d)
  }

  /** update() of the drawer: only when an update is left. */
  function Update(d: Drawer): (r: Result<Drawer>)
    ensures |d.history.updates| == 0 ==> r == Ok(d)
  {
    if |d.history.updates| > 0 then
      var p :- Versions.Update(d.history);
      Ok(UpdateViews(d.(history := p.0), p.1))
    else Ok(d)
  }

  /** A drawer whose history moved to a new graph with a change set covering the move keeps
      the invariant once its elements are brought into line. */
  lemma MovedOk(d: Drawer, h: Versions.History, c: ChangeSet)
    requires DrawerOk(d) && Versions.HistoryOk(h) && Covers(GraphOf(d), h.graph, c)
    ensures DrawerOk(UpdateViews(d.(history := h), c))
  {
    UpdateViewsSyncs(d.(history := h), GraphOf(d), c);
  }

  /** The drawer's rollback never throws on a consistent drawer: with a backup left the graph
      takes the content of the newest backup and the invariant holds; without one nothing
      changes. */
  lemma RollbackSpec(d: Drawer)
    requires DrawerOk(d)
    ensures Rollback(d).Ok? && DrawerOk(Rollback(d).value)
    ensures |d.history.backups| > 0 ==>
      SameContent(GraphOf(Rollback(d).value), d.history.backups[|d.history.backups| - 1])
      && |Rollback(d).value.history.backups| == |d.history.backups| - 1
  {
    if |d.history.backups| > 0 {
      Versions.RollbackSpec(d.history);
      var (h, c) := Versions.Rollback(d.history).value;
      BecameCovers(GraphOf(d), d.history.backups[|d.history.backups| - 1], h.graph, c);
      MovedOk(d, h, c);
    }
  }

  /** The same for update, with the newest update. */
  lemma UpdateSpec(d: Drawer)
    requires DrawerOk(d)
    ensures Update(d).Ok? && DrawerOk(Update(d).value)
    ensures |d.history.updates| > 0 ==>
      SameContent(GraphOf(Update(d).value), d.history.updates[|d.history.updates| - 1])
      && |Update(d).value.history.updates| == |d.history.updates| - 1
  {
    if |d.history.updates| > 0 {
      Versions.UpdateSpec(d.history);
      var (h, c) := Versions.Update(d.history).value;
      BecameCovers(GraphOf(d), d.history.updates[|d.history.updates| - 1], h.graph, c);
      MovedOk(d, h, c);
    }
  }

  /** saveChanges(): a backup of the graph, then the updates are forgotten. */
  function SaveChanges(d: Drawer): (r: Result<Drawer>)
    ensures r.Ok? ==> GraphOf(r.value) == GraphOf(d) && |r.value.history.updates| == 0
    ensures r.Ok? ==> r.value.selNodes == d.selNodes && r.value.selArcs == d.selArcs
    ensures r.Ok? ==> r.value.nodeViews == d.nodeViews && r.value.arcViews == d.arcViews
  {
    var h :- Versions.CreateBackup(d.history);
    Ok(d.(history := Versions.ForgetUpdates(h)))
  }

  /** saveChanges on a consistent drawer succeeds, keeps the invariant, and leaves a backup
      with the graph's content on top (when backups are kept at all). */
  lemma SaveChangesSpec(d: Drawer)
    requires DrawerOk(d)
    ensures SaveChanges(d).Ok? && DrawerOk(SaveChanges(d).value)
    ensures var r := SaveChanges(d).value;
      && r.history.backups == Versions.Push(d.history.backups, Clone(GraphOf(d)).value, d.history.maxBackups)
      && (d.history.maxBackups >= 1 ==> SameContent(GraphOf(d), r.history.backups[|r.history.backups| - 1]))
  {
    Versions.CreateBackupSpec(d.history);
  }

  /** loadFromJSON(json): saveChanges, then the graph reads the document, then the elements
      are brought into line with the ids of both the old and the new graph. */
  function LoadFromJson(d: Drawer, doc: Document): (r: Result<Drawer>)
  {
    var d1 :- SaveChanges(d);
    var p :- Versions.VersionsFromJson(d1.history, doc);
    Ok(UpdateViews(d1.(history := p.0), p.1))
  }

  /** Loading a well-formed document into a consistent drawer succeeds and keeps the
      invariant: the element maps hold exactly the document's ids, and the previous graph is
      the newest backup. */
  lemma LoadFromJsonSpec(d: Drawer, doc: Document)
    requires DrawerOk(d) && FreshNodes(doc.nodes, {})
    requires FreshArcs(doc.arcs, {}, Elems(NodeIds(doc.nodes)))
    ensures LoadFromJson(d, doc).Ok?
    ensures var r := LoadFromJson(d, doc).value;
      && DrawerOk(r)
      && r.nodeViews == Elems(NodeIds(doc.nodes)) && r.arcViews == Elems(ArcIds(doc.arcs))
      && (d.history.maxBackups >= 1 ==> SameContent(GraphOf(d), r.history.backups[|r.history.backups| - 1]))
  {
    SaveChangesSpec(d);
    var d1 := SaveChanges(d).value;
    Versions.VersionsFromJsonSpec(d1.history, doc);
    var (h, c) := Versions.VersionsFromJson(d1.history, doc).value;
    MovedOk(d1, h, c);
  }
}
