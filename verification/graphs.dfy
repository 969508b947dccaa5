/** The id-keyed graph of modules/graph/graph.js (classes Graph and VisualGraph): nodes and
    arcs live in two maps keyed by integer id, each map keeps its insertion order (the
    iteration order of a JavaScript Map), and each has its own id counter. A node keeps the
    ids of its arcs in `inputArcs` and `outputArcs`; an arc keeps the ids of its endpoints. */
module Graphs {
  import opened Wrappers
  import opened Seqs

  type Id = int

  /** A JSON value. Params are compared by JSON.stringify, which is sensitive to key
      order, so an object is a sequence of key/value pairs and equality is sequence equality. */
  datatype Json =
    | JNull
    | JBool(b: bool)
    | JNum(n: real)
    | JStr(s: string)
    | JArr(items: seq<Json>)
    | JObj(fields: seq<(string, Json)>)

  type Params = seq<(string, Json)>

  /** A Vector: compared by exact equality of both coordinates, copied by value. */
  datatype Vector = Vector(x: real, y: real)

  const Origin := Vector(0.0, 0.0)

  /** The optional `id` argument of createNode/createArc: JavaScript's `!id` sends null,
      undefined and 0 to Auto; any other value is an explicit id. */
  datatype IdArg = Auto | Given(n: int)

  /** The argument a numeric id read from a record becomes. */
  function IdArgOf(n: int): (r: IdArg)
    ensures r.Auto? <==> n == 0
    ensures r.Given? ==> r.n == n
  {
    if n == 0 then Auto else Given(n)
  }

  datatype Node = Node(id: Id, params: Params, coords: Vector, inputArcs: seq<Id>, outputArcs: seq<Id>)

  datatype Arc = Arc(id: Id, startNode: Id, endNode: Id, params: Params)

  datatype Graph = Graph(
    nodes: map<Id, Node>,
    nodeOrder: seq<Id>,
    arcs: map<Id, Arc>,
    arcOrder: seq<Id>,
    lastNodeId: int,
    lastArcId: int)

  /** A freshly constructed Graph: no nodes, no arcs, both counters at 0. */
  const EmptyGraph := Graph(map[], [], map[], [], 0, 0)

  // ---------------------------------------------------------------------------
  // Invariants

  /** The insertion order of the node map lists each key exactly once. */
  ghost predicate NodeOrderOk(g: Graph) {
    Distinct(g.nodeOrder) && (forall k :: k in g.nodeOrder <==> k in g.nodes)
  }

  /** The insertion order of the arc map lists each key exactly once. */
  ghost predicate ArcOrderOk(g: Graph) {
    Distinct(g.arcOrder) && (forall k :: k in g.arcOrder <==> k in g.arcs)
  }

  ghost predicate WellFormed(g: Graph) {
    NodeOrderOk(g) && ArcOrderOk(g)
  }

  /** Every node is stored under its own id, no id is 0 (0 is never an explicit id), and
      every live id is at most the counter, which is never negative. */
  ghost predicate NodeIdsOk(g: Graph) {
    && g.lastNodeId >= 0
    && (forall k :: k in g.nodes ==> g.nodes[k].id == k && k != 0 && k <= g.lastNodeId)
  }

  /** The same for arcs and their own counter. */
  ghost predicate ArcIdsOk(g: Graph) {
    && g.lastArcId >= 0
    && (forall k :: k in g.arcs ==> g.arcs[k].id == k && k != 0 && k <= g.lastArcId)
  }

  ghost predicate KeysOk(g: Graph) {
    WellFormed(g) && NodeIdsOk(g) && ArcIdsOk(g)
  }

  /** The endpoint whose output list holds an arc: its start node, or its end node when the
      arc's list placement is flipped. */
  function Tail(a: Arc, flipped: bool): Id {
    if flipped then a.endNode else a.startNode
  }

  /** The endpoint whose input list holds an arc. */
  function Head(a: Arc, flipped: bool): Id {
    if flipped then a.startNode else a.endNode
  }

  /** Every arc sits in the output list of its tail and the input list of its head; the arcs
      in F are placed as if they pointed the other way. */
  ghost predicate ArcsPlaced(g: Graph, F: set<Id>) {
    forall x :: x in g.arcs ==>
      && Tail(g.arcs[x], x in F) in g.nodes
      && Head(g.arcs[x], x in F) in g.nodes
      && x in g.nodes[Tail(g.arcs[x], x in F)].outputArcs
      && x in g.nodes[Head(g.arcs[x], x in F)].inputArcs
  }

  /** Every inputArcs entry is a live arc whose head is that node. */
  ghost predicate InputsSound(g: Graph, F: set<Id>) {
    forall k, x :: k in g.nodes && x in g.nodes[k].inputArcs ==>
      x in g.arcs && Head(g.arcs[x], x in F) == k
  }

  /** Every outputArcs entry is a live arc whose tail is that node. */
  ghost predicate OutputsSound(g: Graph, F: set<Id>) {
    forall k, x :: k in g.nodes && x in g.nodes[k].outputArcs ==>
      x in g.arcs && Tail(g.arcs[x], x in F) == k
  }

  /** No arc list repeats an entry. */
  ghost predicate ListsDistinct(g: Graph) {
    forall k :: k in g.nodes ==> Distinct(g.nodes[k].inputArcs) && Distinct(g.nodes[k].outputArcs)
  }

  /** Adjacency consistency up to the flipped arcs F. */
  ghost predicate AdjacencyWith(g: Graph, F: set<Id>) {
    ArcsPlaced(g, F) && InputsSound(g, F) && OutputsSound(g, F) && ListsDistinct(g)
  }

  /** The graph invariant: a node's inputArcs/outputArcs hold exactly the arcs ending/starting
      at it, with no duplicates and no dangling entries. */
  ghost predicate Valid(g: Graph) {
    KeysOk(g) && AdjacencyWith(g, {})
  }

  ghost predicate NoSelfLoops(g: Graph) {
    forall x :: x in g.arcs ==> g.arcs[x].startNode != g.arcs[x].endNode
  }

  /** An explicit id that may be used without overwriting a live entry of `live`. */
  ghost predicate FreshArg(id: IdArg, live: set<Id>) {
    id.Given? ==> id.n !in live && id.n != 0
  }

  // ---------------------------------------------------------------------------
  // Equality (compare)

  /** GraphNode.compare: params by JSON string equality. */
  function CompareParams(a: Node, b: Node): bool {
    a.params == b.params
  }

  /** VisualGraphNode.compare: params, then coordinates. */
  function NodeCompare(a: Node, b: Node): bool {
    CompareParams(a, b) && a.coords == b.coords
  }

  /** GraphArc.compare: endpoint ids and params. */
  function ArcCompare(a: Arc, b: Arc): bool {
    a.startNode == b.startNode && a.endNode == b.endNode && a.params == b.params
  }

  /** Structural equality of two graphs: the same node ids with equal params and coords, the
      same arc ids with equal endpoints and params. Adjacency lists, orders and counters
      are not compared. */
  ghost predicate SameContent(g: Graph, h: Graph) {
    && g.nodes.Keys == h.nodes.Keys
    && (forall k :: k in g.nodes ==> NodeCompare(g.nodes[k], h.nodes[k]))
    && g.arcs.Keys == h.arcs.Keys
    && (forall x :: x in g.arcs ==> ArcCompare(g.arcs[x], h.arcs[x]))
  }

  /** Node records that agree on everything but their arc lists. */
  predicate SameRecord(a: Node, b: Node) {
    a.id == b.id && a.params == b.params && a.coords == b.coords
  }

  /** h has g's nodes with the same records, and each arc list of h holds exactly the entries
      of g's list that are not in R. */
  ghost predicate NodesWithout(g: Graph, h: Graph, R: set<Id>) {
    && h.nodes.Keys == g.nodes.Keys
    && (forall k :: k in g.nodes ==> SameRecord(g.nodes[k], h.nodes[k]))
    && (forall k, y :: k in g.nodes ==>
          (y in h.nodes[k].inputArcs <==> y in g.nodes[k].inputArcs && y !in R))
    && (forall k, y :: k in g.nodes ==>
          (y in h.nodes[k].outputArcs <==> y in g.nodes[k].outputArcs && y !in R))
  }

  /** One instance of NodesWithout. */
  lemma WithoutAt(g: Graph, h: Graph, R: set<Id>, k: Id, y: Id)
    requires NodesWithout(g, h, R) && k in g.nodes
    ensures y in h.nodes[k].inputArcs <==> y in g.nodes[k].inputArcs && y !in R
    ensures y in h.nodes[k].outputArcs <==> y in g.nodes[k].outputArcs && y !in R
  {
  }

  // ---------------------------------------------------------------------------
  // Creation

  /** The id rule of createNode and createArc: Auto takes `++last`; an explicit id is kept
      and the counter becomes `max(last, id)`. Returns the id and the new counter. */
  function Allocate(last: int, id: IdArg): (r: (Id, int))
    ensures id.Auto? ==> r.0 == last + 1
    ensures id.Given? ==> r.0 == id.n
    ensures r.1 >= last && r.1 >= r.0
    ensures r.1 == last || r.1 == r.0
  {
    match id
    case Auto => (last + 1, last + 1)
    case Given(n) => (n, if n > last then n else last)
  }

  /** createNode(params, id, coords): stores a node with empty arc lists under the allocated
      id (an explicit id already present is overwritten in place) and returns the id. */
  function CreateNode(g: Graph, params: Params, id: IdArg, coords: Vector): (r: (Graph, Id))
    ensures r.1 in r.0.nodes && r.0.nodes[r.1] == Node(r.1, params, coords, [], [])
    ensures r.0.nodes.Keys == g.nodes.Keys + {r.1}
    ensures forall k :: k in g.nodes && k != r.1 ==> r.0.nodes[k] == g.nodes[k]
    ensures r.0.arcs == g.arcs && r.0.arcOrder == g.arcOrder && r.0.lastArcId == g.lastArcId
    ensures r.0.lastNodeId >= g.lastNodeId && r.0.lastNodeId >= r.1
  {
    var (nid, last) := Allocate(g.lastNodeId, id);
    var g' := g.(nodes := g.nodes[nid := Node(nid, params, coords, [], [])],
                 nodeOrder := PutOrder(g.nodeOrder, nid in g.nodes, nid),
                 lastNodeId := last);
    (g', nid)
  }

  /** createArc(startNode, endNode, params, id): stores the arc under the allocated id and
      appends it to the start node's outputArcs and the end node's inputArcs. An endpoint
      that is not a node of the graph is the undefined of a failed getNode. */
  function CreateArc(g: Graph, s: Id, e: Id, params: Params, id: IdArg): (r: Result<(Graph, Id)>)
    ensures r.Ok? <==> s in g.nodes && e in g.nodes
    ensures r.Err? ==> r.error == Unresolved
    ensures r.Ok? ==> r.value.0.arcs == g.arcs[r.value.1 := Arc(r.value.1, s, e, params)]
    ensures r.Ok? ==> r.value.0.nodes.Keys == g.nodes.Keys && r.value.0.nodeOrder == g.nodeOrder
    ensures r.Ok? ==> r.value.0.lastNodeId == g.lastNodeId && r.value.0.lastArcId >= g.lastArcId
    ensures r.Ok? ==> r.value.0.lastArcId >= r.value.1 && r.value.1 == Allocate(g.lastArcId, id).0
  {
    if s !in g.nodes || e !in g.nodes then Err(Unresolved)
    else
      var (x, last) := Allocate(g.lastArcId, id);
      var h := AddArc(g, x, Arc(x, s, e, params));
      Ok((h.(arcOrder := PutOrder(g.arcOrder, x in g.arcs, x), lastArcId := last), x))
  }

  /** The state change of createArc without the id bookkeeping: the record goes under key x,
      x is appended to the start node's outputArcs and then to the end node's inputArcs. */
  function AddArc(g: Graph, x: Id, a: Arc): (h: Graph)
    requires a.startNode in g.nodes && a.endNode in g.nodes
    ensures h.nodes.Keys == g.nodes.Keys && h.arcs == g.arcs[x := a]
    ensures h.nodeOrder == g.nodeOrder && h.arcOrder == g.arcOrder
    ensures h.lastNodeId == g.lastNodeId && h.lastArcId == g.lastArcId
  {
    var s, e := a.startNode, a.endNode;
    var n1 := g.nodes[s := g.nodes[s].(outputArcs := g.nodes[s].outputArcs + [x])];
    var n2 := n1[e := n1[e].(inputArcs := n1[e].inputArcs + [x])];
    g.(nodes := n2, arcs := g.arcs[x := a])
  }

  /** The id allocation invariant: on a valid graph, createNode with no id (or with an explicit
      id that is neither live nor 0) stores a new node under an id no live node had, the
      counter stays at or above every live id, and the graph stays valid. */
  lemma CreateNodeKeepsValid(g: Graph, params: Params, id: IdArg, coords: Vector)
    requires Valid(g) && FreshArg(id, g.nodes.Keys)
    ensures var (h, x) := CreateNode(g, params, id, coords);
      && x !in g.nodes
      && (id.Auto? ==> x == g.lastNodeId + 1 && h.lastNodeId == x)
      && (id.Given? ==> x == id.n && h.lastNodeId == if id.n > g.lastNodeId then id.n else g.lastNodeId)
      && h.nodeOrder == g.nodeOrder + [x]
      && Valid(h)
      && (NoSelfLoops(g) ==> NoSelfLoops(h))
  {
    var (h, x) := CreateNode(g, params, id, coords);
    assert x !in g.nodes;
    var node := Node(x, params, coords, [], []);
    assert h == g.(nodes := g.nodes[x := node], nodeOrder := g.nodeOrder + [x], lastNodeId := h.lastNodeId);
    NewNodeKeys(g, h, node);
    AddIsolatedNode(g, h, node);
  }

  /** Keys and counters after storing a node under a fresh, nonzero id the counter covers. */
  lemma NewNodeKeys(g: Graph, h: Graph, node: Node)
    requires KeysOk(g) && node.id !in g.nodes && node.id != 0
    requires h == g.(nodes := g.nodes[node.id := node], nodeOrder := g.nodeOrder + [node.id], lastNodeId := h.lastNodeId)
    requires h.lastNodeId >= g.lastNodeId && h.lastNodeId >= node.id
    ensures KeysOk(h)
  {
    DistinctAppend(g.nodeOrder, node.id);
  }

  /** Adding a node with empty lists under an unused id keeps the adjacency. */
  lemma AddIsolatedNode(g: Graph, h: Graph, node: Node)
    requires AdjacencyWith(g, {}) && node.id !in g.nodes && node.inputArcs == [] && node.outputArcs == []
    requires h.nodes == g.nodes[node.id := node] && h.arcs == g.arcs
    ensures AdjacencyWith(h, {})
  {
  }

  /** createArc's id bookkeeping on a graph whose ids are in order: a fresh id is one no live
      arc has, the counter covers it, and the new key goes last in the arc order. */
  lemma CreateArcKeepsKeys(g: Graph, s: Id, e: Id, params: Params, id: IdArg)
    requires KeysOk(g) && s in g.nodes && e in g.nodes && FreshArg(id, g.arcs.Keys)
    ensures var (h, x) := CreateArc(g, s, e, params, id).value;
      && x !in g.arcs
      && (id.Auto? ==> x == g.lastArcId + 1 && h.lastArcId == x)
      && (id.Given? ==> x == id.n && h.lastArcId == if id.n > g.lastArcId then id.n else g.lastArcId)
      && h.arcOrder == g.arcOrder + [x]
      && KeysOk(h)
  {
    var (h, x) := CreateArc(g, s, e, params, id).value;
    assert x !in g.arcs;
    DistinctAppend(g.arcOrder, x);
    assert NodeOrderOk(h);
    assert NodeIdsOk(h) by {
      forall k | k in h.nodes ensures h.nodes[k].id == g.nodes[k].id {
      }
    }
  }

  /** createArc keeps adjacency consistent: on a graph whose adjacency holds up to the flipped
      arcs F, an arc created with a fresh id between two live nodes sits in its start node's
      outputArcs and its end node's inputArcs, no other record changes, and the adjacency
      still holds up to F. */
  lemma CreateArcKeepsAdjacency(g: Graph, F: set<Id>, s: Id, e: Id, params: Params, id: IdArg)
    requires KeysOk(g) && AdjacencyWith(g, F) && F <= g.arcs.Keys
    requires s in g.nodes && e in g.nodes && FreshArg(id, g.arcs.Keys)
    ensures CreateArc(g, s, e, params, id).Ok?
    ensures var (h, x) := CreateArc(g, s, e, params, id).value;
      && x !in g.arcs
      && x in h.nodes[s].outputArcs && x in h.nodes[e].inputArcs
      && (forall k :: k in g.nodes ==> SameRecord(g.nodes[k], h.nodes[k]))
      && KeysOk(h) && AdjacencyWith(h, F)
      && (NoSelfLoops(g) && s != e ==> NoSelfLoops(h))
  {
    var (h, x) := CreateArc(g, s, e, params, id).value;
    CreateArcKeepsKeys(g, s, e, params, id);
    AddArcKeepsAdjacency(g, F, x, Arc(x, s, e, params));
  }

  lemma AddArcKeepsAdjacency(g: Graph, F: set<Id>, x: Id, a: Arc)
    requires AdjacencyWith(g, F) && x !in g.arcs && x !in F
    requires a.startNode in g.nodes && a.endNode in g.nodes
    ensures var h := AddArc(g, x, a);
      && AdjacencyWith(h, F)
      && (forall k :: k in g.nodes ==> SameRecord(g.nodes[k], h.nodes[k]))
      && x in h.nodes[a.startNode].outputArcs && x in h.nodes[a.endNode].inputArcs
  {
    AddArcPlaced(g, F, x, a);
    AddArcInputs(g, F, x, a);
    AddArcOutputs(g, F, x, a);
    AddArcDistinct(g, F, x, a);
  }

  lemma AddArcPlaced(g: Graph, F: set<Id>, x: Id, a: Arc)
    requires ArcsPlaced(g, F) && x !in F && a.startNode in g.nodes && a.endNode in g.nodes
    ensures ArcsPlaced(AddArc(g, x, a), F)
  {
  }

  lemma AddArcInputs(g: Graph, F: set<Id>, x: Id, a: Arc)
    requires InputsSound(g, F) && x !in g.arcs && x !in F
    requires a.startNode in g.nodes && a.endNode in g.nodes
    ensures InputsSound(AddArc(g, x, a), F)
  {
  }

  lemma AddArcOutputs(g: Graph, F: set<Id>, x: Id, a: Arc)
    requires OutputsSound(g, F) && x !in g.arcs && x !in F
    requires a.startNode in g.nodes && a.endNode in g.nodes
    ensures OutputsSound(AddArc(g, x, a), F)
  {
  }

  lemma AddArcDistinct(g: Graph, F: set<Id>, x: Id, a: Arc)
    requires ListsDistinct(g) && InputsSound(g, F) && OutputsSound(g, F) && x !in g.arcs
    requires a.startNode in g.nodes && a.endNode in g.nodes
    ensures ListsDistinct(AddArc(g, x, a))
    ensures forall k :: k in g.nodes ==> SameRecord(g.nodes[k], AddArc(g, x, a).nodes[k])
  {
    var h := AddArc(g, x, a);
    forall k | k in h.nodes
      ensures Distinct(h.nodes[k].inputArcs) && Distinct(h.nodes[k].outputArcs)
    {
      assert x !in g.nodes[k].inputArcs && x !in g.nodes[k].outputArcs;
      DistinctAppend(g.nodes[k].inputArcs, x);
      DistinctAppend(g.nodes[k].outputArcs, x);
    }
  }

  // ---------------------------------------------------------------------------
  // Deletion

  /** deleteArcFromNode(arc, node): drops the arc from the node's inputArcs if it is there,
      otherwise from its outputArcs, otherwise throws "no such element". A node that is no
      longer in the graph is reported the same way. */
  function DeleteArcFromNode(g: Graph, x: Id, n: Id): (r: Result<Graph>)
    ensures r.Ok? <==> n in g.nodes && (x in g.nodes[n].inputArcs || x in g.nodes[n].outputArcs)
    ensures r.Err? ==> r.error == NoSuchElement
    ensures r.Ok? ==> var h := r.value;
      && h.nodes.Keys == g.nodes.Keys
      && h.arcs == g.arcs && h.nodeOrder == g.nodeOrder && h.arcOrder == g.arcOrder
      && h.lastNodeId == g.lastNodeId && h.lastArcId == g.lastArcId
      && (forall k :: k in g.nodes && k != n ==> h.nodes[k] == g.nodes[k])
      && SameRecord(g.nodes[n], h.nodes[n])
      && (x in g.nodes[n].inputArcs ==>
            h.nodes[n].inputArcs == RemoveFirst(g.nodes[n].inputArcs, x)
            && h.nodes[n].outputArcs == g.nodes[n].outputArcs)
      && (x !in g.nodes[n].inputArcs ==>
            h.nodes[n].outputArcs == RemoveFirst(g.nodes[n].outputArcs, x)
            && h.nodes[n].inputArcs == g.nodes[n].inputArcs)
  {
    if n !in g.nodes then Err(NoSuchElement)
    else
      var node := g.nodes[n];
      if x in node.inputArcs then
        Ok(g.(nodes := g.nodes[n := node.(inputArcs := RemoveFirst(node.inputArcs, x))]))
      else if x in node.outputArcs then
        Ok(g.(nodes := g.nodes[n := node.(outputArcs := RemoveFirst(node.outputArcs, x))]))
      else Err(NoSuchElement)
  }

  /** deleteArc(arc): removes the arc from the lists of its start node and then its end node,
      and deletes it from the arc map. An arc that is not in the map is reported as missing. */
  function DeleteArc(g: Graph, x: Id): (r: Result<Graph>)
    ensures x !in g.arcs ==> r == Err(NoSuchElement)
    ensures r.Ok? ==> var h := r.value;
      && h.arcs == g.arcs - {x} && h.nodes.Keys == g.nodes.Keys
      && h.nodeOrder == g.nodeOrder && h.arcOrder == RemoveFirst(g.arcOrder, x)
      && h.lastNodeId == g.lastNodeId && h.lastArcId == g.lastArcId
  {
    if x !in g.arcs then Err(NoSuchElement)
    else
      var a := g.arcs[x];
      var g1 :- DeleteArcFromNode(g, x, a.startNode);
      var g2 :- DeleteArcFromNode(g1, x, a.endNode);
      Ok(g2.(arcs := g.arcs - {x}, arcOrder := RemoveFirst(g.arcOrder, x)))
  }

  /** On a graph whose adjacency holds up to F, deleting a live arc succeeds, takes the arc
      out of exactly the lists that held it, keeps every other list entry and every node
      record, and the adjacency still holds; the arc order stays consistent with the map. */
  lemma DeleteArcKeepsValid(g: Graph, F: set<Id>, x: Id)
    requires AdjacencyWith(g, F) && x in g.arcs
    ensures DeleteArc(g, x).Ok?
    ensures var h := DeleteArc(g, x).value;
      && NodesWithout(g, h, {x})
      && AdjacencyWith(h, F) && AdjacencyWith(h, F - {x})
      && (KeysOk(g) ==> KeysOk(h))
      && (NoSelfLoops(g) ==> NoSelfLoops(h))
  {
    DeleteArcLists(g, F, x);
    var h := DeleteArc(g, x).value;
    RemovalKeepsAdjacency(g, h, F, {x});
    if KeysOk(g) {
      DeleteArcKeys(g, h, x);
    }
  }

  lemma DeleteArcKeys(g: Graph, h: Graph, x: Id)
    requires KeysOk(g) && x in g.arcs
    requires h.arcs == g.arcs - {x} && h.arcOrder == RemoveFirst(g.arcOrder, x)
    requires h.nodeOrder == g.nodeOrder && h.lastNodeId == g.lastNodeId && h.lastArcId == g.lastArcId
    requires NodesWithout(g, h, {x})
    ensures KeysOk(h)
  {
    assert NodeIdsOk(h) by {
      forall k | k in h.nodes ensures h.nodes[k].id == g.nodes[k].id {
      }
    }
  }

  /** h has g's node records, and each of its lists keeps every entry of g's list but x and
      holds nothing g's list did not. */
  ghost predicate ListsShrink(g: Graph, h: Graph, x: Id) {
    && h.nodes.Keys == g.nodes.Keys
    && (forall k :: k in g.nodes ==> SameRecord(g.nodes[k], h.nodes[k]))
    && (forall k, y :: k in g.nodes && y in h.nodes[k].inputArcs ==> y in g.nodes[k].inputArcs)
    && (forall k, y :: k in g.nodes && y in g.nodes[k].inputArcs && y != x ==> y in h.nodes[k].inputArcs)
    && (forall k, y :: k in g.nodes && y in h.nodes[k].outputArcs ==> y in g.nodes[k].outputArcs)
    && (forall k, y :: k in g.nodes && y in g.nodes[k].outputArcs && y != x ==> y in h.nodes[k].outputArcs)
  }

  lemma DeleteArcFromNodeShrinks(g: Graph, x: Id, n: Id)
    requires DeleteArcFromNode(g, x, n).Ok?
    ensures ListsShrink(g, DeleteArcFromNode(g, x, n).value, x)
    ensures ListsDistinct(g) ==> ListsDistinct(DeleteArcFromNode(g, x, n).value)
  {
  }

  /** The list surgery of deleteArc: the two deleteArcFromNode calls find the arc (in the
      tail's output list and the head's input list, whichever is met first) and drop it. */
  lemma DeleteArcLists(g: Graph, F: set<Id>, x: Id)
    requires AdjacencyWith(g, F) && x in g.arcs
    ensures DeleteArc(g, x).Ok?
    ensures NodesWithout(g, DeleteArc(g, x).value, {x})
    ensures ListsDistinct(DeleteArc(g, x).value)
  {
    var a := g.arcs[x];
    var s, e := a.startNode, a.endNode;
    assert x in g.nodes[s].inputArcs || x in g.nodes[s].outputArcs;
    var g1 := DeleteArcFromNode(g, x, s).value;
    DeleteArcFromNodeShrinks(g, x, s);
    assert x in g1.nodes[e].inputArcs || x in g1.nodes[e].outputArcs by {
      if s == e {
        assert x in g.nodes[s].inputArcs && x in g.nodes[s].outputArcs;
      } else {
        assert g1.nodes[e] == g.nodes[e];
      }
    }
    var g2 := DeleteArcFromNode(g1, x, e).value;
    DeleteArcFromNodeShrinks(g1, x, e);
    assert DeleteArc(g, x).value.nodes == g2.nodes;
    DeleteArcGone(g, F, x, g1, g2);
  }

  /** After both calls no list of the graph holds the arc. */
  lemma DeleteArcGone(g: Graph, F: set<Id>, x: Id, g1: Graph, g2: Graph)
    requires AdjacencyWith(g, F) && x in g.arcs
    requires DeleteArcFromNode(g, x, g.arcs[x].startNode) == Ok(g1)
    requires DeleteArcFromNode(g1, x, g.arcs[x].endNode) == Ok(g2)
    ensures forall k :: k in g2.nodes ==> x !in g2.nodes[k].inputArcs && x !in g2.nodes[k].outputArcs
  {
    var s, e := g.arcs[x].startNode, g.arcs[x].endNode;
    forall k | k in g2.nodes
      ensures x !in g2.nodes[k].inputArcs && x !in g2.nodes[k].outputArcs
    {
      if k == s || k == e {
        assert Distinct(g.nodes[k].inputArcs) && Distinct(g.nodes[k].outputArcs);
      } else {
        assert g2.nodes[k] == g.nodes[k];
      }
    }
  }

  /** Dropping the arcs R from the arc map and from every list keeps the adjacency. */
  lemma RemovalKeepsAdjacency(g: Graph, h: Graph, F: set<Id>, R: set<Id>)
    requires AdjacencyWith(g, F) && NodesWithout(g, h, R) && h.arcs == g.arcs - R
    requires ListsDistinct(h)
    ensures AdjacencyWith(h, F) && AdjacencyWith(h, F - R)
  {
    RemovalPlaced(g, h, F, R);
    RemovalInputs(g, h, F, R);
    RemovalOutputs(g, h, F, R);
  }

  lemma RemovalPlaced(g: Graph, h: Graph, F: set<Id>, R: set<Id>)
    requires ArcsPlaced(g, F) && NodesWithout(g, h, R) && h.arcs == g.arcs - R
    ensures ArcsPlaced(h, F) && ArcsPlaced(h, F - R)
  {
  }

  lemma RemovalInputs(g: Graph, h: Graph, F: set<Id>, R: set<Id>)
    requires InputsSound(g, F) && NodesWithout(g, h, R) && h.arcs == g.arcs - R
    ensures InputsSound(h, F) && InputsSound(h, F - R)
  {
    forall k, y | k in h.nodes && y in h.nodes[k].inputArcs
      ensures y in h.arcs && Head(h.arcs[y], y in F) == k
    {
      assert k in g.nodes;
      assert y in g.nodes[k].inputArcs && y !in R;
    }
  }

  lemma RemovalOutputs(g: Graph, h: Graph, F: set<Id>, R: set<Id>)
    requires OutputsSound(g, F) && NodesWithout(g, h, R) && h.arcs == g.arcs - R
    ensures OutputsSound(h, F) && OutputsSound(h, F - R)
  {
    forall k, y | k in h.nodes && y in h.nodes[k].outputArcs
      ensures y in h.arcs && Tail(h.arcs[y], y in F) == k
    {
      assert k in g.nodes;
      assert y in g.nodes[k].outputArcs && y !in R;
    }
  }

  // ---------------------------------------------------------------------------
  // Lookup by endpoints, reversal

  /** The arc x is live and runs from s to e. */
  predicate Joins(g: Graph, x: Id, s: Id, e: Id) {
    x in g.arcs && g.arcs[x].startNode == s && g.arcs[x].endNode == e
  }

  /** The scan of findArcBetweenNodes over the arcs in the given order. */
  function FindIn(g: Graph, order: seq<Id>, s: Id, e: Id): (r: Result<Id>)
    ensures r.Ok? ==> Joins(g, r.value, s, e)
    ensures r.Ok? ==> exists i :: 0 <= i < |order| && order[i] == r.value
                        && forall j :: 0 <= j < i ==> !Joins(g, order[j], s, e)
    ensures r.Err? <==> forall j :: 0 <= j < |order| ==> !Joins(g, order[j], s, e)
    ensures r.Err? ==> r.error == NoSuchElement
  {
    if order == [] then Err(NoSuchElement)
    else if Joins(g, order[0], s, e) then Ok(order[0])
    else
      var r := FindIn(g, order[1..], s, e);
      if r.Ok? then
        ghost var i :| 0 <= i < |order| - 1 && order[1..][i] == r.value
                      && forall j :: 0 <= j < i ==> !Joins(g, order[1..][j], s, e);
        assert order[i + 1] == r.value;
        r
      else r
  }

  /** findArcBetweenNodes(startNode, endNode): the first arc, in insertion order, running
      from startNode to endNode; "no such element" when there is none. */
  function FindArcBetweenNodes(g: Graph, s: Id, e: Id): (r: Result<Id>)
    ensures r.Ok? ==> Joins(g, r.value, s, e)
    ensures r.Err? ==> r.error == NoSuchElement
    ensures ArcOrderOk(g) ==> (r.Ok? <==> exists x :: Joins(g, x, s, e))
  {
    var r := FindIn(g, g.arcOrder, s, e);
    assert ArcOrderOk(g) && (exists x :: Joins(g, x, s, e)) ==> r.Ok? by {
      if ArcOrderOk(g) && exists x :: Joins(g, x, s, e) {
        var x :| Joins(g, x, s, e);
        var i :| 0 <= i < |g.arcOrder| && g.arcOrder[i] == x;
      }
    }
    r
  }

  /** deleteArcBetweenNodes(startNode, endNode): finds the arc and deletes it from both
      endpoints and the arc map. */
  function DeleteArcBetweenNodes(g: Graph, s: Id, e: Id): (r: Result<Graph>)
    ensures FindArcBetweenNodes(g, s, e).Err? ==> r == Err(NoSuchElement)
    ensures FindArcBetweenNodes(g, s, e).Ok? ==> r == DeleteArc(g, FindArcBetweenNodes(g, s, e).value)
  {
    var x :- FindArcBetweenNodes(g, s, e);
    var g1 :- DeleteArcFromNode(g, x, s);
    var g2 :- DeleteArcFromNode(g1, x, e);
    Ok(g2.(arcs := g.arcs - {x}, arcOrder := RemoveFirst(g.arcOrder, x)))
  }

  /** On a graph whose adjacency holds, deleting the arc between two nodes succeeds exactly
      when some arc runs between them, and then removes one such arc and nothing else. */
  lemma DeleteArcBetweenNodesSpec(g: Graph, s: Id, e: Id)
    requires KeysOk(g) && AdjacencyWith(g, {})
    ensures DeleteArcBetweenNodes(g, s, e).Ok? <==> exists x :: Joins(g, x, s, e)
    ensures DeleteArcBetweenNodes(g, s, e).Ok? ==>
      exists x :: Joins(g, x, s, e)
        && DeleteArcBetweenNodes(g, s, e).value.arcs == g.arcs - {x}
        && NodesWithout(g, DeleteArcBetweenNodes(g, s, e).value, {x})
        && Valid(DeleteArcBetweenNodes(g, s, e).value)
  {
    var f := FindArcBetweenNodes(g, s, e);
    if f.Ok? {
      DeleteArcKeepsValid(g, {}, f.value);
    }
  }

  /** The arc with its endpoints swapped. */
  function Reversed(a: Arc): (b: Arc)
    ensures b.id == a.id && b.params == a.params
    ensures b.startNode == a.endNode && b.endNode == a.startNode
  {
    a.(startNode := a.endNode, endNode := a.startNode)
  }

  /** reverseArc(arc): removes the arc from the lists of its endpoints, swaps its endpoints,
      and appends it to the new start's outputArcs and the new end's inputArcs. The arc keeps
      its place in the arc map. */
  function ReverseArc(g: Graph, x: Id): (r: Result<Graph>)
    ensures x !in g.arcs ==> r == Err(NoSuchElement)
    ensures r.Ok? ==> var h := r.value;
      && x in g.arcs && h.arcs == g.arcs[x := Reversed(g.arcs[x])]
      && h.nodes.Keys == g.nodes.Keys
      && h.nodeOrder == g.nodeOrder && h.arcOrder == g.arcOrder
      && h.lastNodeId == g.lastNodeId && h.lastArcId == g.lastArcId
  {
    if x !in g.arcs then Err(NoSuchElement)
    else
      var a := g.arcs[x];
      var g1 :- DeleteArcFromNode(g, x, a.startNode);
      var g2 :- DeleteArcFromNode(g1, x, a.endNode);
      Ok(AddArc(g2, x, Reversed(a)))
  }

  /** reverseArc is deleteArc followed by re-adding the reversed record under the same id. */
  lemma ReverseIsDeleteThenAdd(g: Graph, x: Id)
    requires DeleteArc(g, x).Ok?
    ensures x in g.arcs
    ensures ReverseArc(g, x)
         == Ok(AddArc(DeleteArc(g, x).value, x, Reversed(g.arcs[x])).(arcOrder := g.arcOrder))
  {
    var a := g.arcs[x];
    var g1 := DeleteArcFromNode(g, x, a.startNode).value;
    var g2 := DeleteArcFromNode(g1, x, a.endNode).value;
    var d := DeleteArc(g, x).value;
    assert d == g2.(arcs := g.arcs - {x}, arcOrder := RemoveFirst(g.arcOrder, x));
    assert AddArc(d, x, Reversed(a)).nodes == AddArc(g2, x, Reversed(a)).nodes;
    assert AddArc(d, x, Reversed(a)).arcs == AddArc(g2, x, Reversed(a)).arcs;
  }

  /** Reversing an arc keeps the graph consistent; an arc whose list placement was flipped
      comes out placed the right way round. Every other arc keeps its list entries. */
  lemma ReverseArcKeepsValid(g: Graph, F: set<Id>, x: Id)
    requires AdjacencyWith(g, F) && x in g.arcs
    ensures ReverseArc(g, x).Ok?
    ensures var h := ReverseArc(g, x).value;
      && AdjacencyWith(h, F - {x})
      && (forall k :: k in g.nodes ==> SameRecord(g.nodes[k], h.nodes[k]))
      && (KeysOk(g) ==> KeysOk(h))
      && (NoSelfLoops(g) ==> NoSelfLoops(h))
  {
    DeleteArcKeepsValid(g, F, x);
    var d := DeleteArc(g, x).value;
    ReverseIsDeleteThenAdd(g, x);
    var H := AddArc(d, x, Reversed(g.arcs[x]));
    AddArcKeepsAdjacency(d, F - {x}, x, Reversed(g.arcs[x]));
    var h := ReverseArc(g, x).value;
    SameAdjacency(H, h, F - {x});
    ReverseArcRecords(g, x, d, H, h);
  }

  /** Adjacency looks only at the node and arc maps. */
  lemma SameAdjacency(g: Graph, h: Graph, F: set<Id>)
    requires g.nodes == h.nodes && g.arcs == h.arcs
    ensures AdjacencyWith(g, F) ==> AdjacencyWith(h, F)
  {
  }

  lemma ReverseArcRecords(g: Graph, x: Id, d: Graph, H: Graph, h: Graph)
    requires x in g.arcs && NodesWithout(g, d, {x}) && H.nodes.Keys == d.nodes.Keys
    requires forall k :: k in d.nodes ==> SameRecord(d.nodes[k], H.nodes[k])
    requires H.nodes == h.nodes && h.arcs == g.arcs[x := Reversed(g.arcs[x])]
    requires h.nodeOrder == g.nodeOrder && h.arcOrder == g.arcOrder
    requires h.lastNodeId == g.lastNodeId && h.lastArcId == g.lastArcId
    ensures forall k :: k in g.nodes ==> SameRecord(g.nodes[k], h.nodes[k])
    ensures KeysOk(g) ==> KeysOk(h)
    ensures NoSelfLoops(g) ==> NoSelfLoops(h)
  {
  }

  /** Under a consistent adjacency the lists are determined by the arc map: two graphs with
      the same nodes and arcs whose adjacency holds have lists with the same members. */
  lemma ListsDetermined(g: Graph, h: Graph, F: set<Id>)
    requires AdjacencyWith(g, F) && AdjacencyWith(h, F)
    requires g.nodes.Keys == h.nodes.Keys && g.arcs == h.arcs
    ensures forall k, y :: k in g.nodes ==>
      (y in g.nodes[k].inputArcs <==> y in h.nodes[k].inputArcs)
      && (y in g.nodes[k].outputArcs <==> y in h.nodes[k].outputArcs)
  {
    forall k, y | k in g.nodes
      ensures (y in g.nodes[k].inputArcs <==> y in h.nodes[k].inputArcs)
      ensures (y in g.nodes[k].outputArcs <==> y in h.nodes[k].outputArcs)
    {
      if y in g.nodes[k].inputArcs || y in h.nodes[k].inputArcs {
        assert y in g.arcs;
        assert Head(g.arcs[y], y in F) == k;
      }
      if y in g.nodes[k].outputArcs || y in h.nodes[k].outputArcs {
        assert y in g.arcs;
        assert Tail(g.arcs[y], y in F) == k;
      }
    }
  }

  /** Reversing an arc twice gives back the same graph up to the order of list entries: the
      same records, the same arc map, orders and counters, and lists with the same members. */
  lemma ReverseTwice(g: Graph, x: Id)
    requires Valid(g) && x in g.arcs
    ensures ReverseArc(g, x).Ok? && ReverseArc(ReverseArc(g, x).value, x).Ok?
    ensures var h := ReverseArc(ReverseArc(g, x).value, x).value;
      && h.arcs == g.arcs && h.arcOrder == g.arcOrder && h.nodeOrder == g.nodeOrder
      && h.lastNodeId == g.lastNodeId && h.lastArcId == g.lastArcId
      && NodesWithout(g, h, {})
      && Valid(h)
  {
    ReverseArcKeepsValid(g, {}, x);
    var h1 := ReverseArc(g, x).value;
    assert {} - {x} == {};
    ReverseArcKeepsValid(h1, {}, x);
    var h := ReverseArc(h1, x).value;
    ReverseTwiceLists(g, h1, h, x);
  }

  lemma ReverseTwiceLists(g: Graph, h1: Graph, h: Graph, x: Id)
    requires AdjacencyWith(g, {}) && AdjacencyWith(h, {}) && x in g.arcs
    requires h1.arcs == g.arcs[x := Reversed(g.arcs[x])] && h.arcs == h1.arcs[x := Reversed(h1.arcs[x])]
    requires h.nodes.Keys == g.nodes.Keys
    ensures h.arcs == g.arcs
    ensures forall k, y :: k in g.nodes ==>
      (y in g.nodes[k].inputArcs <==> y in h.nodes[k].inputArcs)
      && (y in g.nodes[k].outputArcs <==> y in h.nodes[k].outputArcs)
  {
    var a := g.arcs[x];
    assert Reversed(Reversed(a)) == a;
    assert h.arcs == g.arcs[x := a];
    ListsDetermined(g, h, {});
  }
}
