# Interactive graphs: a Dafny model of the graph core

This project models the graph core of js-interactive-graphs, a browser editor for directed
graphs, and proves properties of the model in Dafny 4.11:

- **The id-keyed graph** of `modules/graph/graph.js`: classes `Graph` and `VisualGraph`.
  - Nodes and arcs live in two maps keyed by integer id. Each map keeps its insertion order,
    which is the iteration order of a JavaScript `Map`, and each map has its own id counter.
  - A node keeps the ids of its arcs in `inputArcs` and `outputArcs`.
  - Operations: creating nodes and arcs, `findArcBetweenNodes`, `deleteArcFromNode`,
    `deleteArc`, `deleteArcBetweenNodes`, `isolateNode`, `deleteNode`, `reverseArc`, `clear`,
    `clone`, `toJSON`, `fromJSON` and the `compare` methods.
  - Modules: `Graphs`, `Isolation`, `Loading`, `Snapshots`, `Documents`.
- **The versioned graph** `VersionsVisualGraph` (modules `Versions`, `Changes`):
  - two stacks of snapshots, each with a cap: `createBackup`, `createUpdate`, `forgetBackups`,
    `forgetUpdates`;
  - `changeToVersion`, which turns the graph into a snapshot and reports the ids of the nodes
    and arcs that changed;
  - `rollback`, `update` and the reporting `fromJSON`.
- **The graph-level logic of `GraphDrawer`** in `modules/graph/graph-drawer.js` (module
  `Drawing`):
  - the selections of nodes and arcs, kept in `Set` insertion order;
  - the bulk edits on the selection: deleting, connecting, adding a node joined to the
    selection, and reversing;
  - the reconciliation of the element maps with the graph after a change of version;
  - `rollback`, `update`, `saveChanges` and `loadFromJSON`.
  - Each element map is reduced to its set of keys. The arc and arrow maps always hold the
    same ids, so they are one set.
- **Two legacy graphs:**
  - `scripts/graph.js` (module `KeyedGraph`). It is the same id-keyed design, so its
    `createNode`, `createArc`, `deleteArcFromNode`, `isolateNode` and `deleteNode` are modelled
    by the `Graphs` and `Isolation` members; a legacy node has no coordinates and sits at the
    origin. Its own parts are `findArcBetweenNodes`, which matches the end node only, the
    `deleteArc(nodeFrom, nodeTo)` built on it, and `fillWithTwoArraysGraph`.
  - `graph.js` (module `ArrayGraph`). Node and arc objects have no ids, the graph is an array
    of node objects, and an arc exists only through the lists of its two endpoints. Objects
    are modelled by reference: every object ever created keeps its position in
    `nodeObjs`/`arcObjs`, and an argument that is no such position stands for `undefined`.

**Errors.** The model has no exceptions. A throw is an `Err` of `Wrappers.Result`:
- `NoSuchElement` for "no such element";
- `NoBackupsLeft` and `NoUpdatesLeft` for the two history errors;
- `Unresolved` for a `TypeError` raised on an `undefined` that a failed lookup returned.

Records are values. The copies `Object.assign` makes of params, and the copies `clone`
makes, therefore never share anything with the original, and changing one never changes the
other. Params are compared by `JSON.stringify`, which depends on key order, so a params
object is a sequence of key/value pairs compared as a sequence.

An operation that can throw returns a `Result`. A lemma then states exactly when it
succeeds.

**The graph invariant, `Graphs.Valid`.** A node's `inputArcs` and `outputArcs` hold exactly
the live arcs that end or start there, with no repeats. Every map key is the id of its
record. The insertion orders list each key once. Each counter is at or above every id in its
map.

## Model

| member | source | states |
|---|---|---|
| Graphs.IdArgOf | modules/graph/graph.js:90-96 | an id read from a record goes the automatic route exactly when it is 0 (JavaScript `!id`), and otherwise it is the id itself |
| Graphs.Allocate | modules/graph/graph.js:90-96 | an automatic id is the counter plus one; an explicit id is kept; the new counter is the larger of the old counter and the id |
| Graphs.CreateNode | modules/graph/graph.js:272-282 | the new node is stored under its id with the given params and coords and empty lists; every other node and all arcs are untouched; the node counter never goes down and covers the id |
| Graphs.CreateNodeKeepsValid | modules/graph/graph.js:272-282 | on a valid graph with a fresh id, createNode allocates an id no node has (counter plus one, or the explicit id with the counter raised to it), appends it to the node order and keeps the graph valid |
| Graphs.CreateArc | modules/graph/graph.js:283-295 | createArc succeeds exactly when both endpoints are live nodes (else the TypeError of an undefined node); the arc map gains the new record, the nodes keep their keys and order |
| Graphs.CreateArcKeepsKeys | modules/graph/graph.js:283-289 | with a fresh id, the new arc id is not live, the counter covers it, and the id goes last in the arc order |
| Graphs.CreateArcKeepsAdjacency | modules/graph/graph.js:283-295 | the new arc is in its start node's outputArcs and its end node's inputArcs, no node record changes, and list consistency is kept |
| Graphs.DeleteArcFromNode | modules/graph/graph.js:124-136 | succeeds exactly when the arc is in one of the node's lists ("no such element" otherwise); only that node's lists change, and only by dropping the first entry of the arc, from inputArcs if it is there and else from outputArcs |
| Graphs.DeleteArcFromNodeShrinks | modules/graph/graph.js:124-136 | deleteArcFromNode removes only the given arc from the lists and keeps them free of repeats |
| Graphs.DeleteArc | modules/graph/graph.js:159-163 | an arc that is not live is "no such element"; on success the arc is gone from the map and the order, and nodes and counters are kept |
| Graphs.DeleteArcKeepsValid | modules/graph/graph.js:159-163 | on a consistent graph deleteArc succeeds, every list loses exactly that arc, node records are kept, and the graph stays valid |
| Graphs.DeleteArcLists | modules/graph/graph.js:159-162 | the two deleteArcFromNode calls find the arc in the start's output list and the end's input list and drop it from all lists |
| Graphs.FindIn | modules/graph/graph.js:115-122 | the scan returns the first arc in the given order that joins the two nodes, and fails exactly when none does |
| Graphs.FindArcBetweenNodes | modules/graph/graph.js:115-122 | a found arc joins the two nodes; with a consistent arc order the lookup fails ("no such element") exactly when no live arc joins them |
| Graphs.DeleteArcBetweenNodes | modules/graph/graph.js:137-142 | fails exactly as the lookup does, and otherwise is deleteArc of the arc it found |
| Graphs.DeleteArcBetweenNodesSpec | modules/graph/graph.js:137-142 | on a valid graph it succeeds exactly when some arc joins the nodes, and then removes one such arc from the map and the lists and nothing else, keeping the graph valid |
| Graphs.Reversed | modules/graph/graph.js:190-191 | a reversed arc keeps its id and params and swaps its endpoints |
| Graphs.ReverseArc | modules/graph/graph.js:185-194 | reversing an arc that is not live is "no such element"; otherwise the arc is replaced by its reverse in place, and the node keys, orders and counters are kept |
| Graphs.ReverseIsDeleteThenAdd | modules/graph/graph.js:185-194 | reverseArc equals deleteArc followed by re-adding the reversed record under the same id, at the same place in the arc order |
| Graphs.ReverseArcKeepsValid | modules/graph/graph.js:185-194 | on a consistent graph, reverseArc succeeds and the arc is listed the new way round, node records are kept, and validity and the absence of self-loops are kept |
| Graphs.ReverseTwice | modules/graph/graph.js:185-194 | reversing an arc twice gives back the same arc map, orders and counters, and lists with the same members |
| Isolation.Unlink | modules/graph/graph.js:144-151 | one step of isolateNode: an arc that is not live is "no such element"; otherwise the arc leaves the map and the order, and node keys and counters are kept |
| Isolation.IsolateNodeAsWritten | modules/graph/graph.js:143-154 | isolateNode exactly as written, with each loop walking the live list it is shrinking; an unknown node is the TypeError case; node keys are kept |
| Isolation.IsolateNode | modules/graph/graph.js:143-154 | isolateNode with each loop walking the list as it was when the loop began; an unknown node is the TypeError case; the node's lists end empty and the keys and counters are kept |
| Isolation.IsolateNodeSpec | modules/graph/graph.js:143-154 | on a valid graph isolateNode succeeds: exactly the arcs touching the node leave the map and every list, and the graph stays valid |
| Isolation.TouchingIsLists | modules/graph/graph.js:81-88 | on a consistent graph, the arcs touching a node are exactly those its two lists hold |
| Isolation.LiveIsSnapshot | modules/graph/graph.js:144-151 | when no arc in the list has its far end at the node itself, the live loop and the snapshot loop give the same result |
| Isolation.AsWrittenAgrees | modules/graph/graph.js:143-158 | on a valid graph without self-loops, isolateNode and deleteNode as written equal the corrected ones |
| Isolation.SelfLoopSkipsNext | modules/graph/graph.js:143-158 | a node with a self-loop ahead of another arc: deleting it as written leaves an arc whose end node is gone and an invalid graph, while the corrected deleteNode removes both arcs |
| Isolation.DanglingInvalid | modules/graph/graph.js:155-158 | an arc whose end node is not in the graph makes the graph invalid |
| Isolation.DeleteNode | modules/graph/graph.js:155-158 | an unknown node is the TypeError case; on success the node leaves the map and the order and the counters are kept |
| Isolation.DeleteNodeAsWritten | modules/graph/graph.js:155-158 | deleteNode on top of the as-written isolateNode removes the node's key |
| Isolation.DeleteNodeSpec | modules/graph/graph.js:155-158 | on a valid graph deleteNode succeeds, removing the node and exactly the arcs touching it from the map and all lists, and keeps the graph valid |
| Isolation.DeleteNodeBy | modules/graph/graph.js:155-158 | deleteNode as written or corrected: an unknown node is the TypeError case; on success exactly that node's key goes and the counters are kept |
| Isolation.DeleteAll | modules/graph/graph.js:197-199 | deleting the nodes one after another, as written or corrected, removes exactly the listed keys on success and keeps the counters |
| Isolation.DeleteAllSpec | modules/graph/graph.js:196-202 | deleting every node of a valid graph in turn succeeds and leaves a valid graph with no nodes |
| Isolation.Clear | modules/graph/graph.js:196-202 | clear resets both counters to 0 |
| Isolation.ClearEmpties | modules/graph/graph.js:196-202 | clear on a valid graph gives exactly the freshly constructed empty graph |
| Isolation.ClearAsWritten | modules/graph/graph.js:196-202 | clear on the as-written deleteNode: on success the counters are 0 and every key of the node order is gone |
| Isolation.DeleteAllAgrees | modules/graph/graph.js:197-199 | on a valid graph without self-loops, deleting nodes in turn as written gives exactly the corrected result, error or graph |
| Isolation.ClearAgrees | modules/graph/graph.js:196-202 | on a valid graph without self-loops, clear as written succeeds and gives the freshly constructed empty graph, as the corrected clear does |
| Isolation.ClearSelfLoopThrows | modules/graph/graph.js:196-202 | on the valid graph whose node 1 has a self-loop ahead of an arc from node 2, clear as written throws "no such element", since the second deleteNode meets the arc the first one skipped; the corrected clear empties it |
| Loading.LoadNodes | modules/graph/graph.js:320-322 | creating node records in turn adds node keys and never touches the arcs or lowers the node counter |
| Loading.LoadNodesSpec | modules/graph/graph.js:320-322 | with fresh, distinct, nonzero ids, the records' nodes are added in order with their params and coords and empty lists, the counter becomes the larger of itself and the ids, and the graph stays valid |
| Loading.LoadArcs | modules/graph/graph.js:323-327 | creating arc records in turn succeeds exactly when every record's endpoints are nodes (else the TypeError of an undefined node) and keeps the node keys |
| Loading.LoadArcsSpec | modules/graph/graph.js:323-327 | with fresh, distinct, nonzero ids between existing nodes, the arcs are added in order, listed by their endpoints, and the graph stays valid |
| Loading.LoadedNoSelfLoops | modules/graph/graph.js:323-327 | loading arc records none of which is a loop adds no self-loop |
| Loading.CopyNodes | modules/graph/graph.js:301-302 | re-creating a valid graph's nodes in map order into an empty graph gives the same node records, keys, order and counter |
| Loading.CopyArcs | modules/graph/graph.js:307-311 | re-creating a valid graph's arcs in any order that lists each once succeeds, gives the same arc map, keeps validity and adds no self-loop |
| Snapshots.Clone | modules/graph/graph.js:297-315 | a clone ends with the original's counters |
| Snapshots.GatherSpec | modules/graph/graph.js:301-306 | collecting the input lists of the given nodes lists each arc ending at one of them exactly once |
| Snapshots.GatherAll | modules/graph/graph.js:301-306 | over all nodes, the collected list names every live arc exactly once |
| Snapshots.CloneSpec | modules/graph/graph.js:297-315 | clone of a valid graph succeeds and gives a valid graph with the same node records and list members, the same arc map and node order, the arcs in collected order, and the same counters |
| Snapshots.CloneSameContent | modules/graph/graph.js:297-315 | a clone compares equal, node by node and arc by arc, to the original |
| Snapshots.CloneTwice | modules/graph/graph.js:297-315 | cloning twice still gives the original's records, arc map and node order |
| Documents.ToJson | modules/graph/graph.js:217-232 | toJSON writes at most one record per entry of the node order and of the arc order; the records themselves are stated by `Documents.ToJsonRecords` |
| Documents.ToJsonRecords | modules/graph/graph.js:217-232 | on a valid graph toJSON writes every node and every arc exactly once, in map order, each as its record |
| Documents.RoundTrip | modules/graph/graph.js:317-328 | fromJSON of toJSON of a valid graph, read into any valid graph, succeeds and gives the same records, arc map and orders, a valid graph, and counters equal to the largest ids |
| Documents.RoundTripSameContent | modules/graph/graph.js:317-328 | the round trip compares equal to the original |
| Documents.RoundTripCounters | modules/graph/graph.js:317-328 | the round trip's counters never exceed the original's |
| Documents.FromJsonResolves | modules/graph/graph.js:317-328 | with distinct nonzero node ids, fromJSON succeeds exactly when every arc record's endpoints are among the document's node ids, and otherwise fails with the TypeError case |
| Documents.FromJsonValid | modules/graph/graph.js:317-328 | a well-formed document yields a valid graph whose keys and orders are exactly the document's ids in document order |
| Documents.FromJsonAsWritten | modules/graph/graph.js:317-328 | fromJSON on the as-written clear: when that clear throws, fromJSON throws the same error |
| Documents.FromJsonAgrees | modules/graph/graph.js:317-328 | read into a valid graph without self-loops, fromJSON as written equals the corrected fromJSON, so the round-trip lemmas hold of it |
| Documents.SelfLoopLoads | modules/graph/graph.js:317-328 | fromJSON as written of toJSON of the self-loop graph, read into an empty graph, gives back that graph |
| Documents.FromJsonSelfLoopThrows | modules/graph/graph.js:317-328 | reading any document into the self-loop graph throws "no such element" as written, while the corrected fromJSON loads the document into an empty graph |
| Changes.SyncNode | modules/graph/graph.js:378-388 | the first pass on one node reports it exactly when it is new or compares unequal, and leaves the arcs alone |
| Changes.SyncNodesSpec | modules/graph/graph.js:378-388 | the first pass keeps the graph valid, adds the version's new nodes, gives every visited node the version's params and coords, leaves other nodes and all lists alone, and reports exactly the new or differing nodes |
| Changes.DropNodes | modules/graph/graph.js:389-398 | the second pass, as written or corrected, on success removes exactly the visited nodes the version lacks, reports exactly those, and keeps the counters |
| Changes.DropNodesSpec | modules/graph/graph.js:389-398 | the second pass succeeds on a valid graph and deletes exactly the nodes the version lacks and the arcs touching them, reporting exactly those, and keeps the graph valid |
| Changes.Repoint | modules/graph/graph.js:405-413 | an existing arc gets the version's endpoints and params, and node keys, arc order and counters are kept; as written, or when the endpoints stay the same, only the arc record changes |
| Changes.SyncArc | modules/graph/graph.js:399-414 | the third pass on one arc reports it exactly when it is new or compares unequal; the node keys and node counter are kept |
| Changes.SyncArcsValid | modules/graph/graph.js:399-414 | moving arcs between lists, the third pass succeeds on a valid graph when the version's arcs join live nodes, and keeps validity and the node records |
| Changes.SyncArcsSpec | modules/graph/graph.js:399-414 | the third pass leaves every visited arc equal to the version's, keeps the others, and reports exactly the new or differing arcs |
| Changes.DropArcs | modules/graph/graph.js:415-421 | the fourth pass keeps node keys and counters |
| Changes.DropArcsSpec | modules/graph/graph.js:415-421 | the fourth pass succeeds on a valid graph, deletes and reports exactly the arcs the version lacks, and keeps the graph valid |
| Changes.ApplyVersion | modules/graph/graph.js:375-423 | the four passes in turn, as written or corrected, never lower the node counter |
| Changes.ChangeToVersionAsWritten | modules/graph/graph.js:375-423 | changeToVersion as written, with the as-written deleteNode in pass 2 and a changed arc re-pointed in place in pass 3, never lowers the node counter |
| Changes.ChangeToVersion | modules/graph/graph.js:375-423 | changeToVersion with a changed arc moved between lists never lowers the node counter |
| Changes.ChangeToVersionSpec | modules/graph/graph.js:375-423 | between valid graphs changeToVersion succeeds, gives a valid graph with the version's node keys and records and exactly its arc map, keeps counters from going down, and reports exactly the nodes and arcs that were added, dropped or differ |
| Changes.ChangeToVersionSameContent | modules/graph/graph.js:375-423 | after changeToVersion the graph compares equal to the version |
| Changes.DropNodesAgrees | modules/graph/graph.js:389-398 | on a valid graph without self-loops, pass 2 as written gives exactly the corrected pass 2's result |
| Changes.SyncArcsAgree | modules/graph/graph.js:399-414 | when no arc the graph shares with the version changes endpoints, pass 3 as written gives exactly the corrected pass 3's result |
| Changes.ChangeToVersionAgrees | modules/graph/graph.js:375-423 | between valid graphs, when the graph has no self-loops and no shared arc changes endpoints, changeToVersion as written equals the corrected one, so ChangeToVersionSpec holds of it |
| Changes.DropSelfLoopThrows | modules/graph/graph.js:389-398 | changing the valid self-loop graph into the empty graph throws "no such element" as written, in pass 2, while the corrected changeToVersion succeeds |
| Changes.RepointLeavesStaleLists | modules/graph/graph.js:405-413 | with one arc from node 1 to node 2 and a version where it runs from 2 to 1, the as-written pass leaves the arc in node 1's output list and the graph invalid, while the corrected one gives a valid graph with the version's arcs |
| Versions.NewHistoryOk | modules/graph/graph.js:334-343 | the constructor's history satisfies the invariant and holds no snapshots |
| Versions.Push | modules/graph/graph.js:352-358 | pushing keeps the newest entries of the stack plus the snapshot, one fewer than it would otherwise have when the cap is exceeded |
| Versions.PushSpec | modules/graph/graph.js:352-358 | with a cap of at least one, the pushed stack ends with the snapshot, stays within the cap, and keeps the old stack, or all of it but its oldest entry when it was full |
| Versions.CreateBackup | modules/graph/graph.js:352-358 | createBackup changes only the backups |
| Versions.CreateBackupSpec | modules/graph/graph.js:352-358 | createBackup pushes a clone of the graph and keeps the invariant; when backups are kept at all, the newest one compares equal to the graph |
| Versions.CreateUpdate | modules/graph/graph.js:359-365 | createUpdate changes only the updates |
| Versions.CreateUpdateSpec | modules/graph/graph.js:359-365 | createUpdate pushes a clone of the graph and keeps the invariant; when updates are kept at all, the newest one compares equal to the graph |
| Versions.ForgetBackups | modules/graph/graph.js:367-369 | forgetBackups empties the backups, changes nothing else and keeps the invariant |
| Versions.ForgetUpdates | modules/graph/graph.js:370-372 | forgetUpdates empties the updates, changes nothing else and keeps the invariant |
| Versions.Rollback | modules/graph/graph.js:425-432 | with no backups, rollback throws "no backups left"; otherwise one backup is popped |
| Versions.RollbackSpec | modules/graph/graph.js:425-432 | rollback fails exactly when there are no backups; otherwise it keeps the invariant, pops the newest backup, pushes a clone of the graph onto the updates and turns the graph into that backup with the exact change set |
| Versions.Update | modules/graph/graph.js:433-440 | with no updates, update throws "no updates left"; otherwise one update is popped |
| Versions.UpdateSpec | modules/graph/graph.js:433-440 | update fails exactly when there are no updates; otherwise it keeps the invariant, pops the newest update, pushes a clone onto the backups and turns the graph into that update with the exact change set |
| Versions.RollbackThenUpdate | modules/graph/graph.js:425-440 | a rollback followed by an update restores the graph's content and the backups' contents, and reports the same change set both ways |
| Versions.RollbackAsWritten | modules/graph/graph.js:425-432 | rollback on changeToVersion as written: with no backups it throws "no backups left"; otherwise one backup is popped |
| Versions.UpdateAsWritten | modules/graph/graph.js:433-440 | update on changeToVersion as written: with no updates it throws "no updates left"; otherwise one update is popped |
| Versions.RollbackAgrees | modules/graph/graph.js:425-432 | on a consistent history whose graph has no self-loops and shares no arc with changed endpoints with the newest backup, rollback as written equals the corrected rollback, so RollbackSpec holds of it |
| Versions.UpdateAgrees | modules/graph/graph.js:433-440 | the same for update and the newest update |
| Versions.RollbackThenUpdateAgrees | modules/graph/graph.js:425-440 | when in addition the newest backup has no self-loops, both halves of the round trip as written equal the corrected ones, so RollbackThenUpdate holds of them |
| Versions.RollbackGraphs | modules/graph/graph.js:425-432 | when the changeToVersion a rollback calls succeeds on the graph and the newest backup, the rollback succeeds with that graph |
| Versions.RollbackLeavesStaleLists | modules/graph/graph.js:425-432 | reverse the one arc of a graph where it runs from node 2 to node 1, then roll back: as written the graph is left invalid, while the corrected rollback gives a valid graph with the backup's arcs |
| Versions.VersionsFromJson | modules/graph/graph.js:442-459 | the reporting fromJSON leaves both stacks alone |
| Versions.VersionsFromJsonSpec | modules/graph/graph.js:442-459 | loading a well-formed document keeps the invariant, gives the document's ids, and reports exactly the ids of the old graph together with those of the new one |
| Drawing.Select | modules/graph/graph-drawer.js:452-455 | selecting adds the id (an already selected id keeps its place) and keeps the selection free of repeats |
| Drawing.Deselect | modules/graph/graph-drawer.js:456-459 | deselecting removes exactly the id |
| Drawing.Toggle | modules/graph/graph-drawer.js:460-466 | toggling flips the membership of the id and of no other |
| Drawing.ToggleTwice | modules/graph/graph-drawer.js:460-466 | toggling twice restores the selected set, and the very sequence when the id was not selected |
| Drawing.PruneSpec | modules/graph/graph-drawer.js:502-515 | removing the ids that no longer resolve keeps exactly the selected ids that do, without repeats, and changes nothing when all resolve |
| Drawing.DeselectEachSpec | modules/graph/graph-drawer.js:467-472 | the deselect loop succeeds exactly when every selected id resolves |
| Drawing.ClearSelectionSpec | modules/graph/graph-drawer.js:494-501 | clearSelection succeeds exactly when every selected node and arc id resolves in the graph, and otherwise fails with the TypeError case |
| Drawing.DeleteArcsSpec | modules/graph/graph-drawer.js:530-534 | deleting distinct live arcs with their elements succeeds, keeps the element maps in line, and removes exactly those arcs |
| Drawing.MissingViewFails | modules/graph/graph-drawer.js:517-524 | an arc without an element makes the deletion loop throw |
| Drawing.RepeatFails | modules/graph/graph-drawer.js:535-546 | an arc listed twice makes the deletion loop throw |
| Drawing.DeleteNodeWithViewsSpec | modules/graph/graph-drawer.js:535-546 | the drawer's deleteNode on a node without a self-loop succeeds, keeps the element maps in line, and removes the node and exactly its arcs |
| Drawing.RemoveNodeViewSpec | modules/graph/graph-drawer.js:544-545 | removing a node no arc touches, with its element, keeps the maps in line and removes just the node |
| Drawing.DeleteNodeSelfLoopFails | modules/graph/graph-drawer.js:535-546 | a node with a self-loop makes the drawer's deleteNode throw, since the loop is collected from both lists |
| Drawing.DeleteEachArcSpec | modules/graph/graph-drawer.js:548-550 | the arc half of deleteSelected removes exactly the selected arcs |
| Drawing.DeleteEachNodeSpec | modules/graph/graph-drawer.js:551-553 | on a graph without self-loops, the node half of deleteSelected removes exactly the selected nodes and the arcs attached to them |
| Drawing.DeleteSelectedSpec | modules/graph/graph-drawer.js:547-556 | on a consistent drawer whose selections resolve and whose graph has no self-loops, deleteSelected succeeds, keeps the invariant, empties both selections, and removes exactly the selected nodes, the selected arcs and the arcs attached to the selected nodes |
| Drawing.CreateNodeWithView | modules/graph/graph-drawer.js:558-566 | the drawer's createNode allocates the next node id with the given params and coords and adds its element |
| Drawing.CreateArcWithView | modules/graph/graph-drawer.js:567-582 | the drawer's createArc succeeds exactly when both endpoints are nodes, adds the arc's element, and leaves the node keys alone |
| Drawing.CreateArcStep | modules/graph/graph-drawer.js:567-582 | one arc between live nodes is appended under the next arc id, with the element maps kept in line |
| Drawing.CreateEachSpec | modules/graph/graph-drawer.js:567-582 | creating arcs between live nodes appends exactly one arc per pair, under consecutive fresh ids, and keeps the element maps in line |
| Drawing.ConnectFromChain | modules/graph/graph-drawer.js:605-616 | once a node has been visited, the loop creates exactly the arcs of the chain through the remaining selection |
| Drawing.ConnectSelectedSpec | modules/graph/graph-drawer.js:605-616 | with k resolving selected nodes, connectSelectedNodes keeps the invariant and returns k-1 new arcs, the i-th from the i-th selected node to the next |
| Drawing.ConnectFromFails | modules/graph/graph-drawer.js:605-616 | a selected id that does not resolve, after one that does, makes connectSelectedNodes throw |
| Drawing.CreateNodeConnectedSpec | modules/graph/graph-drawer.js:584-603 | createNodeConnectedToSelectedNodes fails exactly when a selected id does not resolve; otherwise it adds one new node at the given coords and one arc from each selected node to it, keeping the invariant |
| Drawing.ReverseEachSpec | modules/graph/graph-drawer.js:618-623 | reversing distinct live arcs flips exactly those arcs and keeps the element maps in line |
| Drawing.ReverseSelectedSpec | modules/graph/graph-drawer.js:618-623 | reverseSelectedArcs on a consistent drawer whose selected arcs resolve flips exactly the selected arcs and keeps the invariant |
| Drawing.FlippedTwice | modules/graph/graph-drawer.js:618-623 | reversing the same arcs twice gives back every arc and node record |
| Drawing.UpdateViewsSyncs | modules/graph/graph-drawer.js:853-919 | when the change set covers every id whose presence changed, the element maps end in line with the graph and each selection keeps exactly its ids that still resolve |
| Drawing.BecameCovers | modules/graph/graph.js:375-423 | the change set of changeToVersion covers every id whose presence changed |
| Drawing.RollbackSpec | modules/graph/graph-drawer.js:922-927 | the drawer's rollback never throws on a consistent drawer; with a backup left the graph takes the newest backup's content and one backup is used |
| Drawing.UpdateSpec | modules/graph/graph-drawer.js:928-933 | the same for update with the newest update |
| Drawing.SaveChanges | modules/graph/graph-drawer.js:935-938 | saveChanges keeps the graph, selections and elements and forgets every update |
| Drawing.SaveChangesSpec | modules/graph/graph-drawer.js:935-938 | saveChanges keeps the invariant and pushes a clone of the graph onto the backups; when backups are kept at all, the newest one compares equal to the graph |
| Drawing.LoadFromJsonSpec | modules/graph/graph-drawer.js:945-949 | loading a well-formed document keeps the invariant, leaves elements for exactly the document's ids, and keeps the previous graph as the newest backup |
| KeyedGraph.FindTo | scripts/graph.js:74-81 | the legacy scan returns the first arc, in map order, that ends at the end node, and fails exactly when none does |
| KeyedGraph.FindArcAsWritten | scripts/graph.js:74-81 | the legacy lookup returns an arc ending at the end node, whatever its start; with a consistent order it fails exactly when no arc ends there |
| KeyedGraph.DeleteArcAsWritten | scripts/graph.js:96-101 | the legacy deleteArc fails when the lookup does, and on success removes the arc the lookup found from the map and the order |
| KeyedGraph.DeleteArcAsWrittenAgrees | scripts/graph.js:96-101 | on a valid graph, whenever the legacy deleteArc succeeds, the arc it found joins the two nodes and the result equals the current deleteArcBetweenNodes |
| KeyedGraph.FindToJoins | scripts/graph.js:74-81 | when the arc the legacy scan finds happens to start at the start node, both scans agree |
| KeyedGraph.FindIgnoresStart | scripts/graph.js:74-101 | nodes 1 and 2 each with an arc into node 3: asked for the arc from 2 to 3, the legacy lookup returns arc 1 and the legacy deleteArc throws, while the corrected lookup finds arc 2 and deletes it |
| KeyedGraph.FillNodes | scripts/graph.js:140-143 | the first loop adds the literal's keys as nodes and leaves the arcs alone |
| KeyedGraph.FillArcs | scripts/graph.js:144-150 | the second loop succeeds exactly when every pair names keys of the literal, and otherwise fails with the TypeError case |
| KeyedGraph.FillWithTwoArraysGraph | scripts/graph.js:138-151 | fillWithTwoArraysGraph throws (a TypeError) exactly when a pair names a key the literal lacks |
| KeyedGraph.FillSpec | scripts/graph.js:138-151 | with distinct, nonzero, unused keys and resolving pairs, the fill succeeds, keeps the graph valid, adds one node per key with its params, and one arc per pair with automatic ids and no params |
| ArrayGraph.CreateNode | graph.js:22-26 | createNode allocates a new node object with empty lists and the given params, pushes it onto the array, and leaves every other object alone |
| ArrayGraph.CreateNodeKeepsConsistent | graph.js:22-26 | the new node was not in the array, and the graph stays consistent |
| ArrayGraph.CreateArc | graph.js:27-32 | createArc succeeds exactly when both arguments are node objects; the new arc is appended to the start's outArcs and the end's inArcs, and nothing else changes |
| ArrayGraph.CreateArcKeepsConsistent | graph.js:27-32 | on a consistent graph the new arc is linked by both ends, the graph stays consistent, and every linked arc stays linked |
| ArrayGraph.FindArcBetweenNodes | graph.js:34-41 | a found arc is in the start's outArcs and points at the end node; the lookup fails exactly when no such arc is there |
| ArrayGraph.DeleteArcFromNode | graph.js:43-55 | succeeds exactly when the arc is in one of the node's lists; drops its first entry from inArcs if it is there and else from outArcs, and changes nothing else |
| ArrayGraph.DeleteArcAsWritten | graph.js:56-61 | deleteArc as written always throws, "no such element" when both arguments are nodes |
| ArrayGraph.DeleteArc | graph.js:56-59 | deleteArc without the trailing throw fails as the lookup does and keeps the objects and the array |
| ArrayGraph.DeleteArcSpec | graph.js:56-59 | on a consistent graph it succeeds exactly when an arc runs from the start to the end; that arc is unlinked from both ends, every other arc keeps its links, and the graph stays consistent |
| ArrayGraph.OneArcThrows | graph.js:56-61 | on a graph with one arc from node 0 to node 1, deleteArc as written throws, although without the throw it returns the graph with both lists emptied |
| ArrayGraph.IsolateNode | graph.js:62-71 | an argument that is not a node object is the TypeError case; on success the node's lists are empty and the objects and the array are kept |
| ArrayGraph.IsolateSpec | graph.js:62-71 | on a consistent graph where the node has no self-loop, isolateNode succeeds: its lists are emptied, every other node loses exactly the arcs it listed, and the linked arcs are the old ones not touching it |
| ArrayGraph.DeleteNode | graph.js:72-80 | an argument that is not a node object is the TypeError case; a node object not in the array makes it throw "no such element" after isolating; on success the node leaves the array |
| ArrayGraph.DeleteNodeSpec | graph.js:72-80 | on a consistent graph, deleteNode of a listed node without a self-loop succeeds, removes it from the array, unlinks exactly its arcs, and keeps the graph consistent |
| ArrayGraph.DetachedNodeThrows | graph.js:72-80 | a node object the array no longer holds is isolated and then deleteNode throws "no such element" |
| ArrayGraph.PutParamSpec | graph.js:105 | after `params[k] = v`, k reads v, every other key reads as before, and the object grows by one entry exactly when k was new |
| ArrayGraph.FillWithTwoArraysGraph | graph.js:101-115 | the fill can only fail with the TypeError case |
| ArrayGraph.FillThrowsIff | graph.js:101-115 | the fill throws exactly when a pair names a key the literal lacks |
| ArrayGraph.FillSpec | graph.js:101-115 | with distinct keys and resolving pairs, the fill appends one node per key, in key order, with its params plus the key as `id`, and one arc per pair joining the node objects of its keys |
| ArrayGraph.FillKeepsConsistent | graph.js:101-115 | a successful fill keeps a consistent graph consistent, links every new arc, and keeps every old link |

## Left out

- Rendering is not modelled: the DOM, SVG elements, painting colours, scaling and the
  parameter editors of `graph-drawer.js`. Each element map is reduced to its set of keys.
- Geometry and the camera are not modelled: vector arithmetic, dragging, zooming and the
  coordinates `createNodeConnectedToSelectedNodes` computes from the selection, the camera
  and `Math.random`. Coordinates are an input (`Drawing.CreateNodeConnected`), because they
  need floating point and randomness.
- Event handlers and keyboard and mouse bindings are not modelled. They only call the
  modelled operations. `graph-frame.js` and `graph-frame-keymouse-events.js` are not part of
  this model.
- `saveToJSON` and the download are not modelled, because they are I/O. The text layer of
  `toJSON`/`fromJSON` is taken to give back the records it was given: `JSON.stringify` and
  `JSON.parse` are not modelled.
- Number-to-string coercion is not modelled:
  - `Number(id)` in createNode/createArc;
  - the string keys of `nodesById` in `scripts/graph.js`.

  `KeyedGraph` reads keys as integers, and `ArrayGraph` reads them as strings, as its
  `for … in` yields them.
- The `for … in` key order of the two-arrays literal is taken as given: the literal is a
  sequence of key/params pairs.
- `ArrayGraph.FillSpec` does not model aliasing. `graph.js` writes the `id` key into the
  literal's own params object. The model gives the created node the updated params and leaves
  the literal itself unchanged.
- `KeyedGraph.FillSpec`: requires distinct, nonzero keys no live node has. A key of a live
  node, or a repeated key, makes `createNode` overwrite a node. The key `"0"` is a non-empty
  string, so `!id` is false and it becomes the explicit id 0 (scripts/graph.js:49-58); the
  graph invariant `Graphs.Valid` excludes id 0, because `createNode` sends a numeric 0 to the
  counter. The fill's result is still modelled for such keys; only the properties are not.
- State after a throw is not modelled: an `Err` carries no graph. JavaScript keeps whatever a
  loop had changed before it threw.
- `clone` of the two legacy graphs is not modelled. It keys `oldToNewNode` by an object, which
  JavaScript turns into the one string `"[object Object]"`, so every arc would join the last
  node created. The current `clone` is modelled in `Snapshots`.
- `ArrayGraph.IsolateNode` walks a snapshot of each list, taken when its loop begins, where
  graph.js:63-68 walks the live list with `for … of`. The two differ only on a node with a
  self-loop, which the live loop would shrink under itself. That live walk is modelled only
  for the current graph (`Isolation.LiveLoop`).
- `ArrayGraph.DeleteNode` isolates the node through `ArrayGraph.IsolateNode`, so it too walks
  a snapshot of each list instead of graph.js:63-68's live `for … of`.
- `ArrayGraph.IsolateSpec`: requires `NoLoopAt`, because `ArrayGraph.IsolateNode` departs from
  the source only on a self-loop.
- `ArrayGraph.DeleteNodeSpec`: requires `NoLoopAt`, for the same reason.
- `Drawing.DeleteNodeWithViewsSpec`: requires `NoLoopAt`. With a self-loop the drawer's
  deleteNode throws (`Drawing.DeleteNodeSelfLoopFails`).
- `Drawing.DeleteSelectedSpec`: requires a graph without self-loops, for the same reason.
- `Drawing.DeleteEachNodeSpec`: requires a graph without self-loops, for the same reason.
- `Changes.ChangeToVersionAsWritten`: no invariant is proved of it in general, only that it
  equals `Changes.ChangeToVersion` when the graph has no self-loops and no shared arc changes
  endpoints (`Changes.ChangeToVersionAgrees`). Outside that case it throws on a self-loop
  (`Changes.DropSelfLoopThrows`) or leaves stale lists (`Changes.RepointLeavesStaleLists`). A
  weaker invariant, "each arc sits in some list of each of its endpoints", does not hold
  either: after a `fromJSON` lowers the counters, an arc id can be reused, and a re-pointed arc
  then sits in no list of its new endpoints.
- `Isolation.DeleteAll`: the contract holds of both deleteNode variants, but the full effect
  is proved of the corrected one only (`Isolation.DeleteAllSpec`). As written, the result
  equals the corrected one on a graph without self-loops (`Isolation.DeleteAllAgrees`).
- `Isolation.DeleteAllSpec` is stated of the corrected deleteNode, which walks a copy of each
  list. As written it holds on graphs without self-loops (`Isolation.DeleteAllAgrees`) and
  fails on a self-loop ahead of another arc (`Isolation.ClearSelfLoopThrows`).
- `Isolation.Clear` is clear on the corrected deleteNode. The source's clear is
  `Isolation.ClearAsWritten`; the two agree without self-loops (`Isolation.ClearAgrees`) and
  differ on `Isolation.ClearSelfLoopThrows`.
- `Isolation.ClearEmpties` is proved of the corrected clear. As written it holds without
  self-loops (`Isolation.ClearAgrees`); with a self-loop ahead of another arc the source
  throws instead (`Isolation.ClearSelfLoopThrows`).
- `Documents.RoundTrip` is proved of fromJSON on the corrected clear. The source's fromJSON
  (`Documents.FromJsonAsWritten`) gives the same result when the graph read into has no
  self-loops (`Documents.FromJsonAgrees`), and throws on the self-loop graph
  (`Documents.FromJsonSelfLoopThrows`).
- `Documents.RoundTripSameContent` is stated of the corrected fromJSON, for the reason given
  for `Documents.RoundTrip`.
- `Documents.RoundTripCounters` is stated of the corrected fromJSON, for the reason given for
  `Documents.RoundTrip`.
- `Documents.FromJsonResolves` is stated of the corrected fromJSON. As written it holds when
  the graph read into has no self-loops (`Documents.FromJsonAgrees`).
- `Documents.FromJsonValid` is stated of the corrected fromJSON. As written it holds when the
  graph read into has no self-loops (`Documents.FromJsonAgrees`).
- `Changes.DropNodes`: the contract holds of both variants of pass 2; the full effect is
  proved of the corrected one (`Changes.DropNodesSpec`), and as written it equals that on a
  graph without self-loops (`Changes.DropNodesAgrees`).
- `Changes.DropNodesSpec` is stated of pass 2 on the corrected deleteNode. As written it holds
  on graphs without self-loops (`Changes.DropNodesAgrees`) and throws on a self-loop
  (`Changes.DropSelfLoopThrows`).
- `Changes.ApplyVersion`: its own contract is only the counter bound. The full effect is
  `Changes.ChangeToVersionSpec` for the corrected passes, and `Changes.ChangeToVersionAgrees`
  carries it to the as-written passes on graphs without self-loops where no shared arc changes
  endpoints.
- `Versions.Rollback` is rollback on the corrected changeToVersion. The source's rollback is
  `Versions.RollbackAsWritten`; the two agree under the conditions of
  `Versions.RollbackAgrees` and differ on `Versions.RollbackLeavesStaleLists`.
- `Versions.RollbackSpec` is proved of the corrected rollback. As written it holds under the
  conditions of `Versions.RollbackAgrees`: no self-loop in the graph, and no arc shared with
  the newest backup that changes endpoints.
- `Versions.Update` is update on the corrected changeToVersion. The source's update is
  `Versions.UpdateAsWritten`; the two agree under the conditions of `Versions.UpdateAgrees`.
- `Versions.UpdateSpec` is proved of the corrected update. As written it holds under the
  conditions of `Versions.UpdateAgrees`.
- `Versions.RollbackThenUpdate` is proved of the corrected pair. As written it holds under the
  conditions of `Versions.RollbackThenUpdateAgrees`.
- `Versions.VersionsFromJson` reads the document with the corrected fromJSON. As written the
  two agree when the graph has no self-loops (`Documents.FromJsonAgrees`).
- `Versions.VersionsFromJsonSpec` is stated of the corrected fromJSON. As written it holds
  when the graph has no self-loops (`Documents.FromJsonAgrees`).
- `Drawing.RollbackSpec` is proved over the corrected `Versions.Rollback`. For the source's
  rollback it holds under the conditions of `Versions.RollbackAgrees`.
- `Drawing.UpdateSpec` is proved over the corrected `Versions.Update`. For the source's update
  it holds under the conditions of `Versions.UpdateAgrees`.
- `Drawing.LoadFromJsonSpec` is proved over the corrected fromJSON. For the source's fromJSON
  it holds when the graph has no self-loops (`Documents.FromJsonAgrees`).
- Redraw steps of `updateGraphChangedElements` are not modelled: updating coordinates and
  parameters of existing elements and linking listeners. The creation and deletion of
  elements and the pruning of the selections are modelled.
- `getBackupsCount`, `getUpdatesCount`, `getNode`, `getArc` and the `forEach…` helpers have
  no members of their own. They are map lookups and iterations in the members that use them.

## Findings

| source | as written | input that shows it | evidently intended | confidence | as-written member | corrected member |
|---|---|---|---|---|---|---|
| modules/graph/graph.js:405-413 | changeToVersion gives an arc with changed endpoints its new endpoints in place, without moving it between the nodes' lists | arc 1 from node 1 to node 2, version where arc 1 runs from node 2 to node 1: arc 1 stays in node 1's outputArcs although it now starts at node 2 | the arc is taken off its old endpoints' lists and appended to the new ones', so the lists keep matching the arcs | medium, not executed | Changes.ChangeToVersionAsWritten | Changes.ChangeToVersion |
| modules/graph/graph.js:143-154 | isolateNode iterates `node.inputArcs` while `deleteArcFromNode(arc, arc.startNode)` removes a self-loop from that same list, so the next arc is skipped | node 1 with input list [self-loop 1, arc 2 from node 2]: deleteNode(1) leaves arc 2 in the arc map with an end node that no longer exists | every arc touching the node is removed, as when the loop walks a copy of the list | high, not executed | Isolation.IsolateNodeAsWritten | Isolation.IsolateNode |
| modules/graph/graph.js:196-202 | clear deletes each node with deleteNode as written, whose isolateNode skips the arc after a self-loop | node 1 with input list [self-loop 1, arc 2 from node 2]: the first deleteNode leaves arc 2 in node 2's outputArcs, and the second deleteNode throws "no such element" taking it off node 1, which has no lists left | clear empties any valid graph, as fromJSON relies on | high, not executed | Isolation.ClearAsWritten | Isolation.Clear |
| modules/graph/graph.js:425-432 | rollback changes the graph with changeToVersion as written, which re-points a changed arc in place | reverse the one arc of a graph where arc 1 runs from node 2 to node 1, then roll back: arc 1 runs from 2 to 1 again but stays in node 1's outputArcs | rollback restores the backup with lists that match its arcs | medium, not executed | Versions.RollbackAsWritten | Versions.Rollback |
| graph.js:56-61 | deleteArc ends with `throw "no such element"` after removing the arc from both lists | one arc from node 0 to node 1: deleteArc(node 0, node 1) removes the arc and throws | return normally after the two removals | medium, not executed | ArrayGraph.DeleteArcAsWritten | ArrayGraph.DeleteArc |
| scripts/graph.js:74-81 | findArcBetweenNodes matches `arc.nodeTo` only and ignores `nodeFrom` | arc 1 from node 1 to node 3 and arc 2 from node 2 to node 3: asked for 2 to 3 it returns arc 1, and deleteArc(2, 3) throws | match both endpoints, as the later modules/graph/graph.js does | high, not executed | KeyedGraph.FindArcAsWritten | Graphs.FindArcBetweenNodes |

The discrepancies are exhibited by `Changes.RepointLeavesStaleLists`,
`Changes.DropSelfLoopThrows`, `Isolation.SelfLoopSkipsNext`, `Isolation.ClearSelfLoopThrows`,
`Documents.FromJsonSelfLoopThrows`, `Versions.RollbackLeavesStaleLists`,
`ArrayGraph.OneArcThrows` and `KeyedGraph.FindIgnoresStart`. The corrected behaviour is proved
by `Changes.ChangeToVersionSpec`, `Isolation.DeleteNodeSpec`, `Isolation.ClearEmpties`,
`Versions.RollbackSpec`, `ArrayGraph.DeleteArcSpec` and `Graphs.DeleteArcBetweenNodesSpec`.
The rest of the model (clear, fromJSON, rollback, update and the drawer on top of them) is
built on the corrected members. The agreement lemmas `Isolation.ClearAgrees`,
`Documents.FromJsonAgrees`, `Changes.ChangeToVersionAgrees`, `Versions.RollbackAgrees` and
`Versions.UpdateAgrees` say when the source's own members give the same results.
