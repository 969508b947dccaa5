/** VersionsVisualGraph of modules/graph/graph.js: a graph with two bounded stacks of
    snapshots. Saving pushes a clone of the graph (dropping the oldest one when the stack
    outgrows its cap); rollback and update pop a snapshot from one stack, push the current
    graph on the other, and change the graph into the snapshot, reporting what changed. */
module Versions {
  import opened Wrappers
  import opened Seqs
  import opened Graphs
  import opened Loading
  import opened Documents
  import opened Snapshots
  import opened Changes

  const DefaultMaxBackups := 100
  const DefaultMaxUpdates := 100

  /** The graph, its backups and its updates (oldest first), and the two caps. */
  datatype History = History(
    graph: Graph,
    backups: seq<Graph>,
    updates: seq<Graph>,
    maxBackups: int,
    maxUpdates: int)

  /** The constructor: an empty graph, no snapshots, both caps at their defaults. */
  const NewHistory := History(EmptyGraph, [], [], DefaultMaxBackups, DefaultMaxUpdates)

  /** Every graph involved is consistent and neither stack is over its (non-negative) cap. */
  ghost predicate HistoryOk(h: History) {
    && Valid(h.graph)
    && (forall i :: 0 <= i < |h.backups| ==> Valid(h.backups[i]))
    && (forall i :: 0 <= i < |h.updates| ==> Valid(h.updates[i]))
    && 0 <= h.maxBackups && |h.backups| <= h.maxBackups
    && 0 <= h.maxUpdates && |h.updates| <= h.maxUpdates
  }

  lemma NewHistoryOk()
    ensures HistoryOk(NewHistory) && |NewHistory.backups| == 0 && |NewHistory.updates| == 0
  {
    EmptyValid();
  }

  // ---------------------------------------------------------------------------
  // Bounded stacks

  /** `push(s)`, then one `shift()` when the length exceeds the cap: the result is the longest
      suffix of the pushed stack that the single shift leaves. */
  function Push(stack: seq<Graph>, s: Graph, cap: int): (r: seq<Graph>)
    ensures |r| == if |stack| + 1 > cap then |stack| else |stack| + 1
    ensures r == (stack + [s])[|stack| + 1 - |r|..]
  {
    var pushed := stack + [s];
    if |pushed| > cap then pushed[1..] else pushed
  }

  /** Under a cap of at least 1 the new snapshot is on top and the stack stays within the cap;
      below the top sits the old stack, less its oldest entry if it was full. */
  lemma PushSpec(stack: seq<Graph>, s: Graph, cap: int)
    requires 1 <= cap && |stack| <= cap
    ensures var r := Push(stack, s, cap);
      && 1 <= |r| <= cap && r[|r| - 1] == s
      && r[..|r| - 1] == (if |stack| < cap then stack else stack[1..])
  {
    var r := Push(stack, s, cap);
    if |stack| < cap {
      assert r == stack + [s];
    } else {
      assert r == stack[1..] + [s];
    }
  }

  /** Pushing keeps every entry valid when the old ones and the new one are. */
  lemma PushValid(stack: seq<Graph>, s: Graph, cap: int)
    requires forall i :: 0 <= i < |stack| ==> Valid(stack[i])
    requires Valid(s)
    ensures forall i :: 0 <= i < |Push(stack, s, cap)| ==> Valid(Push(stack, s, cap)[i])
  {
    var r := Push(stack, s, cap);
    var d := |stack| + 1 - |r|;
    forall i | 0 <= i < |r| ensures Valid(r[i]) {
      assert r[i] == (stack + [s])[d + i];
      if d + i < |stack| {
        assert (stack + [s])[d + i] == stack[d + i];
      }
    }
  }

  // ---------------------------------------------------------------------------
  // Saving

  /** createBackup(): push a clone of the graph on the backups. */
  function CreateBackup(h: History): (r: Result<History>)
    ensures r.Ok? ==> r.value.graph == h.graph && r.value.updates == h.updates
    ensures r.Ok? ==> r.value.maxBackups == h.maxBackups && r.value.maxUpdates == h.maxUpdates
    ensures r.Ok? ==> |r.value.backups| == |Push(h.backups, h.graph, h.maxBackups)|
  {
    var c :- Clone(h.graph);
    Ok(h.(backups := Push(h.backups, c, h.maxBackups)))
  }

  /** createUpdate(): push a clone of the graph on the updates. */
  function CreateUpdate(h: History): (r: Result<History>)
    ensures r.Ok? ==> r.value.graph == h.graph && r.value.backups == h.backups
    ensures r.Ok? ==> r.value.maxBackups == h.maxBackups && r.value.maxUpdates == h.maxUpdates
    ensures r.Ok? ==> |r.value.updates| == |Push(h.updates, h.graph, h.maxUpdates)|
  {
    var c :- Clone(h.graph);
    Ok(h.(updates := Push(h.updates, c, h.maxUpdates)))
  }

  /** A backup taken of a consistent history succeeds, keeps the history consistent, and its
      top backup compares equal to the graph. */
  lemma CreateBackupSpec(h: History)
    requires HistoryOk(h)
    ensures CreateBackup(h).Ok? && HistoryOk(CreateBackup(h).value)
    ensures var r := CreateBackup(h).value;
      && r.backups == Push(h.backups, Clone(h.graph).value, h.maxBackups)
      && (h.maxBackups >= 1 ==> SameContent(h.graph, r.backups[|r.backups| - 1]))
  {
    CloneSpec(h.graph);
    CloneSameContent(h.graph);
    PushValid(h.backups, Clone(h.graph).value, h.maxBackups);
    if h.maxBackups >= 1 {
      PushSpec(h.backups, Clone(h.graph).value, h.maxBackups);
    }
  }

  /** The same for an update. */
  lemma CreateUpdateSpec(h: History)
    requires HistoryOk(h)
    ensures CreateUpdate(h).Ok? && HistoryOk(CreateUpdate(h).value)
    ensures var r := CreateUpdate(h).value;
      && r.updates == Push(h.updates, Clone(h.graph).value, h.maxUpdates)
      && (h.maxUpdates >= 1 ==> SameContent(h.graph, r.updates[|r.updates| - 1]))
  {
    CloneSpec(h.graph);
    CloneSameContent(h.graph);
    PushValid(h.updates, Clone(h.graph).value, h.maxUpdates);
    if h.maxUpdates >= 1 {
      PushSpec(h.updates, Clone(h.graph).value, h.maxUpdates);
    }
  }

  /** forgetBackups(): no backups are left; the rest is kept, and so is consistency. */
  function ForgetBackups(h: History): (r: History)
    ensures |r.backups| == 0 && r.graph == h.graph && r.updates == h.updates
    ensures HistoryOk(h) ==> HistoryOk(r)
  {
    h.(backups := [])
  }

  /** forgetUpdates(): no updates are left; the rest is kept, and so is consistency. */
  function ForgetUpdates(h: History): (r: History)
    ensures |r.updates| == 0 && r.graph == h.graph && r.backups == h.backups
    ensures HistoryOk(h) ==> HistoryOk(r)
  {
    h.(updates := [])
  }

  // ---------------------------------------------------------------------------
  // Moving between versions

  /** rollback(): fails with "no backups left" on an empty stack; otherwise saves the graph as
      an update, pops the newest backup and changes the graph into it. */
  function Rollback(h: History): (r: Result<(History, ChangeSet)>)
    ensures |h.backups| == 0 ==> r == Err(NoBackupsLeft)
    ensures r.Ok? ==> |r.value.0.backups| == |h.backups| - 1
  {
    if |h.backups| == 0 then Err(NoBackupsLeft)
    else
      var h1 :- CreateUpdate(h);
      var n := |h1.backups| - 1;
      var p :- ChangeToVersion(h1.graph, h1.backups[n]);
      Ok((h1.(graph := p.0, backups := h1.backups[..n]), p.1))
  }

  /** update(): fails with "no updates left" on an empty stack; otherwise saves the graph as
      a backup, pops the newest update and changes the graph into it. */
  function Update(h: History): (r: Result<(History, ChangeSet)>)
    ensures |h.updates| == 0 ==> r == Err(NoUpdatesLeft)
    ensures r.Ok? ==> |r.value.0.updates| == |h.updates| - 1
  {
    if |h.updates| == 0 then Err(NoUpdatesLeft)
    else
      var h1 :- CreateBackup(h);
      var n := |h1.updates| - 1;
      var p :- ChangeToVersion(h1.graph, h1.updates[n]);
      Ok((h1.(graph := p.0, updates := h1.updates[..n]), p.1))
  }

  /** rollback() over changeToVersion as written. */
  function RollbackAsWritten(h: History): (r: Result<(History, ChangeSet)>)
    ensures |h.backups| == 0 ==> r == Err(NoBackupsLeft)
    ensures r.Ok? ==> |r.value.0.backups| == |h.backups| - 1
  {
    if |h.backups| == 0 then Err(NoBackupsLeft)
    else
      var h1 :- CreateUpdate(h);
      var n := |h1.backups| - 1;
      var p :- ChangeToVersionAsWritten(h1.graph, h1.backups[n]);
      Ok((h1.(graph := p.0, backups := h1.backups[..n]), p.1))
  }

  /** update() over changeToVersion as written. */
  function UpdateAsWritten(h: History): (r: Result<(History, ChangeSet)>)
    ensures |h.updates| == 0 ==> r == Err(NoUpdatesLeft)
    ensures r.Ok? ==> |r.value.0.updates| == |h.updates| - 1
  {
    if |h.updates| == 0 then Err(NoUpdatesLeft)
    else
      var h1 :- CreateBackup(h);
      var n := |h1.updates| - 1;
      var p :- ChangeToVersionAsWritten(h1.graph, h1.updates[n]);
      Ok((h1.(graph := p.0, updates := h1.updates[..n]), p.1))
  }

  /** After changing g into the snapshot v, h is consistent, compares equal to v, and c holds
      exactly the ids of the nodes and arcs in which g and v differed. */
  ghost predicate BecameVersion(g: Graph, v: Graph, h: Graph, c: ChangeSet) {
    && Valid(h) && SameContent(h, v)
    && (forall k :: k in c.nodes <==> NodeChanged(g, v, k))
    && (forall x :: x in c.arcs <==> ArcChanged(g, v, x))
  }

  lemma ChangeToVersionBecomes(g: Graph, v: Graph)
    requires Valid(g) && Valid(v)
    ensures ChangeToVersion(g, v).Ok?
    ensures BecameVersion(g, v, ChangeToVersion(g, v).value.0, ChangeToVersion(g, v).value.1)
  {
    ChangeToVersionSpec(g, v);
  }

  /** On a consistent history, rollback fails exactly when there is no backup. Otherwise the
      history stays consistent, the graph takes the content of the newest backup and the ids
      reported are exactly the nodes and arcs in which the two differed; the remaining
      backups are the older ones, and a clone of the graph as it was is pushed on the updates. */
  lemma RollbackSpec(h: History)
    requires HistoryOk(h)
    ensures Rollback(h).Err? <==> |h.backups| == 0
    ensures Rollback(h).Err? ==> Rollback(h).error == NoBackupsLeft
    ensures Rollback(h).Ok? ==>
      var (r, c) := Rollback(h).value;
      && HistoryOk(r) && BecameVersion(h.graph, h.backups[|h.backups| - 1], r.graph, c)
      && r.backups == h.backups[..|h.backups| - 1]
      && r.updates == Push(h.updates, Clone(h.graph).value, h.maxUpdates)
      && r.maxBackups == h.maxBackups && r.maxUpdates == h.maxUpdates
  {
    if |h.backups| > 0 {
      CreateUpdateSpec(h);
      var h1 := CreateUpdate(h).value;
      var n := |h1.backups| - 1;
      ChangeToVersionBecomes(h1.graph, h1.backups[n]);
      var (g, c) := ChangeToVersion(h1.graph, h1.backups[n]).value;
      var r := h1.(graph := g, backups := h1.backups[..n]);
      assert Rollback(h) == Ok((r, c));
      PoppedOk(h1, r, n);
    }
  }

  /** The mirror image for update. */
  lemma UpdateSpec(h: History)
    requires HistoryOk(h)
    ensures Update(h).Err? <==> |h.updates| == 0
    ensures Update(h).Err? ==> Update(h).error == NoUpdatesLeft
    ensures Update(h).Ok? ==>
      var (r, c) := Update(h).value;
      && HistoryOk(r) && BecameVersion(h.graph, h.updates[|h.updates| - 1], r.graph, c)
      && r.updates == h.updates[..|h.updates| - 1]
      && r.backups == Push(h.backups, Clone(h.graph).value, h.maxBackups)
      && r.maxBackups == h.maxBackups && r.maxUpdates == h.maxUpdates
  {
    if |h.updates| > 0 {
      CreateBackupSpec(h);
      var h1 := CreateBackup(h).value;
      var n := |h1.updates| - 1;
      ChangeToVersionBecomes(h1.graph, h1.updates[n]);
      var (g, c) := ChangeToVersion(h1.graph, h1.updates[n]).value;
      var r := h1.(graph := g, updates := h1.updates[..n]);
      assert Update(h) == Ok((r, c));
      PoppedOk(h1, r, n);
    }
  }

  /** Replacing the graph by a consistent one and popping a stack keeps a history consistent. */
  lemma PoppedOk(h1: History, r: History, n: int)
    requires HistoryOk(h1) && Valid(r.graph)
    requires r.maxBackups == h1.maxBackups && r.maxUpdates == h1.maxUpdates
    requires (r.backups == h1.backups && 0 <= n < |h1.updates| && r.updates == h1.updates[..n])
          || (r.updates == h1.updates && 0 <= n < |h1.backups| && r.backups == h1.backups[..n])
    ensures HistoryOk(r)
  {
  }

  // ---------------------------------------------------------------------------
  // Comparing content

  lemma SameContentTrans(a: Graph, b: Graph, c: Graph)
    requires SameContent(a, b) && SameContent(b, c)
    ensures SameContent(a, c) && SameContent(c, a)
  {
  }

  /** What changeToVersion reports depends only on the content of the two graphs, and not on
      which of the two is the live one. */
  lemma ChangedByContent(g: Graph, v: Graph, g': Graph, v': Graph)
    requires SameContent(g, g') && SameContent(v, v')
    ensures forall k :: NodeChanged(g, v, k) <==> NodeChanged(v', g', k)
    ensures forall x :: ArcChanged(g, v, x) <==> ArcChanged(v', g', x)
  {
  }

  /** Rolling back and then updating brings the graph back to its content, restores the
      backups (the top one by content), restores the updates unless the update stack was full,
      and redraws the same elements both times. */
  lemma RollbackThenUpdate(h: History)
    requires HistoryOk(h) && |h.backups| > 0 && h.maxUpdates >= 1
    ensures Rollback(h).Ok? && Update(Rollback(h).value.0).Ok?
    ensures var (r1, c1) := Rollback(h).value;
      var (r2, c2) := Update(r1).value;
      var n := |h.backups| - 1;
      && HistoryOk(r2) && SameContent(r2.graph, h.graph)
      && |r2.backups| == |h.backups| && r2.backups[..n] == h.backups[..n]
      && SameContent(r2.backups[n], h.backups[n])
      && (|h.updates| < h.maxUpdates ==> r2.updates == h.updates)
      && c2 == c1
  {
    var r1, c1 := RolledBack(h);
    var r2, c2 := Updated(r1);
    var n := |h.backups| - 1;
    var top := r1.updates[|r1.updates| - 1];
    BackAgainGraph(h.graph, top, r2.graph, r1.graph, c2);
    BackAgainBackups(h.backups, r1.backups, r1.graph, Clone(r1.graph).value, r2.backups, r1.maxBackups);
    BackAgainUpdates(h.updates, Clone(h.graph).value, h.maxUpdates, r1.updates, r2.updates);
    BackAgainChanges(h.graph, h.backups[n], r1.graph, top, c1, c2);
  }

  /** What update leaves behind, in the terms RollbackThenUpdate needs. */
  lemma Updated(r1: History) returns (r2: History, c2: ChangeSet)
    requires HistoryOk(r1) && |r1.updates| > 0
    ensures Update(r1) == Ok((r2, c2))
    ensures HistoryOk(r2)
    ensures BecameVersion(r1.graph, r1.updates[|r1.updates| - 1], r2.graph, c2)
    ensures r2.updates == r1.updates[..|r1.updates| - 1]
    ensures r2.backups == Push(r1.backups, Clone(r1.graph).value, r1.maxBackups)
    ensures SameContent(Clone(r1.graph).value, r1.graph)
  {
    UpdateSpec(r1);
    r2, c2 := Update(r1).value.0, Update(r1).value.1;
    CloneSameContent(r1.graph);
    SameContentTrans(r1.graph, Clone(r1.graph).value, r1.graph);
  }

  /** What rollback leaves behind, in the terms the update after it needs. */
  lemma RolledBack(h: History) returns (r1: History, c1: ChangeSet)
    requires HistoryOk(h) && |h.backups| > 0 && h.maxUpdates >= 1
    ensures Rollback(h) == Ok((r1, c1))
    ensures HistoryOk(r1) && |r1.updates| > 0
    ensures BecameVersion(h.graph, h.backups[|h.backups| - 1], r1.graph, c1)
    ensures r1.backups == h.backups[..|h.backups| - 1] && r1.maxBackups == h.maxBackups
    ensures SameContent(h.graph, r1.updates[|r1.updates| - 1])
    ensures r1.updates == Push(h.updates, Clone(h.graph).value, h.maxUpdates)
  {
    RollbackSpec(h);
    r1, c1 := Rollback(h).value.0, Rollback(h).value.1;
    CloneSameContent(h.graph);
    PushSpec(h.updates, Clone(h.graph).value, h.maxUpdates);
  }

  lemma BackAgainGraph(g: Graph, top: Graph, g2: Graph, g1: Graph, c2: ChangeSet)
    requires SameContent(g, top) && BecameVersion(g1, top, g2, c2)
    ensures SameContent(g2, g)
  {
    SameContentTrans(g2, top, g);
  }

  lemma BackAgainBackups(backups: seq<Graph>, popped: seq<Graph>, g1: Graph, s: Graph, pushed: seq<Graph>, cap: int)
    requires |backups| > 0 && popped == backups[..|backups| - 1] && |backups| <= cap
    requires SameContent(g1, backups[|backups| - 1]) && SameContent(s, g1)
    requires pushed == Push(popped, s, cap)
    ensures |pushed| == |backups| && pushed[..|popped|] == backups[..|popped|]
    ensures SameContent(pushed[|popped|], backups[|popped|])
  {
    PushSpec(popped, s, cap);
    SameContentTrans(pushed[|popped|], g1, backups[|popped|]);
  }

  lemma BackAgainUpdates(updates: seq<Graph>, s: Graph, cap: int, pushed: seq<Graph>, popped: seq<Graph>)
    requires 1 <= cap && |updates| <= cap
    requires pushed == Push(updates, s, cap)
    requires popped == pushed[..|pushed| - 1]
    ensures |updates| < cap ==> popped == updates
  {
    PushSpec(updates, s, cap);
  }

  lemma BackAgainChanges(g: Graph, b: Graph, g1: Graph, top: Graph, c1: ChangeSet, c2: ChangeSet)
    requires SameContent(g, top) && SameContent(g1, b)
    requires forall k :: k in c1.nodes <==> NodeChanged(g, b, k)
    requires forall x :: x in c1.arcs <==> ArcChanged(g, b, x)
    requires forall k :: k in c2.nodes <==> NodeChanged(g1, top, k)
    requires forall x :: x in c2.arcs <==> ArcChanged(g1, top, x)
    ensures c2 == c1
  {
    SameContentTrans(g1, b, b);
    ChangedByContent(g, b, top, g1);
    assert c2.nodes == c1.nodes by {
      forall k ensures k in c2.nodes <==> k in c1.nodes {
        assert NodeChanged(g, b, k) <==> NodeChanged(g1, top, k);
      }
    }
    assert c2.arcs == c1.arcs by {
      forall x ensures x in c2.arcs <==> x in c1.arcs {
        assert ArcChanged(g, b, x) <==> ArcChanged(g1, top, x);
      }
    }
  }

  // ---------------------------------------------------------------------------
  // rollback and update as written

  /** When the graph has no self-loop and no arc changes endpoints between the graph and the
      newest backup, rollback as written does exactly what the corrected rollback does. */
  lemma RollbackAgrees(h: History)
    requires HistoryOk(h) && |h.backups| > 0
    requires NoSelfLoops(h.graph) && NoArcMoved(h.graph, h.backups[|h.backups| - 1])
    ensures RollbackAsWritten(h) == Rollback(h)
  {
    var top := h.backups[|h.backups| - 1];
    assert Valid(top);
    ChangeToVersionAgrees(h.graph, top);
    RollbackVia(h);
  }

  /** Rollback as written and corrected differ only in the changeToVersion they call. */
  lemma RollbackVia(h: History)
    requires |h.backups| > 0
    requires var top := h.backups[|h.backups| - 1];
      ChangeToVersionAsWritten(h.graph, top) == ChangeToVersion(h.graph, top)
    ensures RollbackAsWritten(h) == Rollback(h)
  {
  }

  /** The mirror image for update. */
  lemma UpdateAgrees(h: History)
    requires HistoryOk(h) && |h.updates| > 0
    requires NoSelfLoops(h.graph) && NoArcMoved(h.graph, h.updates[|h.updates| - 1])
    ensures UpdateAsWritten(h) == Update(h)
  {
    var top := h.updates[|h.updates| - 1];
    assert Valid(top);
    ChangeToVersionAgrees(h.graph, top);
    UpdateVia(h);
  }

  lemma UpdateVia(h: History)
    requires |h.updates| > 0
    requires var top := h.updates[|h.updates| - 1];
      ChangeToVersionAsWritten(h.graph, top) == ChangeToVersion(h.graph, top)
    ensures UpdateAsWritten(h) == Update(h)
  {
  }

  /** Under the same conditions on the graph and the newest backup, and without self-loops in
      that backup, rolling back and then updating as written is the corrected round trip, so
      RollbackThenUpdate holds of it. */
  lemma RollbackThenUpdateAgrees(h: History)
    requires HistoryOk(h) && |h.backups| > 0 && h.maxUpdates >= 1
    requires NoSelfLoops(h.graph) && NoSelfLoops(h.backups[|h.backups| - 1])
    requires NoArcMoved(h.graph, h.backups[|h.backups| - 1])
    ensures RollbackAsWritten(h) == Rollback(h)
    ensures Rollback(h).Ok? && UpdateAsWritten(Rollback(h).value.0) == Update(Rollback(h).value.0)
  {
    RollbackAgrees(h);
    var r1, c1 := RolledBack(h);
    var top := h.backups[|h.backups| - 1];
    CloneSpec(h.graph);
    var s := Clone(h.graph).value;
    PushSpec(h.updates, s, h.maxUpdates);
    assert r1.updates[|r1.updates| - 1] == s;
    assert NoSelfLoops(r1.graph) by {
      forall x | x in r1.graph.arcs ensures r1.graph.arcs[x].startNode != r1.graph.arcs[x].endNode {
        assert ArcCompare(r1.graph.arcs[x], top.arcs[x]);
      }
    }
    assert NoArcMoved(r1.graph, s) by {
      forall x | x in r1.graph.arcs && x in s.arcs ensures SameEnds(r1.graph.arcs[x], s.arcs[x]) {
        assert ArcCompare(r1.graph.arcs[x], top.arcs[x]);
        assert SameEnds(h.graph.arcs[x], top.arcs[x]);
      }
    }
    UpdateAgrees(r1);
  }

  /** Reverse an arc, then undo: the graph OneArc(1, 2) is what reversing the arc of
      OneArc(2, 1) gives, and OneArc(2, 1) is the newest backup. Rolling back as written
      re-points the arc in place and leaves an inconsistent graph; the corrected rollback
      leaves the backup's arcs, consistently listed. */
  lemma RollbackLeavesStaleLists()
    ensures ReverseArc(OneArc(2, 1), 1) == Ok(OneArc(1, 2))
    ensures var h := History(OneArc(1, 2), [OneArc(2, 1)], [], DefaultMaxBackups, DefaultMaxUpdates);
      && HistoryOk(h)
      && RollbackAsWritten(h).Ok? && !Valid(RollbackAsWritten(h).value.0.graph)
      && Rollback(h).Ok? && Valid(Rollback(h).value.0.graph)
      && Rollback(h).value.0.graph.arcs == OneArc(2, 1).arcs
  {
    ReversedOneArc();
    var h := History(OneArc(1, 2), [OneArc(2, 1)], [], DefaultMaxBackups, DefaultMaxUpdates);
    RepointLeavesStaleLists();
    ReverseUndoHistoryOk();
    CloneSpec(h.graph);
    RollbackGraphs(h);
  }

  lemma ReverseUndoHistoryOk()
    ensures HistoryOk(History(OneArc(1, 2), [OneArc(2, 1)], [], DefaultMaxBackups, DefaultMaxUpdates))
  {
    OneArcValid(1, 2);
    OneArcValid(2, 1);
  }

  /** Both rollbacks change the graph into the newest backup by their own changeToVersion. */
  lemma RollbackGraphs(h: History)
    requires |h.backups| > 0 && Clone(h.graph).Ok?
    ensures var t := ChangeToVersionAsWritten(h.graph, h.backups[|h.backups| - 1]);
      t.Ok? ==> RollbackAsWritten(h).Ok? && RollbackAsWritten(h).value.0.graph == t.value.0
    ensures var t := ChangeToVersion(h.graph, h.backups[|h.backups| - 1]);
      t.Ok? ==> Rollback(h).Ok? && Rollback(h).value.0.graph == t.value.0
  {
  }

  lemma ReversedOneArc()
    ensures ReverseArc(OneArc(2, 1), 1) == Ok(OneArc(1, 2))
  {
    var G, R := OneArc(2, 1), OneArc(1, 2);
    var a := G.arcs[1];
    assert RemoveFirst([1], 1) == [];
    var g1 := DeleteArcFromNode(G, 1, 2).value;
    assert g1.nodes[2] == Node(2, [], Origin, [], []);
    var g2 := DeleteArcFromNode(g1, 1, 1).value;
    assert g2.nodes[1] == Node(1, [], Origin, [], []) && g2.nodes[2] == g1.nodes[2];
    var r := AddArc(g2, 1, Reversed(a));
    assert ReverseArc(G, 1) == Ok(r);
    assert r.nodes.Keys == R.nodes.Keys && r.nodes[1] == R.nodes[1] && r.nodes[2] == R.nodes[2];
    assert r.nodes == R.nodes && r.arcs == R.arcs;
    assert r == R;
  }

  // ---------------------------------------------------------------------------
  // Reading a document

  /** The ids forEachNode visits, read off the nodes themselves. */
  function NodeIdSet(g: Graph): (r: set<Id>) {
    Elems(NodeIds(InOrder(g.nodes, g.nodeOrder)))
  }

  /** The ids forEachArc visits. */
  function ArcIdSet(g: Graph): (r: set<Id>) {
    Elems(ArcIds(InOrder(g.arcs, g.arcOrder)))
  }

  /** fromJSON(json) of VersionsVisualGraph: reads the document into the graph and reports
      every node and arc id seen before or after. The stacks are left alone. */
  function VersionsFromJson(h: History, doc: Document): (r: Result<(History, ChangeSet)>)
    ensures r.Ok? ==> r.value.0.backups == h.backups && r.value.0.updates == h.updates
  {
    var g :- FromJson(h.graph, doc);
    Ok((h.(graph := g), ChangeSet(NodeIdSet(h.graph) + NodeIdSet(g), ArcIdSet(h.graph) + ArcIdSet(g))))
  }

  /** On a consistent graph the ids visited are the keys. */
  lemma IdSetsAreKeys(g: Graph)
    requires Valid(g)
    ensures NodeIdSet(g) == g.nodes.Keys && ArcIdSet(g) == g.arcs.Keys
  {
    ToJsonRecords(g);
    assert NodeOrderOk(g) && ArcOrderOk(g);
    assert NodeIds(InOrder(g.nodes, g.nodeOrder)) == g.nodeOrder;
    assert ArcIds(InOrder(g.arcs, g.arcOrder)) == g.arcOrder;
    assert forall k :: k in Elems(g.nodeOrder) <==> k in g.nodes;
    assert forall x :: x in Elems(g.arcOrder) <==> x in g.arcs;
  }

  /** Reading a well-formed document keeps the history consistent and reports exactly the ids
      of the old graph together with those of the document. */
  lemma VersionsFromJsonSpec(h: History, doc: Document)
    requires HistoryOk(h) && FreshNodes(doc.nodes, {})
    requires FreshArcs(doc.arcs, {}, Elems(NodeIds(doc.nodes)))
    ensures VersionsFromJson(h, doc).Ok?
    ensures var (r, c) := VersionsFromJson(h, doc).value;
      && HistoryOk(r)
      && r.graph.nodes.Keys == Elems(NodeIds(doc.nodes)) && r.graph.arcs.Keys == Elems(ArcIds(doc.arcs))
      && c.nodes == h.graph.nodes.Keys + Elems(NodeIds(doc.nodes))
      && c.arcs == h.graph.arcs.Keys + Elems(ArcIds(doc.arcs))
  {
    FromJsonValid(h.graph, doc);
    var g := FromJson(h.graph, doc).value;
    IdSetsAreKeys(h.graph);
    IdSetsAreKeys(g);
  }
}
