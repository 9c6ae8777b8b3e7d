/** What a destroy leaves, of the selected nodes and of their peers. */
module DestroyLaws {
  import opened Wrappers
  import opened Collections
  import opened DeploymentStore
  import opened RetainedStore
  import opened Destroy
  import opened HashInvariant
  import opened Conservation

  /** This node's directory is as it was. */
  predicate SameDir(before: Disk, after: Disk, peer: Name)
  {
    (peer in after.nodes <==> peer in before.nodes) && DirOf(after, peer) == DirOf(before, peer)
  }

  predicate Excludes(nodes: seq<NodeState>, peer: Name)
  {
    forall node :: node in nodes ==> node.node != peer
  }

  lemma {:induction false} MarkAllSparesPeer(s: Sys, faults: Faults, nodes: seq<NodeState>, phase: Phase, now: nat, peer: Name)
    requires Excludes(nodes, peer)
    ensures SameDir(s.disk, MarkAll(s, faults, nodes, phase, now).0.disk, peer)
    decreases |nodes|
  {
    if nodes != [] {
      var (s1, ok) := WriteNode(s, faults, nodes[0].(phase := phase, updatedAt := now));
      if ok {
        MarkAllSparesPeer(s1, faults, nodes[1..], phase, now, peer);
      }
    }
  }

  lemma PreserveAllSparesPeer(s: Sys, faults: Faults, node: NodeState, identities: seq<Identity>, peer: Name)
    requires RecordOk(node) && node.node != peer
    ensures SameDir(s.disk, PreserveAll(s, faults, node, identities).0.disk, peer)
  {
    PreserveAllTouches(s, faults, node, identities);
  }

  lemma {:induction false} RemoveTargetsSparesPeer(s: Sys, faults: Faults, node: Name, targets: seq<Path>, peer: Name)
    requires node != peer
    ensures SameDir(s.disk, RemoveTargets(s, faults, node, targets).0.disk, peer)
    decreases |targets|
  {
    if targets != [] {
      var (s1, ok) := RemoveTarget(s, faults, node, targets[0]);
      if ok {
        RemoveTargetsSparesPeer(s1, faults, node, targets[1..], peer);
      }
    }
  }

  lemma DestroyOneSparesPeer(s: Sys, faults: Faults, node: NodeState, targets: seq<Path>, identities: seq<Identity>, peer: Name)
    requires RecordOk(node) && node.node != peer
    ensures SameDir(s.disk, DestroyOne(s, faults, node, targets, identities).0.disk, peer)
  {
    PreserveAllSparesPeer(s, faults, node, identities, peer);
    var (s1, _) := PreserveAll(s, faults, node, identities);
    RemoveTargetsSparesPeer(s1, faults, node.node, targets, peer);
  }

  lemma {:induction false} DestroyEachSparesPeer(s: Sys, faults: Faults, validated: Disk, nodes: seq<NodeState>, identities: seq<Identity>, peer: Name)
    requires forall i :: 0 <= i < |nodes| ==> NodeTargets(validated, nodes[i]).Some?
    requires Excludes(nodes, peer) && forall i :: 0 <= i < |nodes| ==> RecordOk(nodes[i])
    ensures SameDir(s.disk, DestroyEach(s, faults, validated, nodes, identities).0.disk, peer)
    decreases |nodes|
  {
    if nodes != [] {
      var targets := NodeTargets(validated, nodes[0]).value;
      DestroyOneSparesPeer(s, faults, nodes[0], targets, identities, peer);
      var (s1, ok) := DestroyOne(s, faults, nodes[0], targets, identities);
      if ok {
        DestroyEachSparesPeer(s1, faults, validated, nodes[1..], identities, peer);
      }
    }
  }

  lemma {:induction false} KeptAreSelected(names: seq<Name>, selected: seq<Name>)
    ensures forall name :: name in Kept(names, selected) ==> name in selected
  {
    if names != [] {
      KeptAreSelected(names[1..], selected);
    }
  }

  /** No planned node is an unselected peer. */
  lemma PlannedAreSelected(disk: Disk, resolved: Resolved, selected: seq<Name>, peer: Name)
    requires Consistent(disk) && disk.deployment == Some(resolved) && peer !in selected
    ensures Excludes(States(disk, Kept(Names(resolved.nodes), selected)), peer)
  {
    var names := Names(resolved.nodes);
    assert Distinct(names);
    KeptIsDistinct(names, selected);
    KeptAreSelected(names, selected);
    StatesAreDistinct(disk, Kept(names, selected));
  }

  lemma {:induction false} WriteEachSparesPeer(s: Sys, faults: Faults, records: seq<NodeState>, peer: Name)
    requires Excludes(records, peer)
    ensures SameDir(s.disk, WriteEach(s, faults, records).0.disk, peer)
    decreases |records|
  {
    if records != [] {
      var (s1, ok) := WriteNode(s, faults, records[0]);
      if ok {
        WriteEachSparesPeer(s1, faults, records[1..], peer);
      }
    }
  }

  lemma {:induction false} FinishStopsSparesPeer(s: Sys, faults: Faults, marks: seq<NodeState>, now: nat, peer: Name)
    requires Excludes(marks, peer)
    ensures SameDir(s.disk, FinishStops(s, faults, marks, now).0.disk, peer)
    decreases |marks|
  {
    if marks != [] {
      var s1 := if marks[0].phase == Stopping then WriteNode(s, faults, marks[0].(phase := Stopped, updatedAt := now)).0 else s;
      FinishStopsSparesPeer(s1, faults, marks[1..], now, peer);
    }
  }

  lemma StopFirstSparesPeer(s: Sys, faults: Faults, nodes: seq<NodeState>, now: nat, peer: Name)
    requires Excludes(nodes, peer)
    ensures SameDir(s.disk, StopFirst(s, faults, nodes, now).0.disk, peer)
  {
    var marks := StopMarks(nodes, now);
    forall mark | mark in marks
      ensures mark.node != peer
    {
      var i :| 0 <= i < |marks| && marks[i] == mark;
      assert nodes[i] in nodes;
    }
    WriteEachSparesPeer(s, faults, marks, peer);
    FinishStopsSparesPeer(WriteEach(s, faults, marks).0, faults, marks, now, peer);
  }

  lemma StagesSparePeer(s: Sys, faults: Faults, resolved: Resolved, selected: seq<Name>, nodes: seq<NodeState>, request: Request, peer: Name)
    requires forall i :: 0 <= i < |nodes| ==> NodeTargets(s.disk, nodes[i]).Some?
    requires Excludes(nodes, peer) && forall i :: 0 <= i < |nodes| ==> RecordOk(nodes[i])
    ensures SameDir(s.disk, Execute(s, faults, resolved, selected, nodes, request).0.disk, peer)
  {
    var (s1, marked) := Marked(s, faults, nodes, request);
    assert SameDir(s.disk, s1.disk, peer) by {
      MarkAllSparesPeer(s, faults, nodes, Destroying, request.now, peer);
    }
    if marked {
      var (s2, destroyed) := DestroyEach(s1, faults, s.disk, nodes, Identities(resolved.nodes));
      assert SameDir(s1.disk, s2.disk, peer) by {
        DestroyEachSparesPeer(s1, faults, s.disk, nodes, Identities(resolved.nodes), peer);
      }
      if destroyed {
        ConcludeKeepsDirs(s2, faults, resolved, selected, request.dropFromSpec);
      }
    }
  }

  lemma ConcludeKeepsDirs(s: Sys, faults: Faults, resolved: Resolved, selected: seq<Name>, dropFromSpec: bool)
    ensures Conclude(s, faults, resolved, selected, dropFromSpec).0.disk.nodes == s.disk.nodes
  {
  }

  lemma ExecuteSparesPeer(s: Sys, faults: Faults, resolved: Resolved, selected: seq<Name>, request: Request, peer: Name)
    requires Consistent(s.disk) && RecordsOk(s.disk) && s.disk.deployment == Some(resolved) && peer !in selected
    requires PlanDestroy(s.disk, resolved, selected, request).Some?
    ensures var nodes := PlanDestroy(s.disk, resolved, selected, request).value;
            SameDir(s.disk, Execute(s, faults, resolved, selected, nodes, request).0.disk, peer)
  {
    PlanFacts(s.disk, resolved, selected, request);
    PlannedAreSelected(s.disk, resolved, selected, peer);
    StagesSparePeer(s, faults, resolved, selected, PlanDestroy(s.disk, resolved, selected, request).value, request, peer);
  }

  /** A destroy, wherever it is cut short, leaves the directory of every unselected node exactly as it was. */
  lemma PeersAreUntouched(s: Sys, faults: Faults, request: Request, peer: Name)
    requires Consistent(s.disk) && RecordsOk(s.disk) && s.disk.deployment.Some?
    requires var selected := Selected(s.disk.deployment.value, request.selection);
             selected.Some? ==> peer !in selected.value
    ensures SameDir(s.disk, DestroySelected(s, faults, request).0.disk, peer)
  {
    var resolved := s.disk.deployment.value;
    if Selected(resolved, request.selection).Some? {
      var selected := Selected(resolved, request.selection).value;
      var nodes := States(s.disk, Kept(Names(resolved.nodes), selected));
      PlannedAreSelected(s.disk, resolved, selected, peer);
      StopFirstSparesPeer(s, faults, nodes, request.now, peer);
      var (s1, stopped) := StopFirst(s, faults, nodes, request.now);
      StatesAreRecorded(s.disk, Kept(Names(resolved.nodes), selected));
      StopFirstRelabels(s, faults, nodes, request.now);
      ShrinksKeepsConsistent(s.disk, s1.disk);
      RelabelsKeepsRecordsOk(s.disk, s1.disk);
      if stopped && PlanDestroy(s1.disk, resolved, selected, request).Some? {
        ExecuteSparesPeer(s1, faults, resolved, selected, request, peer);
      }
    }
  }

  // ---------------------------------------------------------------- success

  /** The deployment state that a successful destroy leaves. */
  function Left(resolved: Resolved, selected: seq<Name>, dropFromSpec: bool): Option<Resolved>
  {
    if !IsPartial(resolved, selected) then None
    else if dropFromSpec then Some(resolved.(nodes := Remaining(resolved.nodes, selected)))
    else Some(resolved)
  }

  predicate Gone(disk: Disk, selected: seq<Name>)
  {
    forall name :: name in selected ==> ReadNode(disk, name).None?
  }

  lemma SelectedAreGone(disk: Disk, resolved: Resolved, selected: seq<Name>, after: Disk)
    requires Consistent(disk) && disk.deployment == Some(resolved)
    requires forall node :: ReadNode(after, node).Some? ==> ReadNode(disk, node).Some?
    requires var nodes := States(disk, Kept(Names(resolved.nodes), selected));
             forall i :: 0 <= i < |nodes| ==> nodes[i].node !in after.nodes
    ensures Gone(after, selected)
  {
    forall name | name in selected
      ensures ReadNode(after, name).None?
    {
      if ReadNode(after, name).Some? {
        SurvivorsAreUnselected(disk, resolved, selected, after, name);
      }
    }
  }

  lemma ConcludeSucceeds(s: Sys, faults: Faults, resolved: Resolved, selected: seq<Name>, dropFromSpec: bool)
    requires s.disk.deployment == Some(resolved) && Gone(s.disk, selected)
    ensures var (s1, ok) := Conclude(s, faults, resolved, selected, dropFromSpec);
            ok ==> Gone(s1.disk, selected) && s1.disk.deployment == Left(resolved, selected, dropFromSpec)
  {
    var s1 := Conclude(s, faults, resolved, selected, dropFromSpec).0;
    assert s1.disk.nodes == s.disk.nodes;
    assert forall name :: ReadNode(s1.disk, name) == ReadNode(s.disk, name);
  }

  lemma ExecuteSucceeds(s: Sys, faults: Faults, resolved: Resolved, selected: seq<Name>, request: Request)
    requires Consistent(s.disk) && s.disk.deployment == Some(resolved)
    requires PlanDestroy(s.disk, resolved, selected, request).Some?
    ensures var nodes := PlanDestroy(s.disk, resolved, selected, request).value;
            var (s1, ok) := Execute(s, faults, resolved, selected, nodes, request);
            ok ==> Gone(s1.disk, selected) && s1.disk.deployment == Left(resolved, selected, request.dropFromSpec)
  {
    var nodes := PlanDestroy(s.disk, resolved, selected, request).value;
    StatesAreRecorded(s.disk, Kept(Names(resolved.nodes), selected));
    StagesSettle(s, faults, resolved, nodes, request);
    var (s1, marked) := Marked(s, faults, nodes, request);
    if marked {
      var (s2, destroyed) := DestroyEach(s1, faults, s.disk, nodes, Identities(resolved.nodes));
      if destroyed {
        SelectedAreGone(s.disk, resolved, selected, s2.disk);
        ConcludeSucceeds(s2, faults, resolved, selected, request.dropFromSpec);
      }
    }
  }

  /** A destroy that succeeds leaves no state of any selected node; a whole destroy removes the deployment state, a
      removal keeps exactly the unselected definitions, and a destroy for recreation keeps them all. */
  lemma DestroySucceeds(s: Sys, faults: Faults, request: Request)
    requires Consistent(s.disk) && s.disk.deployment.Some?
    ensures var resolved := s.disk.deployment.value;
            var (s1, ok) := DestroySelected(s, faults, request);
            ok ==>
              && Selected(resolved, request.selection).Some?
              && var selected := Selected(resolved, request.selection).value;
              && (IsPartial(resolved, selected) ==> request.allowPartial)
              && Gone(s1.disk, selected) && s1.disk.deployment == Left(resolved, selected, request.dropFromSpec)
  {
    var resolved := s.disk.deployment.value;
    if Selected(resolved, request.selection).Some? {
      var selected := Selected(resolved, request.selection).value;
      var nodes := States(s.disk, Kept(Names(resolved.nodes), selected));
      StatesAreRecorded(s.disk, Kept(Names(resolved.nodes), selected));
      StopFirstRelabels(s, faults, nodes, request.now);
      var (s1, stopped) := StopFirst(s, faults, nodes, request.now);
      ShrinksKeepsConsistent(s.disk, s1.disk);
      if stopped && PlanDestroy(s1.disk, resolved, selected, request).Some? {
        ExecuteSucceeds(s1, faults, resolved, selected, request);
      }
    }
  }

  // ---------------------------------------------------------------- a moved disk

  /** A destroy that was cut short after it moved a persistent disk cannot be run again: the state still records
      the old path, so every later destroy is refused, whatever it selects, and moves or removes nothing. */
  lemma MovedDiskRefusesDestroy(s: Sys, faults: Faults, request: Request, key: Key, content: FileId, k: nat)
    requires Consistent(s.disk) && s.disk.deployment.Some?
    requires AtOnePlace(s.disk, key, content) && StoredFile(s.disk, key).Some?
    requires ReadNode(s.disk, key.0).Some? && k < |ReadNode(s.disk, key.0).value.dataDisks|
    requires var data := ReadNode(s.disk, key.0).value.dataDisks[k]; data.persistent && data.path == LocalPath(key)
    ensures var (s1, ok) := DestroySelected(s, faults, request);
            !ok && Relabels(s.disk, s1.disk)
  {
    var resolved := s.disk.deployment.value;
    if Selected(resolved, request.selection).Some? {
      var selected := Selected(resolved, request.selection).value;
      var names := Names(resolved.nodes);
      var nodes := States(s.disk, Kept(names, selected));
      StatesAreRecorded(s.disk, Kept(names, selected));
      StopFirstRelabels(s, faults, nodes, request.now);
      var s1 := StopFirst(s, faults, nodes, request.now).0;
      ShrinksKeepsConsistent(s.disk, s1.disk);
      MovedDiskRefusesPlan(s.disk, s1.disk, resolved, selected, request, key, k);
    }
    RefusedDestroyKeepsFiles(s, faults, request);
  }

  lemma MovedDiskRefusesPlan(before: Disk, after: Disk, resolved: Resolved, selected: seq<Name>, request: Request, key: Key, k: nat)
    requires Consistent(before) && before.deployment == Some(resolved) && Relabels(before, after)
    requires LocalFile(before, key) == None
    requires ReadNode(before, key.0).Some? && k < |ReadNode(before, key.0).value.dataDisks|
    requires var data := ReadNode(before, key.0).value.dataDisks[k]; data.persistent && data.path == LocalPath(key)
    ensures PlanDestroy(after, resolved, selected, request).None?
  {
    var names := Names(resolved.nodes);
    assert ReadNode(after, key.0).Some? && SameRecord(ReadNode(before, key.0).value, ReadNode(after, key.0).value);
    var i := FoundIsListed(resolved.nodes, key.0);
    assert names[i] == key.0;
    StatesCover(after, names, key.0);
    var all := States(after, names);
    var j :| 0 <= j < |all| && all[j] == ReadNode(after, key.0).value;
    assert all[j].dataDisks[k].persistent && all[j].dataDisks[k].path == LocalPath(key);
    assert !SourceOk(after, LocalPath(key));
  }
}
