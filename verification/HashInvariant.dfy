/** Every node with a state is listed in the deployment state, under the hash of its listed definition. */
module HashInvariant {
  import opened Wrappers
  import opened Collections
  import opened DeploymentStore
  import opened RetainedStore
  import opened Commit
  import opened Destroy

  ghost predicate Consistent(disk: Disk)
  {
    && (disk.deployment.Some? ==> UniqueNames(disk.deployment.value.nodes))
    && forall name :: ReadNode(disk, name).Some? ==>
         && ReadNode(disk, name).value.node == name
         && disk.deployment.Some?
         && HashOf(disk.deployment.value, name) == Some(ReadNode(disk, name).value.specHash)
  }

  /** Two records of one node that differ at most in phase and time. */
  predicate SameRecord(first: NodeState, second: NodeState)
  {
    first.(phase := Absent, updatedAt := 0) == second.(phase := Absent, updatedAt := 0)
  }

  /** after has the deployment of before, no new directory, and no state that before did not record. */
  ghost predicate Shrinks(before: Disk, after: Disk)
  {
    && after.deployment == before.deployment
    && after.nodes.Keys <= before.nodes.Keys
    && forall name :: ReadNode(after, name).Some? ==>
         ReadNode(before, name).Some? && SameRecord(ReadNode(before, name).value, ReadNode(after, name).value)
  }

  lemma ShrinksKeepsConsistent(before: Disk, after: Disk)
    requires Consistent(before) && Shrinks(before, after)
    ensures Consistent(after)
  {
  }

  // ---------------------------------------------------------------- each operation

  lemma FoundByName(nodes: seq<NodeDef>, i: nat)
    requires i < |nodes| && UniqueNames(nodes)
    ensures Find(nodes, nodes[i].name) == Some(nodes[i])
  {
    if i > 0 {
      var rest := nodes[1..];
      assert nodes[0].name != nodes[i].name;
      forall j, k | 0 <= j < k < |rest|
        ensures rest[j].name != rest[k].name
      {
        assert rest[j] == nodes[j + 1] && rest[k] == nodes[k + 1];
      }
      FoundByName(rest, i - 1);
    }
  }

  lemma FoundIsListed(nodes: seq<NodeDef>, name: Name) returns (i: nat)
    requires Find(nodes, name).Some?
    ensures i < |nodes| && nodes[i].name == name && Find(nodes, name).value == nodes[i]
  {
    if nodes[0].name == name {
      i := 0;
    } else {
      var k := FoundIsListed(nodes[1..], name);
      i := k + 1;
    }
  }

  lemma AdditiveKeepsHashes(disk: Disk, existing: Resolved, desired: Resolved, name: Name)
    requires UniqueNames(existing.nodes) && UniqueNames(desired.nodes) && AdditiveChange(disk, existing, desired)
    requires ReadNode(disk, name).Some? && HashOf(existing, name).Some?
    ensures HashOf(desired, name) == HashOf(existing, name)
  {
    var i := FoundIsListed(existing.nodes, name);
    assert Listed(desired.nodes, existing.nodes[i].name);
    var j :| 0 <= j < |desired.nodes| && desired.nodes[j].name == name;
    FoundByName(desired.nodes, j);
  }

  /** The deployment state changes only in ways that keep every recorded node's hash. */
  lemma EnsureKeepsConsistent(s: Sys, faults: Faults, desired: Resolved)
    requires Consistent(s.disk) && UniqueNames(desired.nodes)
    ensures var (s1, ok) := EnsureDeployment(s, faults, desired);
            && Consistent(s1.disk) && s1.disk == s.disk.(deployment := s1.disk.deployment)
            && (ok ==> s1.disk.deployment == Some(desired))
  {
    var (s1, ok) := EnsureDeployment(s, faults, desired);
    assert forall name :: ReadNode(s1.disk, name) == ReadNode(s.disk, name);
    if s1.disk.deployment != s.disk.deployment && s.disk.deployment.Some? {
      forall name | ReadNode(s1.disk, name).Some?
        ensures ReadNode(s1.disk, name).value.node == name
        ensures HashOf(desired, name) == Some(ReadNode(s1.disk, name).value.specHash)
      {
        assert ReadNode(s.disk, name) == ReadNode(s1.disk, name);
        AdditiveKeepsHashes(s.disk, s.disk.deployment.value, desired, name);
      }
    }
  }

  lemma CommitShapeKeepsConsistent(before: Disk, after: Disk, config: Config, artifacts: Artifacts)
    requires Consistent(before) && before.deployment == Some(config.resolved) && CommitShape(before, after, config, artifacts)
    ensures Consistent(after) && after.deployment == before.deployment
  {
    var name := artifacts.name;
    forall other | ReadNode(after, other).Some?
      ensures ReadNode(after, other) == ReadNode(before, other)
              || (other == name && ReadNode(after, name) == StateFor(config, artifacts, ReadJournal(before, name).value))
    {
    }
  }

  lemma CommitOneKeepsConsistent(s: Sys, faults: Faults, config: Config, artifacts: Artifacts)
    requires Consistent(s.disk) && s.disk.deployment == Some(config.resolved)
    ensures var (s1, state) := CommitOne(s, faults, config, artifacts);
            Consistent(s1.disk) && s1.disk.deployment == s.disk.deployment
  {
    CommitOneShape(s, faults, config, artifacts);
    CommitShapeKeepsConsistent(s.disk, CommitOne(s, faults, config, artifacts).0.disk, config, artifacts);
  }

  lemma {:induction false} CommitNodesKeepsConsistent(s: Sys, faults: Faults, config: Config, outcomes: seq<Outcome>, done: CommitResult)
    requires Consistent(s.disk) && s.disk.deployment == Some(config.resolved)
    ensures Consistent(CommitNodes(s, faults, config, outcomes, done).0.disk)
    decreases |outcomes|
  {
    if outcomes != [] {
      match outcomes[0].artifacts
      case None =>
        CommitNodesKeepsConsistent(s, faults, config, outcomes[1..], done.(failed := done.failed + [outcomes[0].node]));
      case Some(artifacts) =>
        CommitOneKeepsConsistent(s, faults, config, artifacts);
        var (s1, state) := CommitOne(s, faults, config, artifacts);
        if state.Some? {
          CommitNodesKeepsConsistent(s1, faults, config, outcomes[1..], done.(nodes := done.nodes + [state.value]));
        }
    }
  }

  /** At every crash point of a commit the recorded nodes and their hashes agree with the deployment state. */
  lemma CommitKeepsConsistent(s: Sys, faults: Faults, config: Config, outcomes: seq<Outcome>)
    requires Consistent(s.disk) && UniqueNames(config.resolved.nodes)
    ensures Consistent(CommitPrepared(s, faults, config, outcomes).0.disk)
  {
    EnsureKeepsConsistent(s, faults, config.resolved);
    var (s1, ok) := EnsureDeployment(s, faults, config.resolved);
    if ok {
      CommitNodesKeepsConsistent(s1, faults, config, outcomes, CommitResult([], [], true));
    }
  }

  lemma FinalizeShrinks(s: Sys, faults: Faults, node: Name)
    ensures Shrinks(s.disk, Finalize(s, faults, node).0.disk)
  {
  }

  // ---------------------------------------------------------------- destroy

  /** The plan's copy of each node's state still describes what is on disk. */
  ghost predicate Recorded(disk: Disk, nodes: seq<NodeState>)
  {
    forall i :: 0 <= i < |nodes| ==>
      ReadNode(disk, nodes[i].node).Some? && SameRecord(ReadNode(disk, nodes[i].node).value, nodes[i])
  }

  lemma {:induction false} StatesAreRecorded(disk: Disk, names: seq<Name>)
    requires Consistent(disk)
    ensures Recorded(disk, States(disk, names))
  {
    if names != [] {
      StatesAreRecorded(disk, names[1..]);
    }
  }

  /** Only phases and times of recorded states differ. */
  ghost predicate Relabels(before: Disk, after: Disk)
  {
    && Shrinks(before, after)
    && after.nodes.Keys == before.nodes.Keys && after.retained == before.retained && after.storeNodes == before.storeNodes
    && forall name :: name in before.nodes ==>
         && after.nodes[name].files == before.nodes[name].files
         && after.nodes[name].journal == before.nodes[name].journal
         && after.nodes[name].state.Some? == before.nodes[name].state.Some?
  }

  lemma RelabelsTransitive(first: Disk, second: Disk, third: Disk)
    requires Relabels(first, second) && Relabels(second, third)
    ensures Relabels(first, third)
  {
    forall name | ReadNode(third, name).Some?
      ensures ReadNode(first, name).Some? && SameRecord(ReadNode(first, name).value, ReadNode(third, name).value)
    {
      assert ReadNode(second, name).Some?;
    }
  }

  lemma RelabelsKeepsRecorded(before: Disk, after: Disk, nodes: seq<NodeState>)
    requires Relabels(before, after) && Recorded(before, nodes)
    ensures Recorded(after, nodes)
  {
    forall i | 0 <= i < |nodes|
      ensures ReadNode(after, nodes[i].node).Some? && SameRecord(ReadNode(after, nodes[i].node).value, nodes[i])
    {
      assert ReadNode(before, nodes[i].node).Some?;
    }
  }

  lemma {:induction false} MarkAllRelabels(s: Sys, faults: Faults, nodes: seq<NodeState>, phase: Phase, now: nat)
    requires Recorded(s.disk, nodes)
    ensures Relabels(s.disk, MarkAll(s, faults, nodes, phase, now).0.disk)
    decreases |nodes|
  {
    if nodes != [] {
      assert ReadNode(s.disk, nodes[0].node).Some?;
      var (s1, ok) := WriteNode(s, faults, nodes[0].(phase := phase, updatedAt := now));
      assert Relabels(s.disk, s1.disk);
      if ok {
        RelabelsKeepsRecorded(s.disk, s1.disk, nodes);
        assert forall i :: 0 <= i < |nodes[1..]| ==> nodes[1..][i] == nodes[i + 1];
        MarkAllRelabels(s1, faults, nodes[1..], phase, now);
        RelabelsTransitive(s.disk, s1.disk, MarkAll(s1, faults, nodes[1..], phase, now).0.disk);
      }
    }
  }

  lemma WriteNodeRelabels(s: Sys, faults: Faults, record: NodeState)
    requires ReadNode(s.disk, record.node).Some? && SameRecord(ReadNode(s.disk, record.node).value, record)
    ensures Relabels(s.disk, WriteNode(s, faults, record).0.disk)
  {
  }

  lemma {:induction false} WriteEachRelabels(s: Sys, faults: Faults, records: seq<NodeState>)
    requires Recorded(s.disk, records)
    ensures Relabels(s.disk, WriteEach(s, faults, records).0.disk)
    decreases |records|
  {
    if records != [] {
      WriteNodeRelabels(s, faults, records[0]);
      var (s1, ok) := WriteNode(s, faults, records[0]);
      if ok {
        RelabelsKeepsRecorded(s.disk, s1.disk, records);
        assert forall i :: 0 <= i < |records[1..]| ==> records[1..][i] == records[i + 1];
        WriteEachRelabels(s1, faults, records[1..]);
        RelabelsTransitive(s.disk, s1.disk, WriteEach(s1, faults, records[1..]).0.disk);
      }
    }
  }

  lemma {:induction false} FinishStopsRelabels(s: Sys, faults: Faults, marks: seq<NodeState>, now: nat)
    requires Recorded(s.disk, marks)
    ensures Relabels(s.disk, FinishStops(s, faults, marks, now).0.disk)
    decreases |marks|
  {
    if marks != [] {
      var rest := marks[1..];
      assert forall i :: 0 <= i < |rest| ==> rest[i] == marks[i + 1];
      if marks[0].phase != Stopping {
        FinishStopsRelabels(s, faults, rest, now);
      } else {
        WriteNodeRelabels(s, faults, marks[0].(phase := Stopped, updatedAt := now));
        var (s1, _) := WriteNode(s, faults, marks[0].(phase := Stopped, updatedAt := now));
        RelabelsKeepsRecorded(s.disk, s1.disk, marks);
        FinishStopsRelabels(s1, faults, rest, now);
        RelabelsTransitive(s.disk, s1.disk, FinishStops(s1, faults, rest, now).0.disk);
      }
    }
  }

  /** Node directories lose files or states only; the deployment state stays. */
  ghost predicate Settles(before: Disk, after: Disk)
  {
    && after.deployment == before.deployment
    && after.nodes.Keys <= before.nodes.Keys
    && forall name :: name in after.nodes ==>
         after.nodes[name].state == None || after.nodes[name].state == before.nodes[name].state
  }

  lemma CleanupSettles(s: Sys, faults: Faults, key: Key)
    ensures var s1 := CleanupParents(s, faults, key); s1.disk.nodes == s.disk.nodes && s1.disk.deployment == s.disk.deployment
  {
  }

  /** At most the files of this one directory differ. */
  ghost predicate TouchesFiles(before: Disk, after: Disk, node: Name)
  {
    && after.deployment == before.deployment
    && (after.nodes == before.nodes
        || (&& node in before.nodes && node in after.nodes
            && after.nodes == before.nodes[node := before.nodes[node].(files := after.nodes[node].files)]))
  }

  lemma TouchesTransitive(first: Disk, second: Disk, third: Disk, node: Name)
    requires TouchesFiles(first, second, node) && TouchesFiles(second, third, node)
    ensures TouchesFiles(first, third, node)
  {
  }

  lemma TouchesSettles(before: Disk, after: Disk, node: Name)
    requires TouchesFiles(before, after, node)
    ensures Settles(before, after) && forall name :: ReadNode(after, name) == ReadNode(before, name)
  {
  }

  lemma UndoTouches(s: Sys, faults: Faults, source: Path, key: Key)
    requires ImagePath(source) && source.node in s.disk.nodes
    ensures TouchesFiles(s.disk, Undo(s, faults, source, key).disk, source.node)
  {
    var s1 := DropMarker(s, faults, key);
    assert s1.disk.nodes == s.disk.nodes && s1.disk.deployment == s.disk.deployment;
    var s2 := MoveBack(s1, faults, source, key);
    assert TouchesFiles(s.disk, s2.disk, source.node);
    CleanupSettles(s2, faults, key);
  }

  lemma PublishTouches(s: Sys, faults: Faults, identity: Identity, source: Path)
    requires ImagePath(source) && KeyOf(identity) in s.disk.retained && source.node in s.disk.nodes
    ensures TouchesFiles(s.disk, Publish(s, faults, identity, source).0.disk, source.node)
  {
    var key := KeyOf(identity);
    var (s1, narrowed) := Tick(s, faults);
    var (s2, synced) := if narrowed then Tick(s1, faults) else (s1, false);
    var marked := SetRetained(s.disk, key, s.disk.retained[key].(marker := Some(identity)));
    var (s3, published) := if synced then Apply(s2, faults, marked) else (s2, false);
    assert s3.disk.nodes == s.disk.nodes && s3.disk.deployment == s.disk.deployment;
    if !published {
      UndoTouches(s3, faults, source, key);
    }
  }

  lemma PreserveTouches(s: Sys, faults: Faults, identity: Identity, source: Path, node: Name)
    requires source.InNode? ==> source.node == node
    ensures TouchesFiles(s.disk, Preserve(s, faults, identity, source).0.disk, node)
  {
    var key := KeyOf(identity);
    if InventoryOk(s.disk) && key !in s.disk.retained && SourceOk(s.disk, source) && source.InNode? {
      var (s1, made) := MakeDirs(s, faults, key);
      assert s1.disk.nodes == s.disk.nodes && s1.disk.deployment == s.disk.deployment;
      if made {
        var (s2, moved) := Apply(s1, faults, MovedIn(s1.disk, source, key));
        assert TouchesFiles(s.disk, s2.disk, node);
        if moved {
          PublishTouches(s2, faults, identity, source);
          TouchesTransitive(s.disk, s2.disk, Publish(s2, faults, identity, source).0.disk, node);
        } else {
          CleanupSettles(s2, faults, key);
        }
      }
    }
  }

  lemma PreserveSettles(s: Sys, faults: Faults, identity: Identity, source: Path)
    ensures Settles(s.disk, Preserve(s, faults, identity, source).0.disk)
  {
    var node := if source.InNode? then source.node else "";
    PreserveTouches(s, faults, identity, source, node);
    TouchesSettles(s.disk, Preserve(s, faults, identity, source).0.disk, node);
  }

  lemma {:induction false} PreserveAllSettles(s: Sys, faults: Faults, node: NodeState, identities: seq<Identity>)
    ensures Settles(s.disk, PreserveAll(s, faults, node, identities).0.disk)
    decreases |identities|
  {
    if identities != [] {
      if identities[0].node != node.node {
        PreserveAllSettles(s, faults, node, identities[1..]);
      } else if SourceFor(node.dataDisks, identities[0].name).Some? {
        var source := SourceFor(node.dataDisks, identities[0].name).value;
        PreserveSettles(s, faults, identities[0], source);
        var (s1, ok) := Preserve(s, faults, identities[0], source);
        if ok {
          PreserveAllSettles(s1, faults, node, identities[1..]);
        }
      }
    }
  }

  lemma {:induction false} RemoveTargetsSettles(s: Sys, faults: Faults, node: Name, targets: seq<Path>)
    ensures Settles(s.disk, RemoveTargets(s, faults, node, targets).0.disk)
    decreases |targets|
  {
    if targets != [] {
      var (s1, ok) := RemoveTarget(s, faults, node, targets[0]);
      assert Settles(s.disk, s1.disk);
      if ok {
        RemoveTargetsSettles(s1, faults, node, targets[1..]);
      }
    }
  }

  lemma DestroyOneSettles(s: Sys, faults: Faults, node: NodeState, targets: seq<Path>, identities: seq<Identity>)
    ensures var (s1, ok) := DestroyOne(s, faults, node, targets, identities);
            Settles(s.disk, s1.disk) && (ok ==> node.node !in s1.disk.nodes)
  {
    PreserveAllSettles(s, faults, node, identities);
    var (s1, _) := PreserveAll(s, faults, node, identities);
    RemoveTargetsSettles(s1, faults, node.node, targets);
  }

  lemma {:induction false} DestroyEachSettles(s: Sys, faults: Faults, validated: Disk, nodes: seq<NodeState>, identities: seq<Identity>)
    requires forall i :: 0 <= i < |nodes| ==> NodeTargets(validated, nodes[i]).Some?
    ensures var (s1, ok) := DestroyEach(s, faults, validated, nodes, identities);
            Settles(s.disk, s1.disk) && (ok ==> forall i :: 0 <= i < |nodes| ==> nodes[i].node !in s1.disk.nodes)
    decreases |nodes|
  {
    if nodes != [] {
      var targets := NodeTargets(validated, nodes[0]).value;
      DestroyOneSettles(s, faults, nodes[0], targets, identities);
      var (s1, ok) := DestroyOne(s, faults, nodes[0], targets, identities);
      if ok {
        DestroyEachSettles(s1, faults, validated, nodes[1..], identities);
      }
    }
  }

  lemma SettlesKeepsConsistent(before: Disk, after: Disk)
    requires Consistent(before) && Settles(before, after)
    ensures Consistent(after)
  {
    forall name | ReadNode(after, name).Some?
      ensures ReadNode(before, name) == ReadNode(after, name)
    {
    }
  }

  lemma {:induction false} StatesCover(disk: Disk, names: seq<Name>, name: Name)
    requires name in names && ReadNode(disk, name).Some?
    ensures exists i :: 0 <= i < |States(disk, names)| && States(disk, names)[i] == ReadNode(disk, name).value
  {
    var rest := States(disk, names[1..]);
    if names[0] == name {
      assert States(disk, names)[0] == ReadNode(disk, name).value;
    } else {
      StatesCover(disk, names[1..], name);
      var i :| 0 <= i < |rest| && rest[i] == ReadNode(disk, name).value;
      var k := |States(disk, names)| - |rest| + i;
      assert States(disk, names)[k] == rest[i];
    }
  }

  lemma {:induction false} KeptCovers(names: seq<Name>, selected: seq<Name>, name: Name)
    requires name in names && name in selected
    ensures name in Kept(names, selected)
  {
    if names[0] != name {
      KeptCovers(names[1..], selected, name);
    }
  }

  lemma UniqueSet(names: seq<Name>)
    requires forall i, j :: 0 <= i < j < |names| ==> names[i] != names[j]
    ensures |set name | name in names| == |names|
  {
    if names != [] {
      var rest := names[1..];
      assert forall i :: 0 <= i < |rest| ==> rest[i] == names[i + 1];
      UniqueSet(rest);
      assert (set name | name in names) == {names[0]} + set name | name in rest;
    }
  }

  /** As many distinct names as there are nodes are all the names. */
  lemma WholeSelection(resolved: Resolved, selection: seq<Name>, selected: seq<Name>, name: Name)
    requires UniqueNames(resolved.nodes) && Selected(resolved, selection) == Some(selected)
    requires !IsPartial(resolved, selected) && name in Names(resolved.nodes)
    ensures name in selected
  {
    var names := Names(resolved.nodes);
    if selection != [] {
      UniqueSet(names);
      UniqueSet(selected);
      var all := set n | n in names;
      var chosen := set n | n in selected;
      assert chosen <= all;
      if name !in selected {
        assert chosen <= all - {name};
        SubsetSize(chosen, all - {name});
      }
    }
  }

  lemma {:induction false} RemainingFrom(nodes: seq<NodeDef>, selected: seq<Name>)
    ensures forall node :: node in Remaining(nodes, selected) ==> node in nodes && node.name !in selected
  {
    if nodes != [] {
      RemainingFrom(nodes[1..], selected);
      assert forall node :: node in nodes[1..] ==> node in nodes;
    }
  }

  lemma {:induction false} RemainingUnique(nodes: seq<NodeDef>, selected: seq<Name>)
    requires UniqueNames(nodes)
    ensures UniqueNames(Remaining(nodes, selected))
  {
    if nodes != [] {
      var tail := nodes[1..];
      assert forall j :: 0 <= j < |tail| ==> tail[j] == nodes[j + 1];
      RemainingUnique(tail, selected);
      RemainingFrom(tail, selected);
      var rest := Remaining(tail, selected);
      forall i | 0 <= i < |rest|
        ensures rest[i].name != nodes[0].name
      {
        assert rest[i] in tail;
        var j :| 0 <= j < |tail| && tail[j] == rest[i];
        assert nodes[j + 1] == tail[j];
      }
      assert Remaining(nodes, selected) == rest || Remaining(nodes, selected) == [nodes[0]] + rest;
    }
  }

  lemma {:induction false} RemainingFind(nodes: seq<NodeDef>, selected: seq<Name>, name: Name)
    ensures Find(Remaining(nodes, selected), name) == if name in selected then None else Find(nodes, name)
  {
    if nodes != [] {
      RemainingFind(nodes[1..], selected, name);
      var rest := Remaining(nodes[1..], selected);
      if nodes[0].name in selected {
        assert Remaining(nodes, selected) == rest;
      } else {
        assert Remaining(nodes, selected)[1..] == rest;
      }
    }
  }

  /** A node that still has a state after every planned node is gone was not selected. */
  lemma SurvivorsAreUnselected(disk: Disk, resolved: Resolved, selected: seq<Name>, after: Disk, name: Name)
    requires Consistent(disk) && disk.deployment == Some(resolved)
    requires forall node :: ReadNode(after, node).Some? ==> ReadNode(disk, node).Some?
    requires var nodes := States(disk, Kept(Names(resolved.nodes), selected));
             forall i :: 0 <= i < |nodes| ==> nodes[i].node !in after.nodes
    requires ReadNode(after, name).Some?
    ensures name in Names(resolved.nodes) && name !in selected
  {
    var names := Names(resolved.nodes);
    var i := FoundIsListed(resolved.nodes, name);
    assert names[i] == name;
    if name in selected {
      KeptCovers(names, selected, name);
      StatesCover(disk, Kept(names, selected), name);
    }
  }

  /** The disk after the marking and removing stages of a destroy. */
  function Marked(s: Sys, faults: Faults, nodes: seq<NodeState>, request: Request): (Sys, bool)
  {
    MarkAll(s, faults, nodes, Destroying, request.now)
  }

  lemma StagesSettle(s: Sys, faults: Faults, resolved: Resolved, nodes: seq<NodeState>, request: Request)
    requires Consistent(s.disk) && Recorded(s.disk, nodes)
    requires forall i :: 0 <= i < |nodes| ==> NodeTargets(s.disk, nodes[i]).Some?
    ensures var (s1, marked) := Marked(s, faults, nodes, request);
            && Consistent(s1.disk)
            && var (s2, destroyed) := DestroyEach(s1, faults, s.disk, nodes, Identities(resolved.nodes));
            && Consistent(s2.disk) && s2.disk.deployment == s.disk.deployment
            && (forall node :: ReadNode(s2.disk, node).Some? ==> ReadNode(s.disk, node).Some?)
            && (destroyed ==> forall i :: 0 <= i < |nodes| ==> nodes[i].node !in s2.disk.nodes)
  {
    MarkAllRelabels(s, faults, nodes, Destroying, request.now);
    var (s1, marked) := Marked(s, faults, nodes, request);
    ShrinksKeepsConsistent(s.disk, s1.disk);
    var identities := Identities(resolved.nodes);
    DestroyEachSettles(s1, faults, s.disk, nodes, identities);
    var (s2, destroyed) := DestroyEach(s1, faults, s.disk, nodes, identities);
    SettlesKeepsConsistent(s1.disk, s2.disk);
    forall node | ReadNode(s2.disk, node).Some?
      ensures ReadNode(s.disk, node).Some?
    {
      assert ReadNode(s1.disk, node).Some?;
    }
  }

  lemma ConcludeKeepsConsistent(disk: Disk, s: Sys, faults: Faults, resolved: Resolved, selection: seq<Name>, selected: seq<Name>, dropFromSpec: bool)
    requires Consistent(disk) && disk.deployment == Some(resolved) && Selected(resolved, selection) == Some(selected)
    requires Consistent(s.disk) && s.disk.deployment == Some(resolved)
    requires forall node :: ReadNode(s.disk, node).Some? ==> ReadNode(disk, node).Some?
    requires var nodes := States(disk, Kept(Names(resolved.nodes), selected));
             forall i :: 0 <= i < |nodes| ==> nodes[i].node !in s.disk.nodes
    ensures Consistent(Conclude(s, faults, resolved, selected, dropFromSpec).0.disk)
  {
    FinalKeepsConsistent(disk, s.disk, resolved, selection, selected);
  }

  lemma ExecuteKeepsConsistent(s: Sys, faults: Faults, resolved: Resolved, selection: seq<Name>, selected: seq<Name>, request: Request)
    requires Consistent(s.disk) && s.disk.deployment == Some(resolved) && Selected(resolved, selection) == Some(selected)
    requires PlanDestroy(s.disk, resolved, selected, request).Some?
    ensures var nodes := PlanDestroy(s.disk, resolved, selected, request).value;
            Consistent(Execute(s, faults, resolved, selected, nodes, request).0.disk)
  {
    var nodes := PlanDestroy(s.disk, resolved, selected, request).value;
    StatesAreRecorded(s.disk, Kept(Names(resolved.nodes), selected));
    StagesSettle(s, faults, resolved, nodes, request);
    var (s1, marked) := Marked(s, faults, nodes, request);
    if marked {
      var (s2, destroyed) := DestroyEach(s1, faults, s.disk, nodes, Identities(resolved.nodes));
      if destroyed {
        ConcludeKeepsConsistent(s.disk, s2, faults, resolved, selection, selected, request.dropFromSpec);
      }
    }
  }

  /** Once the planned nodes are gone, both ways of rewriting the deployment state keep it consistent. */
  lemma FinalKeepsConsistent(disk: Disk, after: Disk, resolved: Resolved, selection: seq<Name>, selected: seq<Name>)
    requires Consistent(disk) && disk.deployment == Some(resolved) && Selected(resolved, selection) == Some(selected)
    requires Consistent(after) && after.deployment == Some(resolved)
    requires forall node :: ReadNode(after, node).Some? ==> ReadNode(disk, node).Some?
    requires var nodes := States(disk, Kept(Names(resolved.nodes), selected));
             forall i :: 0 <= i < |nodes| ==> nodes[i].node !in after.nodes
    ensures !IsPartial(resolved, selected) ==> Consistent(after.(deployment := None))
    ensures Consistent(after.(deployment := Some(resolved.(nodes := Remaining(resolved.nodes, selected)))))
  {
    var narrowed := after.(deployment := Some(resolved.(nodes := Remaining(resolved.nodes, selected))));
    RemainingUnique(resolved.nodes, selected);
    forall name | ReadNode(after, name).Some?
      ensures name in Names(resolved.nodes) && name !in selected
      ensures HashOf(narrowed.deployment.value, name) == HashOf(resolved, name)
    {
      SurvivorsAreUnselected(disk, resolved, selected, after, name);
      RemainingFind(resolved.nodes, selected, name);
    }
    if !IsPartial(resolved, selected) {
      forall name | ReadNode(after, name).Some?
        ensures false
      {
        WholeSelection(resolved, selection, selected, name);
      }
      assert forall name :: ReadNode(after.(deployment := None), name) == ReadNode(after, name);
    }
    assert forall name :: ReadNode(narrowed, name) == ReadNode(after, name);
  }

  lemma MarksAreRecorded(disk: Disk, nodes: seq<NodeState>, now: nat)
    requires Recorded(disk, nodes)
    ensures Recorded(disk, StopMarks(nodes, now))
  {
    var marks := StopMarks(nodes, now);
    forall i | 0 <= i < |marks|
      ensures ReadNode(disk, marks[i].node).Some? && SameRecord(ReadNode(disk, marks[i].node).value, marks[i])
    {
      assert marks[i] == StopMark(nodes[i], now) && SameRecord(nodes[i], marks[i]);
    }
  }

  lemma StopMarkedRelabels(s: Sys, faults: Faults, marks: seq<NodeState>, now: nat)
    requires Recorded(s.disk, marks)
    ensures Relabels(s.disk, StopMarked(s, faults, marks, now).0.disk)
  {
    WriteEachRelabels(s, faults, marks);
    var (s1, marked) := WriteEach(s, faults, marks);
    if marked {
      RelabelsKeepsRecorded(s.disk, s1.disk, marks);
      FinishStopsRelabels(s1, faults, marks, now);
      RelabelsTransitive(s.disk, s1.disk, FinishStops(s1, faults, marks, now).0.disk);
    }
  }

  lemma RelabelsItself(disk: Disk)
    ensures Relabels(disk, disk)
  {
  }

  lemma StopFirstStages(s: Sys, faults: Faults, nodes: seq<NodeState>, now: nat)
    ensures StopFirst(s, faults, nodes, now).0 in {s, StopMarked(s, faults, StopMarks(nodes, now), now).0}
  {
  }

  lemma StopFirstRelabels(s: Sys, faults: Faults, nodes: seq<NodeState>, now: nat)
    requires Recorded(s.disk, nodes)
    ensures Relabels(s.disk, StopFirst(s, faults, nodes, now).0.disk)
  {
    MarksAreRecorded(s.disk, nodes, now);
    StopMarkedRelabels(s, faults, StopMarks(nodes, now), now);
    RelabelsItself(s.disk);
    StopFirstStages(s, faults, nodes, now);
  }

  /** At every crash point of a partial or whole destroy, the nodes that still have a state are listed in the
      deployment state under their own hash. */
  lemma DestroyKeepsConsistent(s: Sys, faults: Faults, request: Request)
    requires Consistent(s.disk)
    ensures Consistent(DestroySelected(s, faults, request).0.disk)
  {
    if s.disk.deployment.Some? {
      var resolved := s.disk.deployment.value;
      if Selected(resolved, request.selection).Some? {
        var selected := Selected(resolved, request.selection).value;
        var kept := Kept(Names(resolved.nodes), selected);
        var nodes := States(s.disk, kept);
        StatesAreRecorded(s.disk, kept);
        StopFirstRelabels(s, faults, nodes, request.now);
        var (s1, stopped) := StopFirst(s, faults, nodes, request.now);
        ShrinksKeepsConsistent(s.disk, s1.disk);
        if stopped && PlanDestroy(s1.disk, resolved, selected, request).Some? {
          ExecuteKeepsConsistent(s1, faults, resolved, request.selection, selected, request);
        }
      }
    }
  }
}
