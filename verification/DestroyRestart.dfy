/** When a destroy that was cut short can be run again: the exact condition, over every disk. */
module DestroyRestart {
  import opened Wrappers
  import opened Collections
  import opened DeploymentStore
  import opened RetainedStore
  import opened Destroy
  import opened HashInvariant
  import opened Conservation
  import opened DestroyLaws
  import opened CleanDestroy
  import DeploymentRuns

  // ---------------------------------------------------------------- what is declared and what is recorded

  lemma {:induction false} IdentityOfDisk(node: Name, disks: seq<DiskDef>, identity: Identity)
    ensures identity in IdentitiesOf(node, disks) <==>
              exists k :: 0 <= k < |disks| && disks[k].persistent && identity == Identity(node, disks[k].name, disks[k].size, disks[k].mount)
  {
    if disks != [] {
      var rest := disks[1..];
      IdentityOfDisk(node, rest, identity);
      assert forall k :: 0 <= k < |rest| ==> rest[k] == disks[k + 1];
      if k :| 0 <= k < |disks| && disks[k].persistent && identity == Identity(node, disks[k].name, disks[k].size, disks[k].mount) {
        assert k > 0 ==> rest[k - 1] == disks[k];
      }
    }
  }

  lemma {:induction false} IdentityOfNode(nodes: seq<NodeDef>, identity: Identity)
    ensures identity in Identities(nodes) <==>
              exists i :: 0 <= i < |nodes| && identity in IdentitiesOf(nodes[i].name, nodes[i].disks)
  {
    if nodes != [] {
      var rest := nodes[1..];
      IdentityOfNode(rest, identity);
      assert forall i :: 0 <= i < |rest| ==> rest[i] == nodes[i + 1];
      if i :| 0 <= i < |nodes| && identity in IdentitiesOf(nodes[i].name, nodes[i].disks) {
        assert i > 0 ==> rest[i - 1] == nodes[i];
      }
    }
  }

  /** The node records disk k as this persistent disk. */
  predicate RecordsAt(node: NodeState, k: nat, identity: Identity)
  {
    && k < |node.dataDisks| && node.dataDisks[k].persistent
    && identity == Identity(node.node, node.dataDisks[k].name, node.dataDisks[k].size, node.dataDisks[k].mount)
  }

  /** The declared persistent disks of a node with a state are exactly those that the state records. */
  lemma DeclaredIsRecorded(disk: Disk, resolved: Resolved, node: NodeState, identity: Identity)
    requires Consistent(disk) && RecordsOk(disk) && disk.deployment == Some(resolved)
    requires ReadNode(disk, node.node) == Some(node) && identity.node == node.node
    ensures identity in Identities(resolved.nodes) <==> exists k :: RecordsAt(node, k, identity)
  {
    var definition := node.specHash.node;
    var d := FoundIsListed(resolved.nodes, node.node);
    assert resolved.nodes[d] == definition;
    IdentityOfNode(resolved.nodes, identity);
    forall i | 0 <= i < |resolved.nodes|
      ensures identity in IdentitiesOf(resolved.nodes[i].name, resolved.nodes[i].disks) <==>
                i == d && exists k :: RecordsAt(node, k, identity)
    {
      IdentityOfDisk(resolved.nodes[i].name, resolved.nodes[i].disks, identity);
      if i == d {
        assert forall k: nat :: k < |node.dataDisks| ==>
          (RecordsAt(node, k, identity) <==>
             definition.disks[k].persistent
             && identity == Identity(definition.name, definition.disks[k].name, definition.disks[k].size, definition.disks[k].mount));
      }
    }
  }

  // ---------------------------------------------------------------- what validation asks for

  /** The retained store is complete, and its disks of declared nodes are declared with the same contract. */
  predicate StoreAgrees(disk: Disk, resolved: Resolved)
  {
    && InventoryOk(disk) && DistinctKeys(Identities(resolved.nodes))
    && forall key :: key in Records(disk) && key.0 in Names(resolved.nodes) ==> Records(disk)[key] in Identities(resolved.nodes)
  }

  /** The file of disk k is where the state records it. */
  predicate AtRecordedPath(disk: Disk, node: NodeState, k: nat)
    requires k < |node.dataDisks|
  {
    var key := (node.node, node.dataDisks[k].name);
    if node.dataDisks[k].path == LocalPath(key) then LocalFile(disk, key).Some? else StoredFile(disk, key).Some?
  }

  predicate InPlace(disk: Disk, nodes: seq<NodeState>)
  {
    forall i, k :: 0 <= i < |nodes| && 0 <= k < |nodes[i].dataDisks| && nodes[i].dataDisks[k].persistent ==>
      AtRecordedPath(disk, nodes[i], k)
  }

  /** The directory of the node holds no file that a destroy does not expect. */
  predicate OnlyOwnFiles(disk: Disk, node: NodeState)
  {
    && node.node in disk.nodes
    && forall base :: base in Entries(disk.nodes[node.node]) ==> InNode(node.node, base) in ExpectedFiles(node)
  }

  predicate IdleAndClean(disk: Disk, request: Request, node: NodeState)
  {
    node.node !in request.live && OnlyOwnFiles(disk, node)
  }

  lemma PathIsSource(disk: Disk, node: NodeState, k: nat)
    requires RecordOk(node) && k < |node.dataDisks| && node.dataDisks[k].persistent
    ensures SourceOk(disk, node.dataDisks[k].path) <==> AtRecordedPath(disk, node, k)
  {
  }

  lemma RecordedDisksAreDeclared(disk: Disk, resolved: Resolved, node: NodeState, k: nat)
    requires Consistent(disk) && RecordsOk(disk) && disk.deployment == Some(resolved) && ReadNode(disk, node.node) == Some(node)
    requires k < |node.dataDisks| && node.dataDisks[k].persistent
    ensures Identity(node.node, node.dataDisks[k].name, node.dataDisks[k].size, node.dataDisks[k].mount) in Identities(resolved.nodes)
  {
    var identity := Identity(node.node, node.dataDisks[k].name, node.dataDisks[k].size, node.dataDisks[k].mount);
    DeclaredIsRecorded(disk, resolved, node, identity);
    assert RecordsAt(node, k, identity);
  }

  lemma PersistentIsExact(disk: Disk, resolved: Resolved, nodes: seq<NodeState>)
    requires Consistent(disk) && RecordsOk(disk) && disk.deployment == Some(resolved)
    requires AreRead(disk, Names(resolved.nodes), nodes)
    ensures PersistentOk(disk, resolved, nodes) <==> StoreAgrees(disk, resolved) && InPlace(disk, nodes)
  {
    forall i, k | 0 <= i < |nodes| && 0 <= k < |nodes[i].dataDisks| && nodes[i].dataDisks[k].persistent
      ensures SourceOk(disk, nodes[i].dataDisks[k].path) <==> AtRecordedPath(disk, nodes[i], k)
      ensures Identity(nodes[i].node, nodes[i].dataDisks[k].name, nodes[i].dataDisks[k].size, nodes[i].dataDisks[k].mount)
              in Identities(resolved.nodes)
    {
      PathIsSource(disk, nodes[i], k);
      RecordedDisksAreDeclared(disk, resolved, nodes[i], k);
    }
  }

  lemma TargetsExist(disk: Disk, node: NodeState)
    requires RecordOk(node)
    ensures NodeTargets(disk, node).Some? <==> OnlyOwnFiles(disk, node)
  {
  }

  predicate AreRead(disk: Disk, names: seq<Name>, nodes: seq<NodeState>)
  {
    forall i :: 0 <= i < |nodes| ==> nodes[i].node in names && ReadNode(disk, nodes[i].node) == Some(nodes[i])
  }

  lemma StatesAreRead(disk: Disk, names: seq<Name>)
    requires Consistent(disk) && Distinct(names)
    ensures AreRead(disk, names, States(disk, names))
  {
    StatesAreDistinct(disk, names);
    forall i | 0 <= i < |States(disk, names)|
      ensures States(disk, names)[i] in States(disk, names)
    {
    }
  }

  predicate Ended(phase: Phase)
  {
    phase == Stopped || phase == Prepared
  }

  /** Validation accepts exactly when the store agrees, the recorded disks are in place, and every selected node with a
      state has ended, is idle, and has a clean directory. */
  lemma PlanIsExact(disk: Disk, resolved: Resolved, selected: seq<Name>, request: Request)
    requires Consistent(disk) && RecordsOk(disk) && disk.deployment == Some(resolved)
    ensures var nodes := States(disk, Kept(Names(resolved.nodes), selected));
            PlanDestroy(disk, resolved, selected, request).Some? <==>
              && StoreAgrees(disk, resolved) && InPlace(disk, States(disk, Names(resolved.nodes)))
              && forall i :: 0 <= i < |nodes| ==> Ended(nodes[i].phase) && IdleAndClean(disk, request, nodes[i])
  {
    var names := Names(resolved.nodes);
    var nodes := States(disk, Kept(names, selected));
    assert Distinct(names);
    KeptIsDistinct(names, selected);
    StatesAreRead(disk, names);
    StatesAreRead(disk, Kept(names, selected));
    PersistentIsExact(disk, resolved, States(disk, names));
    forall i | 0 <= i < |nodes|
      ensures NodeTargets(disk, nodes[i]).Some? <==> OnlyOwnFiles(disk, nodes[i])
    {
      assert RecordOk(ReadNode(disk, nodes[i].node).value);
      TargetsExist(disk, nodes[i]);
    }
  }

  // ---------------------------------------------------------------- a plan is carried out

  /** No recorded persistent disk is both in its node directory and in the store. */
  ghost predicate Single(disk: Disk)
  {
    forall name, k: nat :: RecordsDisk(disk, name, k) ==>
      var key := (name, ReadNode(disk, name).value.dataDisks[k].name);
      LocalFile(disk, key) == None || StoredFile(disk, key) == None
  }

  predicate RecordsDisk(disk: Disk, name: Name, k: nat)
  {
    ReadNode(disk, name).Some? && k < |ReadNode(disk, name).value.dataDisks| && ReadNode(disk, name).value.dataDisks[k].persistent
  }

  lemma RecordedIsPreservable(disk: Disk, resolved: Resolved, node: NodeState, identity: Identity, k: nat)
    requires RecordsOk(disk) && ReadNode(disk, node.node) == Some(node) && RecordsAt(node, k, identity)
    requires StoreAgrees(disk, resolved) && AtRecordedPath(disk, node, k) && Single(disk)
    requires identity in Identities(resolved.nodes) && node.node in Names(resolved.nodes)
    ensures Preservable(disk, node, identity)
  {
    var key, data := KeyOf(identity), node.dataDisks[k];
    SourceOfDistinct(node.dataDisks, k);
    assert RecordsDisk(disk, node.node, k);
    if data.path != LocalPath(key) {
      var record := Records(disk)[key];
      assert record in Identities(resolved.nodes) && KeyOf(record) == key;
      SameKeySameIdentity(Identities(resolved.nodes), record, identity);
    }
  }

  lemma SameKeySameIdentity(identities: seq<Identity>, first: Identity, second: Identity)
    requires DistinctKeys(identities) && first in identities && second in identities && KeyOf(first) == KeyOf(second)
    ensures first == second
  {
    var i :| 0 <= i < |identities| && identities[i] == first;
    var j :| 0 <= j < |identities| && identities[j] == second;
  }

  lemma NodeIsReady(disk: Disk, resolved: Resolved, nodes: seq<NodeState>, i: nat)
    requires Consistent(disk) && RecordsOk(disk) && disk.deployment == Some(resolved) && Single(disk)
    requires StoreAgrees(disk, resolved) && InPlace(disk, nodes) && i < |nodes|
    requires ReadNode(disk, nodes[i].node) == Some(nodes[i]) && nodes[i].node in Names(resolved.nodes) && OnlyOwnFiles(disk, nodes[i])
    ensures Ready(disk, nodes[i], Identities(resolved.nodes))
  {
    var node, identities := nodes[i], Identities(resolved.nodes);
    forall k | 0 <= k < |node.dataDisks| && node.dataDisks[k].persistent
      ensures Identity(node.node, node.dataDisks[k].name, node.dataDisks[k].size, node.dataDisks[k].mount) in identities
    {
      RecordedDisksAreDeclared(disk, resolved, node, k);
    }
    forall identity | identity in identities && identity.node == node.node
      ensures Preservable(disk, node, identity)
    {
      DeclaredIsRecorded(disk, resolved, node, identity);
      var k :| RecordsAt(node, k, identity);
      RecordedIsPreservable(disk, resolved, node, identity, k);
    }
  }

  lemma RelabelsKeepsReady(before: Disk, after: Disk, node: NodeState, identities: seq<Identity>)
    requires Relabels(before, after) && Ready(before, node, identities)
    ensures Ready(after, node, identities)
  {
    forall identity | identity in identities && identity.node == node.node
      ensures Preservable(after, node, identity)
    {
      assert Preservable(before, node, identity);
    }
  }

  lemma ReadyIsDestroyed(s: Sys, resolved: Resolved, selected: seq<Name>, nodes: seq<NodeState>, request: Request)
    requires DistinctKeys(Identities(resolved.nodes)) && InventoryOk(s.disk) && Recorded(s.disk, nodes)
    requires forall i :: 0 <= i < |nodes| ==> Ready(s.disk, nodes[i], Identities(resolved.nodes)) && NodeTargets(s.disk, nodes[i]).Some?
    requires forall i, j :: 0 <= i < j < |nodes| ==> nodes[i].node != nodes[j].node
    ensures Execute(s, NO_FAULTS, resolved, selected, nodes, request).1
  {
    var identities := Identities(resolved.nodes);
    MarkAllSucceeds(s, nodes, Destroying, request.now);
    MarkAllRelabels(s, NO_FAULTS, nodes, Destroying, request.now);
    var (s1, _) := MarkAll(s, NO_FAULTS, nodes, Destroying, request.now);
    forall i | 0 <= i < |nodes|
      ensures Ready(s1.disk, nodes[i], identities)
    {
      RelabelsKeepsReady(s.disk, s1.disk, nodes[i], identities);
    }
    DestroyEachSucceeds(s1, s.disk, nodes, identities);
  }

  /** A plan is carried out to the end when nothing disturbs it. */
  lemma PlannedIsDestroyed(s: Sys, resolved: Resolved, selected: seq<Name>, request: Request)
    requires Consistent(s.disk) && RecordsOk(s.disk) && s.disk.deployment == Some(resolved) && Single(s.disk)
    requires PlanDestroy(s.disk, resolved, selected, request).Some?
    ensures Execute(s, NO_FAULTS, resolved, selected, PlanDestroy(s.disk, resolved, selected, request).value, request).1
  {
    var names := Names(resolved.nodes);
    var nodes := PlanDestroy(s.disk, resolved, selected, request).value;
    assert Distinct(names);
    KeptIsDistinct(names, selected);
    PlanIsExact(s.disk, resolved, selected, request);
    PlanFacts(s.disk, resolved, selected, request);
    StatesAreRead(s.disk, Kept(names, selected));
    forall i | 0 <= i < |nodes|
      ensures Ready(s.disk, nodes[i], Identities(resolved.nodes)) && NodeTargets(s.disk, nodes[i]).Some?
    {
      PlannedIsReady(s.disk, resolved, names, nodes[i]);
    }
    ReadyIsDestroyed(s, resolved, selected, nodes, request);
  }

  lemma PlannedIsReady(disk: Disk, resolved: Resolved, names: seq<Name>, node: NodeState)
    requires Consistent(disk) && RecordsOk(disk) && disk.deployment == Some(resolved) && Single(disk)
    requires names == Names(resolved.nodes) && StoreAgrees(disk, resolved) && InPlace(disk, States(disk, names))
    requires ReadNode(disk, node.node) == Some(node) && node.node in names && OnlyOwnFiles(disk, node)
    ensures Ready(disk, node, Identities(resolved.nodes))
  {
    StatesCover(disk, names, node.node);
    var all := States(disk, names);
    var j :| 0 <= j < |all| && all[j] == node;
    NodeIsReady(disk, resolved, all, j);
  }

  // ---------------------------------------------------------------- stopping first

  /** The phases that a stop, where it is needed, turns into Stopped or Prepared: all are Stopped, or some node runs or is
      prepared and none is in a phase that a stop refuses. */
  predicate Stoppable(nodes: seq<NodeState>)
  {
    || (forall i :: 0 <= i < |nodes| ==> nodes[i].phase == Stopped)
    || (&& (exists i :: 0 <= i < |nodes| && (nodes[i].phase == Running || nodes[i].phase == Prepared))
        && forall i :: 0 <= i < |nodes| ==> nodes[i].phase in {Running, Starting, Stopping, Stopped, Prepared})
  }

  ghost predicate DifferentNodes(nodes: seq<NodeState>)
  {
    forall i, j :: 0 <= i < j < |nodes| ==> nodes[i].node != nodes[j].node
  }

  /** Without faults every record is written, and nothing else. */
  lemma {:induction false} WriteEachWrites(s: Sys, records: seq<NodeState>, name: Name)
    requires DifferentNodes(records)
    ensures var (s1, ok) := WriteEach(s, NO_FAULTS, records);
            && ok && (forall i :: 0 <= i < |records| && records[i].node == name ==> ReadNode(s1.disk, name) == Some(records[i]))
            && ((forall i :: 0 <= i < |records| ==> records[i].node != name) ==> ReadNode(s1.disk, name) == ReadNode(s.disk, name))
    decreases |records|
  {
    if records != [] {
      assert forall i :: 0 <= i < |records[1..]| ==> records[1..][i] == records[i + 1];
      WriteEachWrites(WriteNode(s, NO_FAULTS, records[0]).0, records[1..], name);
    }
  }

  /** Without faults every Stopping node becomes Stopped, and nothing else changes. */
  lemma {:induction false} FinishStopsStops(s: Sys, marks: seq<NodeState>, now: nat, name: Name)
    requires DifferentNodes(marks)
    ensures var (s1, ok) := FinishStops(s, NO_FAULTS, marks, now);
            && ok && (forall i :: 0 <= i < |marks| && marks[i].node == name && marks[i].phase == Stopping ==>
                        ReadNode(s1.disk, name) == Some(marks[i].(phase := Stopped, updatedAt := now)))
            && ((forall i :: 0 <= i < |marks| && marks[i].node == name ==> marks[i].phase != Stopping) ==>
                  ReadNode(s1.disk, name) == ReadNode(s.disk, name))
    decreases |marks|
  {
    if marks != [] {
      assert forall i :: 0 <= i < |marks[1..]| ==> marks[1..][i] == marks[i + 1];
      var s1 := if marks[0].phase == Stopping then WriteNode(s, NO_FAULTS, marks[0].(phase := Stopped, updatedAt := now)).0 else s;
      FinishStopsStops(s1, marks[1..], now, name);
    }
  }

  predicate AllEnded(nodes: seq<NodeState>)
  {
    forall i :: 0 <= i < |nodes| ==> Ended(nodes[i].phase)
  }

  predicate NoneRefusesStop(nodes: seq<NodeState>)
  {
    forall i :: 0 <= i < |nodes| ==> nodes[i].phase in {Running, Starting, Stopping, Stopped, Prepared}
  }

  /** What the stop stage leaves of one node. */
  lemma StoppedNode(s: Sys, nodes: seq<NodeState>, now: nat, j: nat)
    requires DifferentNodes(nodes) && NoneRefusesStop(nodes) && j < |nodes|
    ensures var (s1, ok) := StopMarked(s, NO_FAULTS, StopMarks(nodes, now), now);
            ok && ReadNode(s1.disk, nodes[j].node).Some? && ReadNode(s1.disk, nodes[j].node).value.phase == Stopped
  {
    var marks := StopMarks(nodes, now);
    WriteEachWrites(s, marks, marks[j].node);
    FinishStopsStops(WriteEach(s, NO_FAULTS, marks).0, marks, now, marks[j].node);
  }

  lemma StopSucceeds(s: Sys, nodes: seq<NodeState>, now: nat)
    requires DifferentNodes(nodes)
    ensures StopMarked(s, NO_FAULTS, StopMarks(nodes, now), now).1
  {
    var marks := StopMarks(nodes, now);
    WriteEachWrites(s, marks, "");
    FinishStopsStops(WriteEach(s, NO_FAULTS, marks).0, marks, now, "");
  }

  lemma NamedAreDifferent(disk: Disk, names: seq<Name>)
    requires Consistent(disk) && Distinct(names)
    ensures DifferentNodes(States(disk, names))
  {
    StatesAreRead(disk, names);
    StatesAreDistinct(disk, names);
    var nodes := States(disk, names);
    forall i, j | 0 <= i < j < |nodes|
      ensures nodes[i].node != nodes[j].node
    {
      assert nodes[i] != nodes[j] && ReadNode(disk, nodes[i].node) == Some(nodes[i]) && ReadNode(disk, nodes[j].node) == Some(nodes[j]);
    }
  }

  lemma MarkedAreStopped(s: Sys, names: seq<Name>, now: nat)
    requires Consistent(s.disk) && Distinct(names) && NoneRefusesStop(States(s.disk, names))
    ensures var (s1, ok) := StopMarked(s, NO_FAULTS, StopMarks(States(s.disk, names), now), now);
            ok && AllEnded(States(s1.disk, names))
  {
    var nodes := States(s.disk, names);
    var s1 := StopMarked(s, NO_FAULTS, StopMarks(nodes, now), now).0;
    NamedAreDifferent(s.disk, names);
    StopSucceeds(s, nodes, now);
    StatesAreRecorded(s.disk, names);
    MarksAreRecorded(s.disk, nodes, now);
    StopMarkedRelabels(s, NO_FAULTS, StopMarks(nodes, now), now);
    ShrinksKeepsConsistent(s.disk, s1.disk);
    StatesAreRead(s1.disk, names);
    forall i | 0 <= i < |States(s1.disk, names)|
      ensures Ended(States(s1.disk, names)[i].phase)
    {
      var name := States(s1.disk, names)[i].node;
      assert ReadNode(s.disk, name).Some?;
      StatesCover(s.disk, names, name);
      var j :| 0 <= j < |nodes| && nodes[j] == ReadNode(s.disk, name).value;
      StoppedNode(s, nodes, now, j);
    }
  }

  /** Without faults the selected nodes have ended after the stop, exactly when their phases were stoppable. */
  lemma StopIsExact(s: Sys, names: seq<Name>, now: nat)
    requires Consistent(s.disk) && Distinct(names)
    ensures var nodes := States(s.disk, names);
            var (s1, ok) := StopFirst(s, NO_FAULTS, nodes, now);
            ok && AllEnded(States(s1.disk, names)) <==> Stoppable(nodes)
  {
    if NoneRefusesStop(States(s.disk, names)) {
      MarkedAreStopped(s, names, now);
    }
  }

  // ---------------------------------------------------------------- the checks, name by name

  /** The states are those of the named nodes. */
  ghost predicate Enumerates(disk: Disk, names: seq<Name>, nodes: seq<NodeState>)
  {
    && (forall i :: 0 <= i < |nodes| ==> nodes[i].node in names && ReadNode(disk, nodes[i].node) == Some(nodes[i]))
    && forall name :: name in names && ReadNode(disk, name).Some? ==> ReadNode(disk, name).value in nodes
  }

  lemma SelectedStates(disk: Disk, resolved: Resolved, selected: seq<Name>)
    requires Consistent(disk) && disk.deployment == Some(resolved)
    ensures Enumerates(disk, selected, States(disk, Kept(Names(resolved.nodes), selected)))
  {
    var names := Names(resolved.nodes);
    var kept := Kept(names, selected);
    assert Distinct(names);
    KeptIsDistinct(names, selected);
    KeptAreSelected(names, selected);
    StatesAreRead(disk, kept);
    forall name | name in selected && ReadNode(disk, name).Some?
      ensures ReadNode(disk, name).value in States(disk, kept)
    {
      var i := FoundIsListed(resolved.nodes, name);
      assert names[i] == name;
      KeptCovers(names, selected, name);
      StatesCover(disk, kept, name);
    }
  }

  lemma AllStates(disk: Disk, resolved: Resolved)
    requires Consistent(disk) && disk.deployment == Some(resolved)
    ensures Enumerates(disk, Names(resolved.nodes), States(disk, Names(resolved.nodes)))
    ensures forall name :: ReadNode(disk, name).Some? ==> name in Names(resolved.nodes)
  {
    var names := Names(resolved.nodes);
    assert Distinct(names);
    StatesAreRead(disk, names);
    forall name | ReadNode(disk, name).Some?
      ensures name in names && ReadNode(disk, name).value in States(disk, names)
    {
      var i := FoundIsListed(resolved.nodes, name);
      assert names[i] == name;
      StatesCover(disk, names, name);
    }
  }

  /** The persistent disks of every node that has a state are where the state records them. */
  ghost predicate AllInPlace(disk: Disk)
  {
    forall name, k: nat :: RecordsDisk(disk, name, k) ==> AtRecordedPath(disk, ReadNode(disk, name).value, k)
  }

  /** Every selected node that still has a state is idle, and its directory holds only its own files. */
  predicate SelectedAreClean(disk: Disk, selected: seq<Name>, request: Request)
  {
    forall name :: name in selected && ReadNode(disk, name).Some? ==> IdleAndClean(disk, request, ReadNode(disk, name).value)
  }

  predicate SelectedEnded(disk: Disk, selected: seq<Name>)
  {
    forall name :: name in selected && ReadNode(disk, name).Some? ==> Ended(ReadNode(disk, name).value.phase)
  }

  /** Every selected node that still has a state is stopped, or some of them runs or is prepared and none is in a phase
      that a stop refuses. */
  ghost predicate SelectedStoppable(disk: Disk, selected: seq<Name>)
  {
    || (forall name :: name in selected && ReadNode(disk, name).Some? ==> ReadNode(disk, name).value.phase == Stopped)
    || (&& (exists name :: name in selected && ReadNode(disk, name).Some? && ReadNode(disk, name).value.phase in {Running, Prepared})
        && forall name :: name in selected && ReadNode(disk, name).Some? ==>
             ReadNode(disk, name).value.phase in {Running, Starting, Stopping, Stopped, Prepared})
  }

  lemma StoppableByName(disk: Disk, selected: seq<Name>, nodes: seq<NodeState>)
    requires Enumerates(disk, selected, nodes)
    ensures Stoppable(nodes) <==> SelectedStoppable(disk, selected)
  {
    forall name | name in selected && ReadNode(disk, name).Some?
      ensures exists i :: 0 <= i < |nodes| && nodes[i] == ReadNode(disk, name).value
    {
      assert ReadNode(disk, name).value in nodes;
    }
  }

  lemma EndedByName(disk: Disk, selected: seq<Name>, nodes: seq<NodeState>, request: Request)
    requires Enumerates(disk, selected, nodes)
    ensures AllEnded(nodes) <==> SelectedEnded(disk, selected)
    ensures (forall i :: 0 <= i < |nodes| ==> IdleAndClean(disk, request, nodes[i])) <==> SelectedAreClean(disk, selected, request)
  {
    forall name | name in selected && ReadNode(disk, name).Some?
      ensures exists i :: 0 <= i < |nodes| && nodes[i] == ReadNode(disk, name).value
    {
      assert ReadNode(disk, name).value in nodes;
    }
  }

  lemma InPlaceByName(disk: Disk, resolved: Resolved)
    requires Consistent(disk) && disk.deployment == Some(resolved)
    ensures InPlace(disk, States(disk, Names(resolved.nodes))) <==> AllInPlace(disk)
  {
    var nodes := States(disk, Names(resolved.nodes));
    AllStates(disk, resolved);
    if InPlace(disk, nodes) {
      forall name, k: nat | RecordsDisk(disk, name, k)
        ensures AtRecordedPath(disk, ReadNode(disk, name).value, k)
      {
        var i :| 0 <= i < |nodes| && nodes[i] == ReadNode(disk, name).value;
      }
    }
    if AllInPlace(disk) {
      forall i, k | 0 <= i < |nodes| && 0 <= k < |nodes[i].dataDisks| && nodes[i].dataDisks[k].persistent
        ensures AtRecordedPath(disk, nodes[i], k)
      {
        assert RecordsDisk(disk, nodes[i].node, k);
      }
    }
  }

  lemma PlanByName(disk: Disk, resolved: Resolved, selected: seq<Name>, request: Request)
    requires Consistent(disk) && RecordsOk(disk) && disk.deployment == Some(resolved)
    ensures PlanDestroy(disk, resolved, selected, request).Some? <==>
              StoreAgrees(disk, resolved) && AllInPlace(disk) && SelectedEnded(disk, selected) && SelectedAreClean(disk, selected, request)
  {
    var nodes := States(disk, Kept(Names(resolved.nodes), selected));
    PlanIsExact(disk, resolved, selected, request);
    InPlaceByName(disk, resolved);
    SelectedStates(disk, resolved, selected);
    EndedByName(disk, selected, nodes, request);
  }

  /** Relabelling changes nothing that the checks look at, besides phases. */
  lemma RelabelsKeepsChecks(before: Disk, after: Disk, resolved: Resolved, selected: seq<Name>, request: Request)
    requires Consistent(before) && Relabels(before, after)
    ensures StoreAgrees(after, resolved) <==> StoreAgrees(before, resolved)
    ensures SelectedAreClean(after, selected, request) <==> SelectedAreClean(before, selected, request)
  {
    assert InventoryOk(after) <==> InventoryOk(before);
    forall name
      ensures ReadNode(after, name).Some? == ReadNode(before, name).Some?
      ensures ReadNode(after, name).Some? ==>
                (IdleAndClean(after, request, ReadNode(after, name).value) <==> IdleAndClean(before, request, ReadNode(before, name).value))
    {
    }
  }

  lemma RelabelsKeepsPlaces(before: Disk, after: Disk)
    requires Relabels(before, after)
    ensures AllInPlace(after) <==> AllInPlace(before)
    ensures Single(after) <==> Single(before)
  {
    forall name, k: nat
      ensures RecordsDisk(after, name, k) <==> RecordsDisk(before, name, k)
      ensures RecordsDisk(after, name, k) ==>
                && ReadNode(after, name).value.dataDisks == ReadNode(before, name).value.dataDisks
                && ReadNode(after, name).value.node == ReadNode(before, name).value.node
    {
      if ReadNode(before, name).Some? {
        assert ReadNode(after, name).Some?;
      }
    }
    assert forall key :: LocalFile(after, key) == LocalFile(before, key) && StoredFile(after, key) == StoredFile(before, key);
  }

  // ---------------------------------------------------------------- the exact condition

  /** What must hold of the disk for an undisturbed destroy to run to its end. */
  ghost predicate Restartable(disk: Disk, request: Request)
  {
    && disk.deployment.Some?
    && var resolved := disk.deployment.value;
    && Selected(resolved, request.selection).Some?
    && var selected := Selected(resolved, request.selection).value;
    && (IsPartial(resolved, selected) ==> request.allowPartial)
    && StoreAgrees(disk, resolved) && AllInPlace(disk)
    && SelectedStoppable(disk, selected) && SelectedAreClean(disk, selected, request)
  }

  lemma AfterStopIsExact(s: Sys, resolved: Resolved, selected: seq<Name>, request: Request)
    requires Consistent(s.disk) && RecordsOk(s.disk) && s.disk.deployment == Some(resolved) && Single(s.disk)
    ensures var (s1, ok) := StopFirst(s, NO_FAULTS, States(s.disk, Kept(Names(resolved.nodes), selected)), request.now);
            && Consistent(s1.disk) && RecordsOk(s1.disk) && s1.disk.deployment == Some(resolved) && Single(s1.disk)
            && (ok && PlanDestroy(s1.disk, resolved, selected, request).Some? <==>
                  && StoreAgrees(s.disk, resolved) && AllInPlace(s.disk)
                  && SelectedStoppable(s.disk, selected) && SelectedAreClean(s.disk, selected, request))
  {
    var names := Names(resolved.nodes);
    var kept := Kept(names, selected);
    var nodes := States(s.disk, kept);
    assert Distinct(names);
    KeptIsDistinct(names, selected);
    StatesAreRecorded(s.disk, kept);
    StopFirstRelabels(s, NO_FAULTS, nodes, request.now);
    var (s1, ok) := StopFirst(s, NO_FAULTS, nodes, request.now);
    ShrinksKeepsConsistent(s.disk, s1.disk);
    RelabelsKeepsRecordsOk(s.disk, s1.disk);
    RelabelsKeepsChecks(s.disk, s1.disk, resolved, selected, request);
    RelabelsKeepsPlaces(s.disk, s1.disk);
    StopIsExact(s, kept, request.now);
    SelectedStates(s.disk, resolved, selected);
    StoppableByName(s.disk, selected, nodes);
    SelectedStates(s1.disk, resolved, selected);
    EndedByName(s1.disk, selected, States(s1.disk, kept), request);
    PlanByName(s1.disk, resolved, selected, request);
  }

  /** Whatever happened before, a destroy that nothing disturbs succeeds if and only if the store is complete and agrees
      with the configuration, every persistent disk that a state still records is at its recorded path, and the
      selected nodes that still have a state can be stopped, are idle and have clean directories. */
  lemma DestroyIsExact(s: Sys, request: Request)
    requires Consistent(s.disk) && RecordsOk(s.disk) && Single(s.disk)
    ensures DestroySelected(s, NO_FAULTS, request).1 <==> Restartable(s.disk, request)
  {
    if s.disk.deployment.Some? && Selected(s.disk.deployment.value, request.selection).Some? {
      var resolved := s.disk.deployment.value;
      var selected := Selected(resolved, request.selection).value;
      AfterStopIsExact(s, resolved, selected, request);
      var (s1, ok) := StopFirst(s, NO_FAULTS, States(s.disk, Kept(Names(resolved.nodes), selected)), request.now);
      if ok && PlanDestroy(s1.disk, resolved, selected, request).Some? {
        PlannedIsDestroyed(s1, resolved, selected, request);
      }
    }
  }

  /** Every recorded persistent disk has its content at exactly one of its two places. */
  ghost predicate AllHeld(disk: Disk)
  {
    forall name, k: nat :: RecordsDisk(disk, name, k) ==>
      exists content :: AtOnePlace(disk, (name, ReadNode(disk, name).value.dataDisks[k].name), content)
  }

  lemma DestroyKeepsHeld(s: Sys, faults: Faults, request: Request)
    requires Consistent(s.disk) && RecordsOk(s.disk) && AllHeld(s.disk)
    ensures var after := DestroySelected(s, faults, request).0.disk; Consistent(after) && RecordsOk(after) && AllHeld(after)
  {
    var after := DestroySelected(s, faults, request).0.disk;
    DestroyKeepsConsistent(s, faults, request);
    DeploymentRuns.DestroyNoNewStates(s, faults, request);
    DeploymentRuns.NoNewStatesKeepsRecordsOk(s.disk, after);
    forall name, k: nat | RecordsDisk(after, name, k)
      ensures exists content :: AtOnePlace(after, (name, ReadNode(after, name).value.dataDisks[k].name), content)
    {
      assert RecordsDisk(s.disk, name, k);
      var key := (name, ReadNode(s.disk, name).value.dataDisks[k].name);
      var content :| AtOnePlace(s.disk, key, content);
      assert Held(s.disk, key, content);
      DestroyConservesDisks(s, faults, request, key, content);
    }
  }

  /** After a destroy that was cut short anywhere, or failed in any way, an undisturbed destroy succeeds if and only if
      the disk passes the checks; and a disk that its state records as node-local is in place if and only if it has not
      been moved to the store. */
  lemma RestartIsExact(s: Sys, faults: Faults, first: Request, again: Request)
    requires Consistent(s.disk) && RecordsOk(s.disk) && AllHeld(s.disk)
    ensures var s1 := DestroySelected(s, faults, first).0;
            && (DestroySelected(s1, NO_FAULTS, again).1 <==> Restartable(s1.disk, again))
            && forall name, k: nat :: RecordsDisk(s1.disk, name, k) ==>
                 var node, key := ReadNode(s1.disk, name).value, (name, ReadNode(s1.disk, name).value.dataDisks[k].name);
                 node.dataDisks[k].path == LocalPath(key) ==>
                   (AtRecordedPath(s1.disk, node, k) <==> StoredFile(s1.disk, key) == None)
  {
    var s1 := DestroySelected(s, faults, first).0;
    DestroyKeepsHeld(s, faults, first);
    assert Single(s1.disk);
    DestroyIsExact(s1, again);
  }
}
