/** Whole runs of the deployment, over operations in any order. */
module DeploymentRuns {
  import opened Wrappers
  import opened DeploymentStore
  import opened RetainedStore
  import opened Commit
  import opened Destroy
  import opened Rollback
  import opened HashInvariant
  import opened Conservation

  /** Every operation has its own faults. A crash during an operation is a fault that loses the rest of it, so the disk
      after every event is also the disk at every crash point. */
  datatype Event =
    | Prepare(node: Name, dir: NodeDir)
    | CommitEvent(config: Config, outcomes: seq<Outcome>, faults: Faults)
    | FinalizeEvent(node: Name, faults: Faults)
    | RollbackEvent(node: Name, runtime: set<string>, apply: bool, faults: Faults)
    | DestroyEvent(request: Request, faults: Faults)
    | Update(node: Name, phase: Phase, invocation: Invocation, now: nat, faults: Faults)

  /** Rewriting the phase and the invocation of a recorded node. */
  function UpdateNode(s: Sys, faults: Faults, node: Name, phase: Phase, invocation: Invocation, now: nat): (Sys, bool)
  {
    if ReadNode(s.disk, node).None? || ReadNode(s.disk, node).value.node != node then (s, false)
    else WriteNode(s, faults, ReadNode(s.disk, node).value.(phase := phase, invocation := invocation, updatedAt := now))
  }

  function Step(disk: Disk, event: Event): Disk
  {
    var s := Sys(disk, 0);
    match event
    case Prepare(node, dir) => SetDir(disk, node, dir)
    case CommitEvent(config, outcomes, faults) => CommitPrepared(s, faults, config, outcomes).0.disk
    case FinalizeEvent(node, faults) => Finalize(s, faults, node).0.disk
    case RollbackEvent(node, runtime, apply, faults) => RollbackPrepared(s, faults, runtime, node, apply).0.disk
    case DestroyEvent(request, faults) => DestroySelected(s, faults, request).0.disk
    case Update(node, phase, invocation, now, faults) => UpdateNode(s, faults, node, phase, invocation, now).0.disk
  }

  /** What a prepare hands to the commit: every declared data disk, node-local or persistent and in the store. */
  predicate ArtifactsOk(config: Config, artifacts: Artifacts)
  {
    && (var definition := Find(config.resolved.nodes, artifacts.name);
        definition.Some? ==>
          && |artifacts.data| == |definition.value.disks|
          && forall k :: 0 <= k < |artifacts.data| ==>
               artifacts.data[k].size == definition.value.disks[k].size && artifacts.data[k].mount == definition.value.disks[k].mount)
    && (artifacts.nvram.Some? ==> artifacts.nvram.value == InNode(artifacts.name, NvramImage))
    && (forall i, j :: 0 <= i < j < |artifacts.data| ==> artifacts.data[i].name != artifacts.data[j].name)
    && forall k :: 0 <= k < |artifacts.data| ==>
         var data := artifacts.data[k];
         var definition := Find(config.resolved.nodes, artifacts.name);
         && data.name != "root"
         && (data.path == LocalPath((artifacts.name, data.name))
             || (&& data.path == StorePath((artifacts.name, data.name)) && definition.Some?
                 && k < |definition.value.disks| && definition.value.disks[k].persistent))
  }

  ghost predicate OutcomesOk(config: Config, outcomes: seq<Outcome>)
  {
    forall i :: 0 <= i < |outcomes| && outcomes[i].artifacts.Some? ==> ArtifactsOk(config, outcomes[i].artifacts.value)
  }

  /** What the environment promises: a prepare works in the directory of a node without a state and makes no second
      copy of a retained disk, and a commit gets a validated configuration. */
  ghost predicate Legal(disk: Disk, event: Event)
  {
    match event
    case Prepare(node, dir) =>
      && ReadNode(disk, node).None? && dir.state == None
      && forall name: string :: name != "root" && DataBase(name) in dir.files ==> StoredFile(disk, (node, name)) == None
    case CommitEvent(config, outcomes, _) => UniqueNames(config.resolved.nodes) && OutcomesOk(config, outcomes)
    case _ => true
  }

  function Run(disk: Disk, events: seq<Event>): Disk
    decreases |events|
  {
    if events == [] then disk else Run(Step(disk, events[0]), events[1..])
  }

  ghost predicate LegalRun(disk: Disk, events: seq<Event>)
    decreases |events|
  {
    events == [] || (Legal(disk, events[0]) && LegalRun(Step(disk, events[0]), events[1..]))
  }

  const EMPTY_DISK := Disk(None, map[], {}, map[])

  // ---------------------------------------------------------------- states after an operation

  /** Every state after was recorded before, up to phase and time. */
  ghost predicate NoNewStates(before: Disk, after: Disk)
  {
    forall name :: ReadNode(after, name).Some? ==>
      ReadNode(before, name).Some? && SameRecord(ReadNode(before, name).value, ReadNode(after, name).value)
  }

  lemma NoNewStatesTransitive(first: Disk, second: Disk, third: Disk)
    requires NoNewStates(first, second) && NoNewStates(second, third)
    ensures NoNewStates(first, third)
  {
    forall name | ReadNode(third, name).Some?
      ensures ReadNode(first, name).Some? && SameRecord(ReadNode(first, name).value, ReadNode(third, name).value)
    {
      assert ReadNode(second, name).Some?;
    }
  }

  lemma SettlesNoNewStates(before: Disk, after: Disk)
    requires Settles(before, after)
    ensures NoNewStates(before, after)
  {
    forall name | ReadNode(after, name).Some?
      ensures ReadNode(before, name) == ReadNode(after, name)
    {
    }
  }

  lemma RelabelsNoNewStates(before: Disk, after: Disk)
    requires Relabels(before, after)
    ensures NoNewStates(before, after)
  {
  }

  lemma ConcludeNoNewStates(s: Sys, faults: Faults, resolved: Resolved, selected: seq<Name>, dropFromSpec: bool)
    ensures NoNewStates(s.disk, Conclude(s, faults, resolved, selected, dropFromSpec).0.disk)
  {
    var after := Conclude(s, faults, resolved, selected, dropFromSpec).0.disk;
    assert after.nodes == s.disk.nodes;
  }

  lemma ExecuteNoNewStates(s: Sys, faults: Faults, resolved: Resolved, selected: seq<Name>, nodes: seq<NodeState>, request: Request)
    requires Recorded(s.disk, nodes)
    requires forall i :: 0 <= i < |nodes| ==> NodeTargets(s.disk, nodes[i]).Some?
    ensures NoNewStates(s.disk, Execute(s, faults, resolved, selected, nodes, request).0.disk)
  {
    var (s1, marked) := Marked(s, faults, nodes, request);
    assert NoNewStates(s.disk, s1.disk) by {
      MarkAllRelabels(s, faults, nodes, Destroying, request.now);
      RelabelsNoNewStates(s.disk, s1.disk);
    }
    if marked {
      var (s2, destroyed) := DestroyEach(s1, faults, s.disk, nodes, Identities(resolved.nodes));
      assert NoNewStates(s1.disk, s2.disk) by {
        DestroyEachSettles(s1, faults, s.disk, nodes, Identities(resolved.nodes));
        SettlesNoNewStates(s1.disk, s2.disk);
      }
      NoNewStatesTransitive(s.disk, s1.disk, s2.disk);
      if destroyed {
        ConcludeNoNewStates(s2, faults, resolved, selected, request.dropFromSpec);
        NoNewStatesTransitive(s.disk, s2.disk, Conclude(s2, faults, resolved, selected, request.dropFromSpec).0.disk);
      }
    }
  }

  lemma DestroyNoNewStates(s: Sys, faults: Faults, request: Request)
    requires Consistent(s.disk)
    ensures NoNewStates(s.disk, DestroySelected(s, faults, request).0.disk)
  {
    if s.disk.deployment.Some? && Selected(s.disk.deployment.value, request.selection).Some? {
      var resolved := s.disk.deployment.value;
      var selected := Selected(resolved, request.selection).value;
      var kept := Kept(Names(resolved.nodes), selected);
      StatesAreRecorded(s.disk, kept);
      StopFirstRelabels(s, faults, States(s.disk, kept), request.now);
      var (s1, stopped) := StopFirst(s, faults, States(s.disk, kept), request.now);
      ShrinksKeepsConsistent(s.disk, s1.disk);
      if stopped && PlanDestroy(s1.disk, resolved, selected, request).Some? {
        var nodes := PlanDestroy(s1.disk, resolved, selected, request).value;
        StatesAreRecorded(s1.disk, kept);
        ExecuteNoNewStates(s1, faults, resolved, selected, nodes, request);
        NoNewStatesTransitive(s.disk, s1.disk, Execute(s1, faults, resolved, selected, nodes, request).0.disk);
      }
    }
  }

  lemma NoNewStatesKeepsRecordsOk(before: Disk, after: Disk)
    requires NoNewStates(before, after) && RecordsOk(before)
    ensures RecordsOk(after)
  {
  }

  // ---------------------------------------------------------------- commits

  lemma CommittedRecordOk(config: Config, artifacts: Artifacts, journal: Journal)
    requires ArtifactsOk(config, artifacts) && StateFor(config, artifacts, journal).Some?
    ensures RecordOk(StateFor(config, artifacts, journal).value)
  {
    var definition := Find(config.resolved.nodes, artifacts.name).value;
    var disks := DataDisks(definition, artifacts.data).value;
    forall k | 0 <= k < |disks|
      ensures disks[k].name == artifacts.data[k].name && disks[k].path == artifacts.data[k].path
      ensures disks[k].name == definition.disks[k].name && disks[k].size == definition.disks[k].size
      ensures disks[k].mount == definition.disks[k].mount && disks[k].persistent == definition.disks[k].persistent
      ensures disks[k].name != "root"
      ensures disks[k].path == LocalPath((artifacts.name, disks[k].name))
              || (disks[k].persistent && disks[k].path == StorePath((artifacts.name, disks[k].name)))
    {
      assert !Undeclared(definition, artifacts.data, k);
    }
  }

  /** Committing one node touches only its state and its journal, and only a state that was missing. */
  ghost predicate Commits(before: Disk, after: Disk)
  {
    && after.retained == before.retained && after.storeNodes == before.storeNodes
    && before.nodes.Keys <= after.nodes.Keys
    && (forall name :: name in after.nodes ==> after.nodes[name].files == DirOf(before, name).files)
    && forall name :: ReadNode(before, name).Some? ==> ReadNode(after, name) == ReadNode(before, name)
  }

  lemma CommitsTransitive(first: Disk, second: Disk, third: Disk)
    requires Commits(first, second) && Commits(second, third)
    ensures Commits(first, third)
  {
    forall name | name in third.nodes
      ensures third.nodes[name].files == DirOf(first, name).files
    {
      assert third.nodes[name].files == DirOf(second, name).files;
    }
    forall name | ReadNode(first, name).Some?
      ensures ReadNode(third, name) == ReadNode(first, name)
    {
      assert ReadNode(second, name) == ReadNode(first, name);
    }
  }

  lemma CommitShapeCommits(before: Disk, after: Disk, config: Config, artifacts: Artifacts)
    requires CommitShape(before, after, config, artifacts)
    ensures Commits(before, after)
  {
    forall name | name in after.nodes
      ensures after.nodes[name].files == DirOf(before, name).files
    {
    }
    forall name | ReadNode(before, name).Some?
      ensures ReadNode(after, name) == ReadNode(before, name)
    {
    }
  }

  lemma CommitShapeKeepsRecordsOk(before: Disk, after: Disk, config: Config, artifacts: Artifacts)
    requires CommitShape(before, after, config, artifacts) && ArtifactsOk(config, artifacts) && RecordsOk(before)
    ensures RecordsOk(after)
  {
    forall name | ReadNode(after, name).Some?
      ensures RecordOk(ReadNode(after, name).value)
    {
      if ReadNode(after, name) != ReadNode(before, name) {
        CommittedRecordOk(config, artifacts, ReadJournal(before, artifacts.name).value);
      }
    }
  }

  lemma CommitOneCommits(s: Sys, faults: Faults, config: Config, artifacts: Artifacts)
    requires ArtifactsOk(config, artifacts) && RecordsOk(s.disk)
    ensures var s1 := CommitOne(s, faults, config, artifacts).0; Commits(s.disk, s1.disk) && RecordsOk(s1.disk)
  {
    var after := CommitOne(s, faults, config, artifacts).0.disk;
    CommitOneShape(s, faults, config, artifacts);
    CommitShapeCommits(s.disk, after, config, artifacts);
    CommitShapeKeepsRecordsOk(s.disk, after, config, artifacts);
  }

  lemma {:induction false} CommitNodesCommits(s: Sys, faults: Faults, config: Config, outcomes: seq<Outcome>, done: CommitResult)
    requires OutcomesOk(config, outcomes) && RecordsOk(s.disk)
    ensures var s1 := CommitNodes(s, faults, config, outcomes, done).0; Commits(s.disk, s1.disk) && RecordsOk(s1.disk)
    decreases |outcomes|
  {
    if outcomes != [] {
      assert OutcomesOk(config, outcomes[1..]);
      match outcomes[0].artifacts
      case None =>
        CommitNodesCommits(s, faults, config, outcomes[1..], done.(failed := done.failed + [outcomes[0].node]));
      case Some(artifacts) =>
        CommitOneCommits(s, faults, config, artifacts);
        var (s1, state) := CommitOne(s, faults, config, artifacts);
        if state.Some? {
          var more := done.(nodes := done.nodes + [state.value]);
          CommitNodesCommits(s1, faults, config, outcomes[1..], more);
          CommitsTransitive(s.disk, s1.disk, CommitNodes(s1, faults, config, outcomes[1..], more).0.disk);
        }
    }
  }

  lemma CommitCommits(s: Sys, faults: Faults, config: Config, outcomes: seq<Outcome>)
    requires OutcomesOk(config, outcomes) && RecordsOk(s.disk)
    ensures var s1 := CommitPrepared(s, faults, config, outcomes).0; Commits(s.disk, s1.disk) && RecordsOk(s1.disk)
  {
    var (s1, ok) := EnsureDeployment(s, faults, config.resolved);
    assert s1.disk.nodes == s.disk.nodes;
    assert forall name :: ReadNode(s1.disk, name) == ReadNode(s.disk, name);
    assert Commits(s.disk, s1.disk);
    if ok {
      var start := CommitResult([], [], true);
      CommitNodesCommits(s1, faults, config, outcomes, start);
      CommitsTransitive(s.disk, s1.disk, CommitNodes(s1, faults, config, outcomes, start).0.disk);
    }
  }

  lemma CommitsKeepsHeld(before: Disk, after: Disk, key: Key, content: FileId)
    requires Commits(before, after) && Held(before, key, content)
    ensures Held(after, key, content)
  {
    assert LocalFile(after, key) == LocalFile(before, key);
  }

  // ---------------------------------------------------------------- one step

  lemma PrepareKeepsConsistent(disk: Disk, node: Name, dir: NodeDir)
    requires Consistent(disk) && RecordsOk(disk) && ReadNode(disk, node).None? && dir.state == None
    ensures Consistent(SetDir(disk, node, dir)) && RecordsOk(SetDir(disk, node, dir))
  {
    assert forall name :: ReadNode(SetDir(disk, node, dir), name) == ReadNode(disk, name);
  }

  lemma UpdateKeepsConsistent(s: Sys, faults: Faults, node: Name, phase: Phase, invocation: Invocation, now: nat)
    requires Consistent(s.disk) && RecordsOk(s.disk)
    ensures var after := UpdateNode(s, faults, node, phase, invocation, now).0.disk; Consistent(after) && RecordsOk(after)
  {
    var after := UpdateNode(s, faults, node, phase, invocation, now).0.disk;
    assert forall name :: name != node ==> ReadNode(after, name) == ReadNode(s.disk, name);
  }

  lemma ShrinksKeepsRecordsOk(before: Disk, after: Disk)
    requires Shrinks(before, after) && RecordsOk(before)
    ensures RecordsOk(after)
  {
  }

  lemma StepKeepsConsistent(disk: Disk, event: Event)
    requires Consistent(disk) && RecordsOk(disk) && Legal(disk, event)
    ensures Consistent(Step(disk, event)) && RecordsOk(Step(disk, event))
  {
    var s := Sys(disk, 0);
    var after := Step(disk, event);
    match event
    case Prepare(node, dir) =>
      PrepareKeepsConsistent(disk, node, dir);
    case CommitEvent(config, outcomes, faults) =>
      CommitKeepsConsistent(s, faults, config, outcomes);
      CommitCommits(s, faults, config, outcomes);
    case FinalizeEvent(node, faults) =>
      FinalizeShrinks(s, faults, node);
      ShrinksKeepsConsistent(disk, after);
      ShrinksKeepsRecordsOk(disk, after);
    case RollbackEvent(node, runtime, apply, faults) =>
      RollbackShrinks(s, faults, node, runtime, apply);
      ShrinksKeepsConsistent(disk, after);
      ShrinksKeepsRecordsOk(disk, after);
    case DestroyEvent(request, faults) =>
      DestroyKeepsConsistent(s, faults, request);
      DestroyNoNewStates(s, faults, request);
      NoNewStatesKeepsRecordsOk(disk, after);
    case Update(node, phase, invocation, now, faults) =>
      UpdateKeepsConsistent(s, faults, node, phase, invocation, now);
  }

  lemma OnlyDirectoryShrinks(before: Disk, after: Disk, node: Name)
    requires OnlyDirectory(before, after, node)
    ensures Shrinks(before, after)
  {
    assert forall name :: ReadNode(after, name) == ReadNode(before, name);
  }

  lemma RollbackShrinks(s: Sys, faults: Faults, node: Name, runtime: set<string>, apply: bool)
    ensures Shrinks(s.disk, RollbackPrepared(s, faults, runtime, node, apply).0.disk)
  {
    if apply {
      RollbackChecksFirst(s, faults, runtime, node);
      OnlyDirectoryShrinks(s.disk, RollbackPrepared(s, faults, runtime, node, apply).0.disk, node);
    } else {
      DryRunChangesNothing(s, faults, runtime, node);
    }
  }

  lemma PrepareKeepsHeld(disk: Disk, node: Name, dir: NodeDir, key: Key, content: FileId)
    requires Legal(disk, Prepare(node, dir)) && Held(disk, key, content) && key.1 != "root"
    ensures Held(SetDir(disk, node, dir), key, content)
  {
    var after := SetDir(disk, node, dir);
    assert StoredFile(after, key) == StoredFile(disk, key);
    if key.0 == node {
      assert LocalFile(disk, key) == None;
      assert StoredFile(disk, (node, key.1)).Some?;
      assert DataBase(key.1) !in dir.files;
    } else {
      assert LocalFile(after, key) == LocalFile(disk, key);
    }
  }

  lemma OnlyDirectoryKeepsHeld(before: Disk, after: Disk, node: Name, key: Key, content: FileId)
    requires OnlyDirectory(before, after, node) && ReadNode(before, node).None? && Held(before, key, content)
    ensures Held(after, key, content)
  {
    assert StoredFile(after, key) == StoredFile(before, key);
    if key.0 == node {
      assert LocalFile(before, key) == None && LocalFile(after, key) == None;
    } else {
      assert LocalFile(after, key) == LocalFile(before, key) && ReadNode(after, key.0) == ReadNode(before, key.0);
    }
  }

  lemma RollbackKeepsHeld(s: Sys, faults: Faults, node: Name, runtime: set<string>, apply: bool, key: Key, content: FileId)
    requires Held(s.disk, key, content)
    ensures Held(RollbackPrepared(s, faults, runtime, node, apply).0.disk, key, content)
  {
    if ReadNode(s.disk, node).Some? {
      CommittedNodesAreSafe(s, faults, runtime, node, apply);
    } else if apply {
      RollbackChecksFirst(s, faults, runtime, node);
      OnlyDirectoryKeepsHeld(s.disk, RollbackPrepared(s, faults, runtime, node, apply).0.disk, node, key, content);
    } else {
      DryRunChangesNothing(s, faults, runtime, node);
    }
  }

  lemma FinalizeKeepsHeld(s: Sys, faults: Faults, node: Name, key: Key, content: FileId)
    requires Held(s.disk, key, content)
    ensures Held(Finalize(s, faults, node).0.disk, key, content)
  {
    var after := Finalize(s, faults, node).0.disk;
    assert LocalFile(after, key) == LocalFile(s.disk, key) && ReadNode(after, key.0) == ReadNode(s.disk, key.0);
  }

  lemma UpdateKeepsHeld(s: Sys, faults: Faults, node: Name, phase: Phase, invocation: Invocation, now: nat, key: Key, content: FileId)
    requires Held(s.disk, key, content)
    ensures Held(UpdateNode(s, faults, node, phase, invocation, now).0.disk, key, content)
  {
    var after := UpdateNode(s, faults, node, phase, invocation, now).0.disk;
    assert LocalFile(after, key) == LocalFile(s.disk, key);
  }

  lemma CommitKeepsHeld(s: Sys, faults: Faults, config: Config, outcomes: seq<Outcome>, key: Key, content: FileId)
    requires OutcomesOk(config, outcomes) && RecordsOk(s.disk) && Held(s.disk, key, content)
    ensures Held(CommitPrepared(s, faults, config, outcomes).0.disk, key, content)
  {
    CommitCommits(s, faults, config, outcomes);
    CommitsKeepsHeld(s.disk, CommitPrepared(s, faults, config, outcomes).0.disk, key, content);
  }

  lemma StepKeepsHeld(disk: Disk, event: Event, key: Key, content: FileId)
    requires Consistent(disk) && RecordsOk(disk) && Legal(disk, event)
    requires Held(disk, key, content) && key.1 != "root"
    ensures Held(Step(disk, event), key, content)
  {
    var s := Sys(disk, 0);
    match event
    case Prepare(node, dir) => PrepareKeepsHeld(disk, node, dir, key, content);
    case CommitEvent(config, outcomes, faults) => CommitKeepsHeld(s, faults, config, outcomes, key, content);
    case FinalizeEvent(node, faults) => FinalizeKeepsHeld(s, faults, node, key, content);
    case RollbackEvent(node, runtime, apply, faults) => RollbackKeepsHeld(s, faults, node, runtime, apply, key, content);
    case DestroyEvent(request, faults) => DestroyConservesDisks(s, faults, request, key, content);
    case Update(node, phase, invocation, now, faults) => UpdateKeepsHeld(s, faults, node, phase, invocation, now, key, content);
  }

  /** As soon as a commit has written a node's state, whatever else fails, its persistent disks are in the guarantee. */
  lemma CommittedDisksAreHeld(s: Sys, faults: Faults, config: Config, artifacts: Artifacts, k: nat, content: FileId)
    requires ReadNode(s.disk, artifacts.name).None? && ReadNode(CommitOne(s, faults, config, artifacts).0.disk, artifacts.name).Some?
    requires var state := ReadNode(CommitOne(s, faults, config, artifacts).0.disk, artifacts.name).value;
             k < |state.dataDisks| && state.dataDisks[k].persistent && AtOnePlace(s.disk, (artifacts.name, state.dataDisks[k].name), content)
    ensures var s1 := CommitOne(s, faults, config, artifacts).0;
            Held(s1.disk, (artifacts.name, ReadNode(s1.disk, artifacts.name).value.dataDisks[k].name), content)
  {
    var s1 := CommitOne(s, faults, config, artifacts).0;
    var key := (artifacts.name, ReadNode(s1.disk, artifacts.name).value.dataDisks[k].name);
    CommitOneShape(s, faults, config, artifacts);
    assert LocalFile(s1.disk, key) == LocalFile(s.disk, key) && StoredFile(s1.disk, key) == StoredFile(s.disk, key);
  }

  // ---------------------------------------------------------------- whole runs

  lemma {:induction false} RunsKeepConsistent(disk: Disk, events: seq<Event>)
    requires Consistent(disk) && RecordsOk(disk) && LegalRun(disk, events)
    ensures Consistent(Run(disk, events)) && RecordsOk(Run(disk, events))
    decreases |events|
  {
    if events != [] {
      StepKeepsConsistent(disk, events[0]);
      RunsKeepConsistent(Step(disk, events[0]), events[1..]);
    }
  }

  /** At every point of every run from an empty deployment, each node with a state is listed in the deployment
      state, and its hash is the hash of that listed definition. */
  lemma StatesMatchDeployment(events: seq<Event>, name: Name)
    requires LegalRun(EMPTY_DISK, events)
    requires ReadNode(Run(EMPTY_DISK, events), name).Some?
    ensures var disk := Run(EMPTY_DISK, events);
            && disk.deployment.Some?
            && (exists i :: 0 <= i < |disk.deployment.value.nodes| && disk.deployment.value.nodes[i].name == name)
            && HashOf(disk.deployment.value, name) == Some(ReadNode(disk, name).value.specHash)
  {
    RunsKeepConsistent(EMPTY_DISK, events);
    var i := FoundIsListed(Run(EMPTY_DISK, events).deployment.value.nodes, name);
  }

  /** Once a persistent disk is held it is held at every later point of every run: its content stays at exactly one
      of its node-local path and its retained path. */
  lemma {:induction false} DisksAreNeverLost(disk: Disk, events: seq<Event>, key: Key, content: FileId)
    requires Consistent(disk) && RecordsOk(disk) && LegalRun(disk, events)
    requires Held(disk, key, content) && key.1 != "root"
    ensures Held(Run(disk, events), key, content)
    decreases |events|
  {
    if events != [] {
      StepKeepsConsistent(disk, events[0]);
      StepKeepsHeld(disk, events[0], key, content);
      DisksAreNeverLost(Step(disk, events[0]), events[1..], key, content);
    }
  }
}
