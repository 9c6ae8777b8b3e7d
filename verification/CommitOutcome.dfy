/** What a commit records, in terms of the plan, the artifacts and the journals that it was given. */
module CommitOutcome {
  import opened Wrappers
  import opened DeploymentStore
  import opened Commit
  import opened HashInvariant
  import opened CommitLaws

  /** The artifacts are the first data disks of the node, in order. */
  predicate SameDisks(definition: NodeDef, data: seq<DataArtifact>)
  {
    |data| <= |definition.disks| && forall k :: 0 <= k < |data| ==> definition.disks[k].name == data[k].name
  }

  /** The journal is that of a finished prepare of exactly this node, plan and invocation. */
  predicate Prepares(config: Config, definition: NodeDef, artifacts: Artifacts, journal: Journal)
  {
    && journal.prepared && journal.node == artifacts.name && definition.name == artifacts.name
    && artifacts.name in config.uuids && journal.uuid == config.uuids[artifacts.name]
    && journal.specHash == NodeHash(config.resolved.envelope, definition) && journal.invocation == artifacts.invocation
    && SameDisks(definition, artifacts.data)
  }

  /** One recorded disk per artifact, in order, persistent as declared. */
  predicate RecordsDisks(definition: NodeDef, data: seq<DataArtifact>, disks: seq<DataDisk>)
  {
    && |disks| == |data| <= |definition.disks|
    && forall k :: 0 <= k < |data| ==>
         && disks[k].name == data[k].name && disks[k].path == data[k].path
         && disks[k].size == data[k].size && disks[k].mount == data[k].mount
         && disks[k].persistent == definition.disks[k].persistent
  }

  /** The state is that of a node which was prepared and never started. */
  predicate RecordsPrepare(config: Config, definition: NodeDef, artifacts: Artifacts, journal: Journal, state: NodeState)
  {
    && state.phase == Prepared && state.node == artifacts.name
    && artifacts.name in config.uuids && state.uuid == config.uuids[artifacts.name]
    && state.specHash == NodeHash(config.resolved.envelope, definition)
    && state.rootDisk == InNode(artifacts.name, RootImage) && state.seed == InNode(artifacts.name, SeedImage)
    && state.nvram == artifacts.nvram && state.invocation == artifacts.invocation
    && state.createdAt == journal.startedAt && state.updatedAt == config.now
    && RecordsDisks(definition, artifacts.data, state.dataDisks)
  }

  /** What the disk said about the node before, when its state could be committed. */
  ghost predicate Grounds(disk: Disk, config: Config, artifacts: Artifacts, d: nat, state: NodeState)
  {
    && d < |config.resolved.nodes| && ReadJournal(disk, artifacts.name).Some?
    && Prepares(config, config.resolved.nodes[d], artifacts, ReadJournal(disk, artifacts.name).value)
    && RecordsPrepare(config, config.resolved.nodes[d], artifacts, ReadJournal(disk, artifacts.name).value, state)
  }

  ghost predicate Grounded(disk: Disk, config: Config, artifacts: Artifacts, state: NodeState)
  {
    exists d: nat :: Grounds(disk, config, artifacts, d, state)
  }

  lemma DataDisksMatch(definition: NodeDef, data: seq<DataArtifact>)
    ensures DataDisks(definition, data).Some? <==> SameDisks(definition, data)
    ensures DataDisks(definition, data).Some? ==> RecordsDisks(definition, data, DataDisks(definition, data).value)
  {
    if SameDisks(definition, data) {
      forall k | 0 <= k < |data|
        ensures !Undeclared(definition, data, k)
      {
        assert definition.disks[k].name == data[k].name;
      }
    } else {
      if |data| > |definition.disks| {
        assert Undeclared(definition, data, |definition.disks|);
      } else {
        var k :| 0 <= k < |data| && definition.disks[k].name != data[k].name;
        assert Undeclared(definition, data, k);
      }
    }
  }

  /** The wanted state is there exactly when the journal prepares the node, and then records just that. */
  lemma WantedIsGrounded(disk: Disk, config: Config, artifacts: Artifacts)
    requires UniqueNames(config.resolved.nodes) && ReadJournal(disk, artifacts.name).Some?
    ensures var journal := ReadJournal(disk, artifacts.name).value;
            var wanted := StateFor(config, artifacts, journal);
            && (wanted.Some? ==> Grounded(disk, config, artifacts, wanted.value))
            && (wanted.Some? <==> exists d :: 0 <= d < |config.resolved.nodes| && Prepares(config, config.resolved.nodes[d], artifacts, journal))
  {
    var journal := ReadJournal(disk, artifacts.name).value;
    var wanted := StateFor(config, artifacts, journal);
    if wanted.Some? {
      var d := FoundIsListed(config.resolved.nodes, artifacts.name);
      DataDisksMatch(config.resolved.nodes[d], artifacts.data);
      assert Prepares(config, config.resolved.nodes[d], artifacts, journal);
      assert Grounds(disk, config, artifacts, d, wanted.value);
    }
    if d :| 0 <= d < |config.resolved.nodes| && Prepares(config, config.resolved.nodes[d], artifacts, journal) {
      FoundByName(config.resolved.nodes, d);
      DataDisksMatch(config.resolved.nodes[d], artifacts.data);
    }
  }

  // ---------------------------------------------------------------- the states that appear

  /** Some outcome accounts for the state. */
  ghost predicate Accounted(disk: Disk, config: Config, outcomes: seq<Outcome>, name: Name, state: NodeState)
  {
    exists i :: 0 <= i < |outcomes| && outcomes[i].artifacts.Some? && outcomes[i].artifacts.value.name == name
                && Grounded(disk, config, outcomes[i].artifacts.value, state)
  }

  ghost predicate AllAccounted(disk: Disk, config: Config, outcomes: seq<Outcome>, states: seq<NodeState>)
  {
    forall j :: 0 <= j < |states| ==> Accounted(disk, config, outcomes, states[j].node, states[j])
  }

  /** The node's journal is the one from before, or that one marked as committed now. */
  predicate JournalKept(before: Disk, now: Disk, config: Config, name: Name)
  {
    var first, second := ReadJournal(before, name), ReadJournal(now, name);
    second == first
    || (&& first.Some?
        && second == Some(first.value.(committed := true, statePath := Some(InNode(name, StateFile)), updatedAt := config.now)))
  }

  /** Since before, journals are kept and every new state is accounted for. */
  ghost predicate Progress(before: Disk, now: Disk, config: Config, outcomes: seq<Outcome>)
  {
    && (forall name :: JournalKept(before, now, config, name))
    && forall name :: ReadNode(before, name).None? && ReadNode(now, name).Some? ==>
         Accounted(before, config, outcomes, name, ReadNode(now, name).value)
  }

  lemma GroundedBefore(before: Disk, now: Disk, config: Config, artifacts: Artifacts, state: NodeState)
    requires JournalKept(before, now, config, artifacts.name) && Grounded(now, config, artifacts, state)
    ensures Grounded(before, config, artifacts, state)
  {
    var d: nat :| Grounds(now, config, artifacts, d, state);
    assert Grounds(before, config, artifacts, d, state);
  }

  lemma ShapeKeepsJournals(before: Disk, now: Disk, after: Disk, config: Config, artifacts: Artifacts)
    requires CommitShape(now, after, config, artifacts) && forall name :: JournalKept(before, now, config, name)
    ensures forall name :: JournalKept(before, after, config, name)
  {
    forall name
      ensures JournalKept(before, after, config, name)
    {
      assert JournalKept(before, now, config, name) && JournalKept(now, after, config, name);
    }
  }

  lemma ShapeStates(now: Disk, after: Disk, config: Config, artifacts: Artifacts)
    requires CommitShape(now, after, config, artifacts)
    ensures forall other :: other != artifacts.name ==> ReadNode(after, other) == ReadNode(now, other)
    ensures ReadNode(after, artifacts.name) != ReadNode(now, artifacts.name) ==>
              && ReadJournal(now, artifacts.name).Some?
              && ReadNode(after, artifacts.name) == StateFor(config, artifacts, ReadJournal(now, artifacts.name).value)
  {
  }

  lemma ShapeKeepsProgress(before: Disk, now: Disk, after: Disk, config: Config, outcomes: seq<Outcome>, i: nat)
    requires UniqueNames(config.resolved.nodes) && Progress(before, now, config, outcomes)
    requires i < |outcomes| && outcomes[i].artifacts.Some? && CommitShape(now, after, config, outcomes[i].artifacts.value)
    ensures Progress(before, after, config, outcomes)
  {
    var artifacts := outcomes[i].artifacts.value;
    ShapeKeepsJournals(before, now, after, config, artifacts);
    ShapeStates(now, after, config, artifacts);
    if ReadNode(after, artifacts.name) != ReadNode(now, artifacts.name) && ReadNode(after, artifacts.name).Some? {
      WantedIsGrounded(now, config, artifacts);
      GroundedBefore(before, now, config, artifacts, ReadNode(after, artifacts.name).value);
    }
  }

  /** The state that committing one node returns records its prepare. */
  lemma ReturnedIsAccounted(before: Disk, s: Sys, faults: Faults, config: Config, outcomes: seq<Outcome>, i: nat)
    requires UniqueNames(config.resolved.nodes) && Progress(before, s.disk, config, outcomes)
    requires i < |outcomes| && outcomes[i].artifacts.Some?
    ensures var state := CommitOne(s, faults, config, outcomes[i].artifacts.value).1;
            state.Some? ==> Accounted(before, config, outcomes, state.value.node, state.value)
  {
    var artifacts := outcomes[i].artifacts.value;
    var state := CommitOne(s, faults, config, artifacts).1;
    if state.Some? {
      WantedIsGrounded(s.disk, config, artifacts);
      assert JournalKept(before, s.disk, config, artifacts.name);
      GroundedBefore(before, s.disk, config, artifacts, state.value);
    }
  }

  lemma {:induction false} CommitNodesProgress(before: Disk, s: Sys, faults: Faults, config: Config, outcomes: seq<Outcome>, n: nat, done: CommitResult)
    requires UniqueNames(config.resolved.nodes) && n <= |outcomes| && Progress(before, s.disk, config, outcomes)
    requires AllAccounted(before, config, outcomes, done.nodes)
    ensures var (s1, result) := CommitNodes(s, faults, config, outcomes[n..], done);
            Progress(before, s1.disk, config, outcomes) && AllAccounted(before, config, outcomes, result.nodes)
    decreases |outcomes| - n
  {
    if n < |outcomes| {
      var rest := outcomes[n..];
      assert rest[0] == outcomes[n] && rest[1..] == outcomes[n + 1..];
      match outcomes[n].artifacts
      case None =>
        CommitNodesProgress(before, s, faults, config, outcomes, n + 1, done.(failed := done.failed + [outcomes[n].node]));
      case Some(artifacts) =>
        CommitOneShape(s, faults, config, artifacts);
        var (s1, state) := CommitOne(s, faults, config, artifacts);
        ShapeKeepsProgress(before, s.disk, s1.disk, config, outcomes, n);
        ReturnedIsAccounted(before, s, faults, config, outcomes, n);
        if state.Some? {
          CommitNodesProgress(before, s1, faults, config, outcomes, n + 1, done.(nodes := done.nodes + [state.value]));
        }
    }
  }

  /** Whatever fails and wherever a commit stops: every state that was not there before, and every state that it
      returns, belongs to an outcome with artifacts, whose journal on disk was that of a finished prepare of this node
      under this plan, and records just that: a prepared node with the planned identity, the artifacts' paths, invocation
      and NVRAM, created when the prepare began. Every journal is as it was, or marked as committed now. */
  lemma NewStatesAreAccounted(s: Sys, faults: Faults, config: Config, outcomes: seq<Outcome>)
    requires UniqueNames(config.resolved.nodes)
    ensures var (after, result) := CommitPrepared(s, faults, config, outcomes);
            && (forall name :: ReadNode(s.disk, name).None? && ReadNode(after.disk, name).Some? ==>
                  Accounted(s.disk, config, outcomes, name, ReadNode(after.disk, name).value))
            && AllAccounted(s.disk, config, outcomes, result.nodes)
            && (forall name :: JournalKept(s.disk, after.disk, config, name))
  {
    var (s1, ok) := EnsureDeployment(s, faults, config.resolved);
    assert s1.disk.nodes == s.disk.nodes;
    assert forall other :: ReadNode(s1.disk, other) == ReadNode(s.disk, other);
    assert Progress(s.disk, s1.disk, config, outcomes);
    if ok {
      assert outcomes[0..] == outcomes;
      CommitNodesProgress(s.disk, s1, faults, config, outcomes, 0, CommitResult([], [], true));
    }
  }

  // ---------------------------------------------------------------- the result

  function CommittedNames(outcomes: seq<Outcome>): seq<Name>
  {
    if outcomes == [] then []
    else (if outcomes[0].artifacts.Some? then [outcomes[0].artifacts.value.name] else []) + CommittedNames(outcomes[1..])
  }

  function FailedNames(outcomes: seq<Outcome>): seq<Name>
  {
    if outcomes == [] then []
    else (if outcomes[0].artifacts.None? then [outcomes[0].node] else []) + FailedNames(outcomes[1..])
  }

  function StateNames(nodes: seq<NodeState>): seq<Name>
  {
    seq(|nodes|, i requires 0 <= i < |nodes| => nodes[i].node)
  }

  lemma CommittedHasName(s: Sys, faults: Faults, config: Config, artifacts: Artifacts)
    ensures var (s1, state) := CommitOne(s, faults, config, artifacts);
            state.Some? ==>
              && state.value.node == artifacts.name && ReadNode(s1.disk, artifacts.name).Some?
              && SameNode(ReadNode(s1.disk, artifacts.name).value, state.value)
  {
  }

  /** The result continues done by the names of the outcomes, or of some first ones when it is not ok. */
  predicate Follows(result: CommitResult, nodes: seq<Name>, failed: seq<Name>, outcomes: seq<Outcome>)
  {
    && StateNames(result.nodes) <= nodes + CommittedNames(outcomes) && result.failed <= failed + FailedNames(outcomes)
    && (result.ok ==> StateNames(result.nodes) == nodes + CommittedNames(outcomes) && result.failed == failed + FailedNames(outcomes))
  }

  lemma FollowsOneMore(result: CommitResult, nodes: seq<Name>, failed: seq<Name>, first: Outcome, rest: seq<Outcome>)
    requires first.artifacts.None? ==> Follows(result, nodes, failed + [first.node], rest)
    requires first.artifacts.Some? ==> Follows(result, nodes + [first.artifacts.value.name], failed, rest)
    ensures Follows(result, nodes, failed, [first] + rest)
  {
    var outcomes := [first] + rest;
    assert outcomes[1..] == rest;
    if first.artifacts.None? {
      assert CommittedNames(outcomes) == [] + CommittedNames(rest) == CommittedNames(rest);
      assert failed + [first.node] + FailedNames(rest) == failed + FailedNames(outcomes);
    } else {
      assert FailedNames(outcomes) == [] + FailedNames(rest) == FailedNames(rest);
      assert nodes + [first.artifacts.value.name] + CommittedNames(rest) == nodes + CommittedNames(outcomes);
    }
  }

  lemma {:induction false} ResultFollowsOutcomes(s: Sys, faults: Faults, config: Config, outcomes: seq<Outcome>, done: CommitResult)
    ensures Follows(CommitNodes(s, faults, config, outcomes, done).1, StateNames(done.nodes), done.failed, outcomes)
    decreases |outcomes|
  {
    if outcomes == [] {
      assert StateNames(done.nodes) + [] == StateNames(done.nodes) && done.failed + [] == done.failed;
    } else {
      var first, rest := outcomes[0], outcomes[1..];
      assert outcomes == [first] + rest;
      var result := CommitNodes(s, faults, config, outcomes, done).1;
      match first.artifacts
      case None =>
        ResultFollowsOutcomes(s, faults, config, rest, done.(failed := done.failed + [first.node]));
        FollowsOneMore(result, StateNames(done.nodes), done.failed, first, rest);
      case Some(artifacts) =>
        var (s1, state) := CommitOne(s, faults, config, artifacts);
        if state.Some? {
          CommittedHasName(s, faults, config, artifacts);
          ResultFollowsOutcomes(s1, faults, config, rest, done.(nodes := done.nodes + [state.value]));
          assert StateNames(done.nodes + [state.value]) == StateNames(done.nodes) + [artifacts.name];
          FollowsOneMore(result, StateNames(done.nodes), done.failed, first, rest);
        }
    }
  }

  /** The result names exactly the outcomes with artifacts as committed and exactly those without as failed, in order; a
      commit that stops early names a part of them, from the start. */
  lemma ResultIsExact(s: Sys, faults: Faults, config: Config, outcomes: seq<Outcome>)
    ensures var result := CommitPrepared(s, faults, config, outcomes).1;
            && StateNames(result.nodes) <= CommittedNames(outcomes) && result.failed <= FailedNames(outcomes)
            && (result.ok ==> StateNames(result.nodes) == CommittedNames(outcomes) && result.failed == FailedNames(outcomes))
  {
    var (s1, ok) := EnsureDeployment(s, faults, config.resolved);
    var start := CommitResult([], [], true);
    ResultFollowsOutcomes(s1, faults, config, outcomes, start);
    assert StateNames([]) + CommittedNames(outcomes) == CommittedNames(outcomes) && [] + FailedNames(outcomes) == FailedNames(outcomes);
  }

  // ---------------------------------------------------------------- when a commit succeeds

  /** The desired configuration keeps every listed name, and the definition of every name with a state. */
  ghost predicate Extends(disk: Disk, existing: Resolved, desired: Resolved)
  {
    && existing.envelope == desired.envelope
    && forall name :: Find(existing.nodes, name).Some? ==>
         && Find(desired.nodes, name).Some?
         && (ReadNode(disk, name).Some? ==> Find(desired.nodes, name) == Find(existing.nodes, name))
  }

  lemma AdditiveExtends(disk: Disk, existing: Resolved, desired: Resolved)
    requires UniqueNames(existing.nodes) && UniqueNames(desired.nodes)
    ensures AdditiveChange(disk, existing, desired) <==> Extends(disk, existing, desired)
  {
    if AdditiveChange(disk, existing, desired) {
      forall name | Find(existing.nodes, name).Some?
        ensures Find(desired.nodes, name).Some?
        ensures ReadNode(disk, name).Some? ==> Find(desired.nodes, name) == Find(existing.nodes, name)
      {
        var i := FoundIsListed(existing.nodes, name);
        assert Listed(desired.nodes, existing.nodes[i].name);
        var j :| 0 <= j < |desired.nodes| && desired.nodes[j].name == name;
        FoundByName(desired.nodes, j);
      }
    }
    if Extends(disk, existing, desired) {
      forall i | 0 <= i < |existing.nodes|
        ensures Find(existing.nodes, existing.nodes[i].name) == Some(existing.nodes[i])
        ensures Listed(desired.nodes, existing.nodes[i].name)
      {
        FoundByName(existing.nodes, i);
        var j := FoundIsListed(desired.nodes, existing.nodes[i].name);
      }
      forall j | 0 <= j < |desired.nodes|
        ensures Find(desired.nodes, desired.nodes[j].name) == Some(desired.nodes[j])
      {
        FoundByName(desired.nodes, j);
      }
    }
  }

  /** The recorded state, if there is one, is that of the node that the journal prepared. */
  predicate RecordedAs(state: Option<NodeState>, journal: Journal)
  {
    state.Some? ==>
      state.value.uuid == journal.uuid && state.value.specHash == journal.specHash && state.value.invocation == journal.invocation
  }

  /** A prepare of this node under this plan has finished, not in the future, and no other one is recorded. */
  ghost predicate Committable(disk: Disk, config: Config, artifacts: Artifacts)
  {
    && ReadJournal(disk, artifacts.name).Some?
    && var journal := ReadJournal(disk, artifacts.name).value;
    && journal.startedAt <= config.now && RecordedAs(ReadNode(disk, artifacts.name), journal)
    && exists d :: 0 <= d < |config.resolved.nodes| && Prepares(config, config.resolved.nodes[d], artifacts, journal)
  }

  lemma CleanOneIsCommittable(disk: Disk, config: Config, artifacts: Artifacts)
    requires UniqueNames(config.resolved.nodes)
    ensures CleanOne(disk, config, artifacts).1 <==> Committable(disk, config, artifacts)
  {
    if ReadJournal(disk, artifacts.name).Some? {
      WantedIsGrounded(disk, config, artifacts);
    }
  }

  lemma CommittableKept(disk: Disk, next: Disk, config: Config, artifacts: Artifacts, other: Artifacts)
    requires CleanOne(disk, config, artifacts) == (next, true)
    ensures Committable(next, config, other) <==> Committable(disk, config, other)
  {
    if other.name == artifacts.name {
      var journal, marked := ReadJournal(disk, other.name).value, ReadJournal(next, other.name).value;
      assert marked == CommittedJournal(journal, other.name, config.now);
      assert RecordedAs(ReadNode(next, other.name), marked) && RecordedAs(ReadNode(disk, other.name), journal);
      assert forall definition :: Prepares(config, definition, other, marked) <==> Prepares(config, definition, other, journal);
    } else {
      assert ReadJournal(next, other.name) == ReadJournal(disk, other.name) && ReadNode(next, other.name) == ReadNode(disk, other.name);
    }
  }

  ghost predicate AllCommittable(disk: Disk, config: Config, outcomes: seq<Outcome>)
  {
    forall i :: 0 <= i < |outcomes| && outcomes[i].artifacts.Some? ==> Committable(disk, config, outcomes[i].artifacts.value)
  }

  lemma AllCommittableFrom(disk: Disk, config: Config, first: Outcome, rest: seq<Outcome>)
    ensures AllCommittable(disk, config, [first] + rest) <==>
              (first.artifacts.Some? ==> Committable(disk, config, first.artifacts.value)) && AllCommittable(disk, config, rest)
  {
    var outcomes := [first] + rest;
    assert outcomes[0] == first && forall i :: 0 <= i < |rest| ==> outcomes[i + 1] == rest[i];
  }

  lemma {:induction false} CleanNodesAreCommittable(disk: Disk, config: Config, outcomes: seq<Outcome>)
    requires UniqueNames(config.resolved.nodes)
    ensures CleanNodes(disk, config, outcomes).1 <==> AllCommittable(disk, config, outcomes)
    decreases |outcomes|
  {
    if outcomes != [] {
      var first, rest := outcomes[0], outcomes[1..];
      assert outcomes == [first] + rest;
      AllCommittableFrom(disk, config, first, rest);
      match first.artifacts
      case None =>
        CleanNodesAreCommittable(disk, config, rest);
      case Some(artifacts) =>
        CleanOneIsCommittable(disk, config, artifacts);
        var (next, ok) := CleanOne(disk, config, artifacts);
        if ok {
          CleanNodesAreCommittable(next, config, rest);
          forall other
            ensures Committable(next, config, other) <==> Committable(disk, config, other)
          {
            CommittableKept(disk, next, config, artifacts, other);
          }
        }
    }
  }

  /** A commit that nothing disturbs succeeds if and only if there is no deployment yet or the configuration extends it,
      and every outcome with artifacts is that of a finished prepare which no other record contradicts. */
  lemma CommitSucceeds(s: Sys, config: Config, outcomes: seq<Outcome>)
    requires UniqueNames(config.resolved.nodes)
    requires s.disk.deployment.Some? ==> UniqueNames(s.disk.deployment.value.nodes)
    ensures CommitPrepared(s, NO_FAULTS, config, outcomes).1.ok <==>
              && (s.disk.deployment.Some? ==> Extends(s.disk, s.disk.deployment.value, config.resolved))
              && AllCommittable(s.disk, config, outcomes)
  {
    var (s1, ok) := EnsureDeployment(s, NO_FAULTS, config.resolved);
    if s.disk.deployment.Some? {
      AdditiveExtends(s.disk, s.disk.deployment.value, config.resolved);
    }
    if ok {
      CleanNodesIsCommit(s1, config, outcomes, CommitResult([], [], true));
      CleanNodesAreCommittable(s1.disk, config, outcomes);
      forall artifacts
        ensures Committable(s1.disk, config, artifacts) <==> Committable(s.disk, config, artifacts)
      {
      }
    }
  }

  // ---------------------------------------------------------------- finalizing

  /** The node's journal is marked as committed, and its state records what the journal prepared. */
  predicate Finalizable(disk: Disk, name: Name)
  {
    && ReadJournal(disk, name).Some? && ReadJournal(disk, name).value.committed
    && ReadNode(disk, name).Some? && RecordedAs(ReadNode(disk, name), ReadJournal(disk, name).value)
  }

  function WithoutJournal(disk: Disk, name: Name): Disk
  {
    disk.(nodes := map other | other in disk.nodes ::
      if other == name then disk.nodes[other].(journal := None) else disk.nodes[other])
  }

  /** Finalizing changes nothing or removes exactly the node's journal, and succeeds only with that; undisturbed it
      succeeds exactly for a committed node. */
  lemma FinalizeIsExact(s: Sys, faults: Faults, name: Name)
    ensures var (s1, ok) := Finalize(s, faults, name);
            && (s1.disk == s.disk || (Finalizable(s.disk, name) && s1.disk == WithoutJournal(s.disk, name)))
            && (ok ==> Finalizable(s.disk, name) && s1.disk == WithoutJournal(s.disk, name))
            && (Finalize(s, NO_FAULTS, name).1 <==> Finalizable(s.disk, name))
  {
    if name in s.disk.nodes {
      assert SetDir(s.disk, name, RemovedFrom(s.disk.nodes[name], JournalFile)) == WithoutJournal(s.disk, name);
    }
  }

  lemma {:induction false} CommitNodesFinishes(front: seq<Outcome>, s: Sys, faults: Faults, config: Config, outcomes: seq<Outcome>, done: CommitResult)
    requires AllDone(s.disk, config, front) && CommitNodes(s, faults, config, outcomes, done).1.ok
    ensures AllDone(CommitNodes(s, faults, config, outcomes, done).0.disk, config, front + outcomes)
    decreases |outcomes|
  {
    if outcomes == [] {
      assert front + outcomes == front;
    } else {
      var first, rest := outcomes[0], outcomes[1..];
      assert front + outcomes == (front + [first]) + rest;
      match first.artifacts
      case None =>
        AllDoneExtends(s.disk, s.disk, config, front, first);
        CommitNodesFinishes(front + [first], s, faults, config, rest, done.(failed := done.failed + [first.node]));
      case Some(artifacts) =>
        var (s1, state) := CommitOne(s, faults, config, artifacts);
        CommitOneMakesDone(s, faults, config, artifacts);
        forall other | Done(s.disk, config, other)
          ensures Done(s1.disk, config, other)
        {
          CommitOneKeepsDone(s, faults, config, artifacts, other);
        }
        AllDoneExtends(s.disk, s1.disk, config, front, first);
        CommitNodesFinishes(front + [first], s1, faults, config, rest, done.(nodes := done.nodes + [state.value]));
    }
  }

  lemma CommitOneMakesDone(s: Sys, faults: Faults, config: Config, artifacts: Artifacts)
    requires CommitOne(s, faults, config, artifacts).1.Some?
    ensures Done(CommitOne(s, faults, config, artifacts).0.disk, config, artifacts)
  {
  }

  /** After a commit that reports success, whatever happened on the way, every node with artifacts can be finalized. */
  lemma CommittedCanBeFinalized(s: Sys, faults: Faults, config: Config, outcomes: seq<Outcome>, i: nat)
    requires CommitPrepared(s, faults, config, outcomes).1.ok && i < |outcomes| && outcomes[i].artifacts.Some?
    ensures Finalizable(CommitPrepared(s, faults, config, outcomes).0.disk, outcomes[i].artifacts.value.name)
  {
    var s1 := EnsureDeployment(s, faults, config.resolved).0;
    CommitNodesFinishes([], s1, faults, config, outcomes, CommitResult([], [], true));
    assert [] + outcomes == outcomes;
    assert Done(CommitPrepared(s, faults, config, outcomes).0.disk, config, outcomes[i].artifacts.value);
  }
}
