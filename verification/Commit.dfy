/** Making prepared nodes durable: the deployment state first, then each node's state, then its journal. */
module Commit {
  import opened Wrappers
  import opened DeploymentStore

  datatype DataArtifact = DataArtifact(name: string, path: Path, size: nat, mount: string)

  datatype Artifacts = Artifacts(name: Name, data: seq<DataArtifact>, nvram: Option<Path>, invocation: Invocation)

  /** The outcome of preparing one node; a failed prepare has no artifacts. */
  datatype Outcome = Outcome(node: Name, artifacts: Option<Artifacts>)

  datatype Config = Config(resolved: Resolved, uuids: map<Name, string>, now: nat)

  datatype CommitResult = CommitResult(nodes: seq<NodeState>, failed: seq<Name>, ok: bool)

  predicate Listed(nodes: seq<NodeDef>, name: Name)
  {
    exists i :: 0 <= i < |nodes| && nodes[i].name == name
  }

  /** desired keeps the envelope and every node of existing, and redefines only nodes without state. */
  predicate AdditiveChange(disk: Disk, existing: Resolved, desired: Resolved)
  {
    && existing.envelope == desired.envelope
    && (forall i :: 0 <= i < |existing.nodes| ==> Listed(desired.nodes, existing.nodes[i].name))
    && forall i, j :: 0 <= i < |existing.nodes| && 0 <= j < |desired.nodes| && existing.nodes[i].name == desired.nodes[j].name ==>
         existing.nodes[i] == desired.nodes[j] || ReadNode(disk, desired.nodes[j].name).None?
  }

  function EnsureDeployment(s: Sys, faults: Faults, desired: Resolved): (Sys, bool)
  {
    match s.disk.deployment
    case None => WriteDeployment(s, faults, desired)
    case Some(existing) =>
      if existing == desired then (s, true)
      else if !AdditiveChange(s.disk, existing, desired) then (s, false)
      else WriteDeployment(s, faults, desired)
  }

  predicate Undeclared(definition: NodeDef, data: seq<DataArtifact>, i: nat)
    requires i < |data|
  {
    i >= |definition.disks| || definition.disks[i].name != data[i].name
  }

  function DataDisks(definition: NodeDef, data: seq<DataArtifact>): Option<seq<DataDisk>>
  {
    if exists i :: 0 <= i < |data| && Undeclared(definition, data, i) then None
    else Some(seq(|data|, i requires 0 <= i < |data| =>
                    DataDisk(data[i].name, data[i].path, data[i].size, data[i].mount,
                             i < |definition.disks| && definition.disks[i].persistent)))
  }

  function StateFor(config: Config, artifacts: Artifacts, journal: Journal): Option<NodeState>
  {
    var name := artifacts.name;
    var definition := Find(config.resolved.nodes, name);
    if definition.None? || name !in config.uuids then None
    else
      var hash := NodeHash(config.resolved.envelope, definition.value);
      if journal.node != name || journal.uuid != config.uuids[name] || journal.specHash != hash
         || !journal.prepared || journal.invocation != artifacts.invocation then None
      else
        match DataDisks(definition.value, artifacts.data)
        case None => None
        case Some(disks) =>
          Some(NodeState(name, config.uuids[name], Prepared, hash, InNode(name, RootImage), disks,
                         InNode(name, SeedImage), artifacts.nvram, artifacts.invocation, journal.startedAt, config.now))
  }

  predicate SameNode(existing: NodeState, wanted: NodeState)
  {
    existing.uuid == wanted.uuid && existing.specHash == wanted.specHash && existing.invocation == wanted.invocation
  }

  function CommittedJournal(journal: Journal, node: Name, now: nat): Journal
  {
    journal.(committed := true, statePath := Some(InNode(node, StateFile)), updatedAt := now)
  }

  function CommitOne(s: Sys, faults: Faults, config: Config, artifacts: Artifacts): (Sys, Option<NodeState>)
  {
    var journal := ReadJournal(s.disk, artifacts.name);
    if journal.None? then (s, None)
    else
      var wanted := StateFor(config, artifacts, journal.value);
      if wanted.None? then (s, None)
      else
        var existing := ReadNode(s.disk, artifacts.name);
        if existing.Some? && !SameNode(existing.value, wanted.value) then (s, None)
        else
          var (s1, written) := if existing.Some? then (s, true) else WriteNode(s, faults, wanted.value);
          if !written then (s1, None)
          else
            var (s2, recorded) := WriteJournal(s1, faults, artifacts.name,
                                               CommittedJournal(journal.value, artifacts.name, config.now));
            (s2, if recorded then wanted else None)
  }

  function CommitNodes(s: Sys, faults: Faults, config: Config, outcomes: seq<Outcome>, done: CommitResult): (Sys, CommitResult)
    decreases |outcomes|
  {
    if outcomes == [] then (s, done.(ok := true))
    else match outcomes[0].artifacts
      case None => CommitNodes(s, faults, config, outcomes[1..], done.(failed := done.failed + [outcomes[0].node]))
      case Some(artifacts) =>
        var (s1, state) := CommitOne(s, faults, config, artifacts);
        match state
        case None => (s1, done.(ok := false))
        case Some(value) => CommitNodes(s1, faults, config, outcomes[1..], done.(nodes := done.nodes + [value]))
  }

  function CommitPrepared(s: Sys, faults: Faults, config: Config, outcomes: seq<Outcome>): (Sys, CommitResult)
  {
    var (s1, ok) := EnsureDeployment(s, faults, config.resolved);
    if !ok then (s1, CommitResult([], [], false))
    else CommitNodes(s1, faults, config, outcomes, CommitResult([], [], true))
  }

  function Finalize(s: Sys, faults: Faults, node: Name): (Sys, bool)
  {
    var journal := ReadJournal(s.disk, node);
    if journal.None? || !journal.value.committed then (s, false)
    else
      var state := ReadNode(s.disk, node);
      if state.None? || state.value.uuid != journal.value.uuid || state.value.specHash != journal.value.specHash
         || state.value.invocation != journal.value.invocation then (s, false)
      else RemoveFile(s, faults, node, JournalFile)
  }

  // ---------------------------------------------------------------- what committing one node can do

  /** One node's directory at most gains its wanted state, if it had none, and then its committed journal. */
  predicate CommitShape(before: Disk, after: Disk, config: Config, artifacts: Artifacts)
  {
    var name := artifacts.name;
    var journal := ReadJournal(before, name);
    after == before
    || (&& journal.Some? && StateFor(config, artifacts, journal.value).Some?
        && var wanted := StateFor(config, artifacts, journal.value).value;
        var dir := before.nodes[name];
        var recorded := if dir.state.Some? then dir else dir.(state := Some(wanted));
        var marked := CommittedJournal(journal.value, name, config.now);
        && (dir.state.Some? ==> SameNode(dir.state.value, wanted))
        && (after == SetDir(before, name, recorded)
            || (ValidJournal(name, marked) && after == SetDir(before, name, recorded.(journal := Some(marked))))))
  }

  lemma CommitOneShape(s: Sys, faults: Faults, config: Config, artifacts: Artifacts)
    ensures CommitShape(s.disk, CommitOne(s, faults, config, artifacts).0.disk, config, artifacts)
  {
    var name := artifacts.name;
    var journal := ReadJournal(s.disk, name);
    if journal.Some? && StateFor(config, artifacts, journal.value).Some? {
      var wanted := StateFor(config, artifacts, journal.value).value;
      var dir := s.disk.nodes[name];
      var marked := CommittedJournal(journal.value, name, config.now);
      var recorded := if dir.state.Some? then dir else dir.(state := Some(wanted));
      var (s1, written) := if dir.state.Some? then (s, true) else WriteNode(s, faults, wanted);
      assert s1.disk == s.disk || s1.disk == SetDir(s.disk, name, recorded);
      assert written ==> s1.disk == SetDir(s.disk, name, recorded);
      assert SetDir(s.disk, name, dir) == s.disk;
    }
  }
}
