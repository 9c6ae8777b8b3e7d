/** The operations in the form the program has them: loops that read, write, rename and remove files of one
    deployment. Each method does exactly what the function of the same name specifies, with the same faults. */
module DeploymentOperations {
  import opened Wrappers
  import opened DeploymentStore
  import Collections
  import RetainedStore
  import Commit
  import Destroy
  import Rollback
  import Texts

  class Store {
    const faults: Faults
    var deployment: Option<Resolved>
    var nodes: map<Name, NodeDir>
    var storeNodes: set<Name>
    var retained: map<RetainedStore.Key, RetainedDir>
    var clock: nat

    constructor (faults: Faults)
      ensures this.faults == faults && Now() == Sys(Disk(None, map[], {}, map[]), 0)
    {
      this.faults := faults;
      deployment, nodes, storeNodes, retained, clock := None, map[], {}, map[], 0;
    }

    function Current(): Disk
      reads this
    {
      Disk(deployment, nodes, storeNodes, retained)
    }

    ghost function Now(): Sys
      reads this
    {
      Sys(Current(), clock)
    }

    // -------------------------------------------------------------- single file operations

    /** One file operation: it must take effect unless the fault loses it, and it succeeds only without a fault. */
    method Attempt() returns (effect: bool, ok: bool)
      modifies this`clock
      ensures effect == (faults(old(clock)) != Lost) && ok == (faults(old(clock)) == Clean)
      ensures clock == old(clock) + 1
    {
      var fault := faults(clock);
      clock := clock + 1;
      return fault != Lost, fault == Clean;
    }

    method Tick() returns (ok: bool)
      modifies this`clock
      ensures (Now(), ok) == DeploymentStore.Tick(old(Now()), faults)
    {
      var effect;
      effect, ok := Attempt();
    }

    method WriteNode(value: NodeState) returns (ok: bool)
      modifies this`clock, this`nodes
      ensures (Now(), ok) == DeploymentStore.WriteNode(old(Now()), faults, value)
    {
      var effect;
      effect, ok := Attempt();
      if effect {
        nodes := nodes[value.node := DirOf(Current(), value.node).(state := Some(value))];
      }
    }

    method WriteDeployment(value: Resolved) returns (ok: bool)
      modifies this`clock, this`deployment
      ensures (Now(), ok) == DeploymentStore.WriteDeployment(old(Now()), faults, value)
    {
      var effect;
      effect, ok := Attempt();
      if effect {
        deployment := Some(value);
      }
    }

    method RemoveFile(node: Name, base: Base) returns (ok: bool)
      requires node in nodes
      modifies this`clock, this`nodes
      ensures (Now(), ok) == DeploymentStore.RemoveFile(old(Now()), faults, node, base)
    {
      var effect;
      effect, ok := Attempt();
      if effect {
        nodes := nodes[node := RemovedFrom(nodes[node], base)];
      }
    }

    method RemoveNodeDir(node: Name) returns (ok: bool)
      modifies this`clock, this`nodes
      ensures (Now(), ok) == DeploymentStore.RemoveNodeDir(old(Now()), faults, node)
    {
      if node !in nodes || Entries(nodes[node]) != {} {
        return false;
      }
      var effect;
      effect, ok := Attempt();
      if effect {
        nodes := Without(nodes, node);
      }
    }

    // -------------------------------------------------------------- journal

    static method ValidateJournal(dir: Name, journal: Journal) returns (ok: bool)
      ensures ok == ValidJournal(dir, journal)
    {
      if !NodeName(journal.node) || journal.updatedAt < journal.startedAt {
        return false;
      }
      var seen: set<Path> := {};
      for i := 0 to |journal.completed|
        invariant forall j :: 0 <= j < i ==>
                    var artifact := journal.completed[j];
                    artifact.path.InNode? && artifact.path.node == dir && BaseOf(artifact.kind, artifact.path.base)
        invariant seen == set j | 0 <= j < i :: journal.completed[j].path
        invariant forall j, k :: 0 <= j < k < i ==> journal.completed[j].path != journal.completed[k].path
      {
        var artifact := journal.completed[i];
        if !artifact.path.InNode? || artifact.path.node != dir || !BaseOf(artifact.kind, artifact.path.base) {
          return false;
        }
        if artifact.path in seen {
          return false;
        }
        seen := seen + {artifact.path};
      }
      if journal.prepared && (journal.invocation.binary == "" || journal.invocation.binary[0] != '/' || |journal.invocation.args| == 0) {
        return false;
      }
      if !journal.prepared && (journal.invocation.binary != "" || |journal.invocation.args| != 0) {
        return false;
      }
      if journal.committed {
        return journal.prepared && journal.statePath == Some(InNode(dir, StateFile));
      }
      return journal.statePath == None;
    }

    method ReadJournal(node: Name) returns (journal: Option<Journal>)
      ensures journal == DeploymentStore.ReadJournal(Current(), node)
    {
      if node !in nodes || nodes[node].journal.None? {
        return None;
      }
      var valid := ValidateJournal(node, nodes[node].journal.value);
      return if valid then nodes[node].journal else None;
    }

    method WriteJournal(node: Name, journal: Journal) returns (ok: bool)
      modifies this`clock, this`nodes
      ensures (Now(), ok) == DeploymentStore.WriteJournal(old(Now()), faults, node, journal)
    {
      var valid := ValidateJournal(node, journal);
      if !valid {
        return false;
      }
      var effect;
      effect, ok := Attempt();
      if effect {
        nodes := nodes[node := DirOf(Current(), node).(journal := Some(journal))];
      }
    }

    // -------------------------------------------------------------- commit

    method AdditiveChange(existing: Resolved, desired: Resolved) returns (additive: bool)
      requires UniqueNames(existing.nodes) && UniqueNames(desired.nodes)
      ensures additive == Commit.AdditiveChange(Current(), existing, desired)
    {
      if existing.envelope != desired.envelope {
        return false;
      }
      var wanted := IndexByName(desired.nodes);
      for i := 0 to |existing.nodes|
        invariant forall j :: 0 <= j < i ==> Commit.Listed(desired.nodes, existing.nodes[j].name)
      {
        if existing.nodes[i].name !in wanted {
          return false;
        }
      }
      var known := IndexByName(existing.nodes);
      for j := 0 to |desired.nodes|
        invariant forall i, k :: 0 <= i < |existing.nodes| && 0 <= k < j && existing.nodes[i].name == desired.nodes[k].name ==>
                    existing.nodes[i] == desired.nodes[k] || ReadNode(Current(), desired.nodes[k].name).None?
      {
        var node := desired.nodes[j];
        if node.name in known && known[node.name] != node && ReadNode(Current(), node.name).Some? {
          return false;
        }
      }
      return true;
    }

    static method IndexByName(definitions: seq<NodeDef>) returns (index: map<Name, NodeDef>)
      requires UniqueNames(definitions)
      ensures forall name :: name in index <==> Commit.Listed(definitions, name)
      ensures forall i :: 0 <= i < |definitions| ==> definitions[i].name in index && index[definitions[i].name] == definitions[i]
    {
      index := map[];
      for i := 0 to |definitions|
        invariant forall name :: name in index ==> Commit.Listed(definitions, name)
        invariant forall j :: 0 <= j < i ==> definitions[j].name in index && index[definitions[j].name] == definitions[j]
      {
        index := index[definitions[i].name := definitions[i]];
      }
    }

    method EnsureDeployment(desired: Resolved) returns (ok: bool)
      requires deployment.Some? ==> UniqueNames(deployment.value.nodes)
      requires UniqueNames(desired.nodes)
      modifies this`clock, this`deployment
      ensures (Now(), ok) == Commit.EnsureDeployment(old(Now()), faults, desired)
    {
      if deployment.None? {
        ok := WriteDeployment(desired);
        return;
      }
      if deployment.value == desired {
        return true;
      }
      var additive := AdditiveChange(deployment.value, desired);
      if !additive {
        return false;
      }
      ok := WriteDeployment(desired);
    }

    method CommitOne(config: Commit.Config, artifacts: Commit.Artifacts) returns (state: Option<NodeState>)
      modifies this`clock, this`nodes
      ensures (Now(), state) == Commit.CommitOne(old(Now()), faults, config, artifacts)
    {
      var journal := ReadJournal(artifacts.name);
      if journal.None? {
        return None;
      }
      var wanted := Commit.StateFor(config, artifacts, journal.value);
      if wanted.None? {
        return None;
      }
      var existing := ReadNode(Current(), artifacts.name);
      if existing.Some? {
        if !Commit.SameNode(existing.value, wanted.value) {
          return None;
        }
      } else {
        var written := WriteNode(wanted.value);
        if !written {
          return None;
        }
      }
      var recorded := WriteJournal(artifacts.name, Commit.CommittedJournal(journal.value, artifacts.name, config.now));
      return if recorded then wanted else None;
    }

    method CommitPrepared(config: Commit.Config, outcomes: seq<Commit.Outcome>) returns (result: Commit.CommitResult)
      requires deployment.Some? ==> UniqueNames(deployment.value.nodes)
      requires UniqueNames(config.resolved.nodes)
      modifies this
      ensures (Now(), result) == Commit.CommitPrepared(old(Now()), faults, config, outcomes)
    {
      result := Commit.CommitResult([], [], false);
      var ok := EnsureDeployment(config.resolved);
      if !ok {
        return;
      }
      ghost var goal := Commit.CommitNodes(Now(), faults, config, outcomes, result.(ok := true));
      for i := 0 to |outcomes|
        invariant !result.ok && goal == Commit.CommitNodes(Now(), faults, config, outcomes[i..], result.(ok := true))
      {
        assert outcomes[i..][1..] == outcomes[i + 1..];
        var outcome := outcomes[i];
        if outcome.artifacts.None? {
          result := result.(failed := result.failed + [outcome.node]);
        } else {
          var state := CommitOne(config, outcome.artifacts.value);
          if state.None? {
            return;
          }
          result := result.(nodes := result.nodes + [state.value]);
        }
      }
      result := result.(ok := true);
    }

    method Finalize(node: Name) returns (ok: bool)
      modifies this`clock, this`nodes
      ensures (Now(), ok) == Commit.Finalize(old(Now()), faults, node)
    {
      var journal := ReadJournal(node);
      if journal.None? || !journal.value.committed {
        return false;
      }
      var state := ReadNode(Current(), node);
      if state.None? || state.value.uuid != journal.value.uuid || state.value.specHash != journal.value.specHash
         || state.value.invocation != journal.value.invocation {
        return false;
      }
      ok := RemoveFile(node, JournalFile);
    }

    // -------------------------------------------------------------- rollback

    static method ScanRuntime(args: seq<string>) returns (paths: Option<(string, string)>)
      ensures paths == Rollback.ScanRuntime(args, "", "")
    {
      var socket, pidfile := "", "";
      for i := 0 to |args|
        invariant Rollback.ScanRuntime(args, "", "") == Rollback.ScanRuntime(args[i..], socket, pidfile)
      {
        assert args[i..][1..] == args[i + 1..];
        if args[i] == "-qmp" {
          if i + 1 >= |args| || !Texts.HasPrefix(args[i + 1], "unix:") {
            return None;
          }
          socket := Texts.Split(args[i + 1][5..], ',')[0];
        } else if args[i] == "-pidfile" {
          if i + 1 >= |args| {
            return None;
          }
          pidfile := args[i + 1];
        }
      }
      return Some((socket, pidfile));
    }

    /** Every check of a rollback, before anything is deleted. */
    method AllowedToRollBack(runtime: set<string>, node: Name) returns (ok: bool)
      ensures ok == Rollback.Allowed(Current(), runtime, node)
    {
      var journal := ReadJournal(node);
      if journal.None? || journal.value.node != node || journal.value.committed {
        return false;
      }
      if nodes[node].state.Some? {
        return false;
      }
      var paths := ScanRuntime(journal.value.invocation.args);
      if paths.None? {
        return false;
      }
      var (socket, pidfile) := paths.value;
      if journal.value.prepared && (!Rollback.Absolute(socket) || !Rollback.Absolute(pidfile) || Rollback.Directory(socket) != Rollback.Directory(pidfile)) {
        return false;
      }
      if (socket != "" && socket in runtime) || (pidfile != "" && pidfile in runtime) {
        return false;
      }
      var completed := journal.value.completed;
      var allowed := {JournalFile};
      for i := 0 to |completed|
        invariant allowed == {JournalFile} + set j | 0 <= j < i && completed[j].path.InNode? :: completed[j].path.base
      {
        if completed[i].path.InNode? {
          allowed := allowed + {completed[i].path.base};
        }
      }
      assert allowed == {JournalFile} + Rollback.ArtifactBases(completed);
      var entries := Entries(nodes[node]);
      while entries != {}
        invariant entries <= Entries(nodes[node]) && Entries(nodes[node]) - entries <= allowed
      {
        var base :| base in entries;
        if base !in allowed {
          return false;
        }
        entries := entries - {base};
      }
      return true;
    }

    method RollbackPrepared(runtime: set<string>, node: Name, apply: bool) returns (result: Rollback.RollbackResult)
      modifies this`clock, this`nodes
      ensures (Now(), result) == Rollback.RollbackPrepared(old(Now()), faults, runtime, node, apply)
    {
      var actions: seq<Path> := [];
      var allowed := AllowedToRollBack(runtime, node);
      if !allowed {
        return Rollback.RollbackResult([], false);
      }
      var journal := ReadJournal(node);
      var completed := journal.value.completed;
      ghost var goal := Rollback.DeleteArtifacts(Now(), faults, node, completed, apply, []);
      var index := |completed|;
      assert completed[..index] == completed;
      while index > 0
        invariant 0 <= index <= |completed|
        invariant goal == Rollback.DeleteArtifacts(Now(), faults, node, completed[..index], apply, actions)
      {
        index := index - 1;
        var path := completed[index].path;
        assert completed[..index + 1][..index] == completed[..index];
        if Exists(Current(), path) {
          if apply {
            if !path.InNode? || path.node != node {
              return Rollback.RollbackResult(actions, false);
            }
            var removed := RemoveFile(node, path.base);
            if !removed {
              return Rollback.RollbackResult(actions, false);
            }
          }
          actions := actions + [path];
        }
      }
      assert goal == (Now(), Rollback.RollbackResult(actions, true));
      if node !in nodes {
        return Rollback.RollbackResult(actions, false);
      }
      if !apply {
        return Rollback.RollbackResult(actions + [InNode(node, JournalFile)], true);
      }
      var removed := RemoveFile(node, JournalFile);
      if !removed {
        return Rollback.RollbackResult(actions, false);
      }
      removed := RemoveNodeDir(node);
      return Rollback.RollbackResult(actions + [InNode(node, JournalFile)], removed);
    }

    // -------------------------------------------------------------- retained disks

    /** The complete walk of the store: an incomplete or unowned entry anywhere makes it unusable. */
    method Inventory() returns (records: Option<map<RetainedStore.Key, Identity>>)
      ensures records == if RetainedStore.InventoryOk(Current()) then Some(RetainedStore.Records(Current())) else None
    {
      var found: map<RetainedStore.Key, Identity> := map[];
      var keys := retained.Keys;
      while keys != {}
        invariant keys <= retained.Keys && found.Keys == retained.Keys - keys
        invariant forall key :: key in found ==>
                    && retained[key].image.Some? && retained[key].marker == Some(found[key])
                    && RetainedStore.KeyOf(found[key]) == key && key.0 in storeNodes
      {
        var key :| key in keys;
        var entry := retained[key];
        if key.0 !in storeNodes || entry.image.None? || entry.marker.None? || RetainedStore.KeyOf(entry.marker.value) != key {
          return None;
        }
        found := found[key := entry.marker.value];
        keys := keys - {key};
      }
      var parents := storeNodes;
      while parents != {}
        invariant parents <= storeNodes
        invariant forall node :: node in storeNodes && node !in parents ==> exists key :: key in retained && key.0 == node
      {
        var node :| node in parents;
        if !(exists key :: key in retained && key.0 == node) {
          return None;
        }
        parents := parents - {node};
      }
      assert RetainedStore.InventoryOk(Current());
      assert found == RetainedStore.Records(Current());
      return Some(found);
    }

    /** The checks that a whole configuration's persistent disks and the store agree. */
    method ValidateDesired(desired: seq<Identity>) returns (ok: bool)
      ensures ok == RetainedStore.DesiredOk(Current(), desired)
    {
      var expected: map<RetainedStore.Key, Identity> := map[];
      for i := 0 to |desired|
        invariant forall j, k :: 0 <= j < k < i ==> RetainedStore.KeyOf(desired[j]) != RetainedStore.KeyOf(desired[k])
        invariant forall j :: 0 <= j < i ==> RetainedStore.KeyOf(desired[j]) in expected && expected[RetainedStore.KeyOf(desired[j])] == desired[j]
        invariant forall key :: key in expected ==> expected[key] in desired[..i] && RetainedStore.KeyOf(expected[key]) == key
      {
        if RetainedStore.KeyOf(desired[i]) in expected {
          return false;
        }
        expected := expected[RetainedStore.KeyOf(desired[i]) := desired[i]];
      }
      var records := Inventory();
      if records.None? {
        return false;
      }
      var keys := records.value.Keys;
      while keys != {}
        invariant keys <= records.value.Keys
        invariant forall key :: key in records.value && key !in keys ==> records.value[key] in desired
      {
        var key :| key in keys;
        if key !in expected || expected[key] != records.value[key] {
          assert records.value[key] !in desired;
          return false;
        }
        keys := keys - {key};
      }
      return true;
    }

    method CleanupParents(key: RetainedStore.Key)
      modifies this`clock, this`retained, this`storeNodes
      ensures Now() == RetainedStore.CleanupParents(old(Now()), faults, key)
    {
      if key in retained && retained[key] == RetainedDir(None, None) {
        var effect, _ := Attempt();
        if effect {
          retained := Without(retained, key);
        }
      }
      if !(exists other :: other in retained && other.0 == key.0) {
        var effect, _ := Attempt();
        if effect {
          storeNodes := storeNodes - {key.0};
        }
      }
    }

    method DropMarker(key: RetainedStore.Key)
      modifies this`clock, this`retained
      ensures Now() == RetainedStore.DropMarker(old(Now()), faults, key)
    {
      if key in retained && retained[key].marker.Some? {
        var effect, _ := Attempt();
        if effect {
          retained := retained[key := retained[key].(marker := None)];
        }
      }
    }

    method MoveBack(source: Path, key: RetainedStore.Key)
      requires RetainedStore.ImagePath(source)
      modifies this`clock, this`nodes, this`retained
      ensures Now() == RetainedStore.MoveBack(old(Now()), faults, source, key)
    {
      if key in retained && retained[key].image.Some? {
        var effect, _ := Attempt();
        if effect {
          var dir := DirOf(Current(), source.node);
          nodes := nodes[source.node := dir.(files := dir.files[source.base := retained[key].image.value])];
          retained := retained[key := retained[key].(image := None)];
        }
      }
    }

    /** The deferred compensation of a preservation that did not publish its marker. */
    method Undo(source: Path, key: RetainedStore.Key)
      requires RetainedStore.ImagePath(source)
      modifies this`clock, this`nodes, this`retained, this`storeNodes
      ensures Now() == RetainedStore.Undo(old(Now()), faults, source, key)
    {
      DropMarker(key);
      MoveBack(source, key);
      CleanupParents(key);
    }

    method MakeDirs(key: RetainedStore.Key) returns (ok: bool)
      modifies this`clock, this`retained, this`storeNodes
      ensures (Now(), ok) == RetainedStore.MakeDirs(old(Now()), faults, key)
    {
      var effect;
      if key.0 !in storeNodes {
        effect, ok := Attempt();
        if effect {
          storeNodes := storeNodes + {key.0};
        }
        if !ok {
          return false;
        }
      }
      effect, ok := Attempt();
      if effect {
        retained := retained[key := RetainedDir(None, None)];
      }
    }

    method Preserve(identity: Identity, source: Path) returns (ok: bool)
      modifies this`clock, this`nodes, this`retained, this`storeNodes
      ensures (Now(), ok) == RetainedStore.Preserve(old(Now()), faults, identity, source)
    {
      var key := RetainedStore.KeyOf(identity);
      var records := Inventory();
      if records.None? {
        return false;
      }
      if key in records.value {
        return records.value[key] == identity && source == InStore(identity.node, identity.name);
      }
      if !RetainedStore.SourceOk(Current(), source) || !source.InNode? {
        return false;
      }
      ok := MakeDirs(key);
      if !ok {
        return;
      }
      ok := Rename(source, key);
      if !ok {
        CleanupParents(key);
        return;
      }
      ok := PublishMarker(identity, source);
    }

    method Rename(source: Path, key: RetainedStore.Key) returns (ok: bool)
      requires RetainedStore.SourceOk(Current(), source) && source.InNode? && key in retained
      modifies this`clock, this`nodes, this`retained
      ensures (Now(), ok) == Apply(old(Now()), faults, RetainedStore.MovedIn(old(Current()), source, key))
    {
      var effect;
      effect, ok := Attempt();
      if effect {
        var image := nodes[source.node].files[source.base];
        nodes := nodes[source.node := RemovedFrom(nodes[source.node], source.base)];
        retained := retained[key := retained[key].(image := Some(image))];
      }
    }

    method WriteMarker(key: RetainedStore.Key, identity: Identity) returns (ok: bool)
      requires key in retained
      modifies this`clock, this`retained
      ensures (Now(), ok) ==
              Apply(old(Now()), faults, RetainedStore.SetRetained(old(Current()), key, old(retained)[key].(marker := Some(identity))))
    {
      var effect;
      effect, ok := Attempt();
      if effect {
        retained := retained[key := retained[key].(marker := Some(identity))];
      }
    }

    /** From the rename to the published marker; a failure on the way is undone. */
    method PublishMarker(identity: Identity, source: Path) returns (ok: bool)
      requires RetainedStore.ImagePath(source) && RetainedStore.KeyOf(identity) in retained
      modifies this`clock, this`nodes, this`retained, this`storeNodes
      ensures (Now(), ok) == RetainedStore.Publish(old(Now()), faults, identity, source)
    {
      var key := RetainedStore.KeyOf(identity);
      ok := Tick();
      if ok {
        ok := Tick();
      }
      if ok {
        ok := WriteMarker(key, identity);
      }
      if ok {
        ok := Tick();
      } else {
        Undo(source, key);
      }
    }

    // -------------------------------------------------------------- destroy

    static lemma ListedNames(resolved: Resolved)
      ensures forall name :: name in Destroy.Names(resolved.nodes) <==> Commit.Listed(resolved.nodes, name)
    {
      forall i | 0 <= i < |resolved.nodes|
        ensures resolved.nodes[i].name in Destroy.Names(resolved.nodes)
      {
        assert Destroy.Names(resolved.nodes)[i] == resolved.nodes[i].name;
      }
    }

    static method SelectNodes(resolved: Resolved, requested: seq<Name>) returns (selected: Option<seq<Name>>)
      ensures selected == Destroy.Selected(resolved, requested)
      ensures requested == [] ==> selected.Some? && selected.value == seq(|resolved.nodes|, i requires 0 <= i < |resolved.nodes| => resolved.nodes[i].name)
      ensures requested != [] ==>
                && (selected.Some? <==> Collections.Distinct(requested) && forall name :: name in requested ==> Commit.Listed(resolved.nodes, name))
                && (selected.Some? ==> selected.value == requested)
    {
      ListedNames(resolved);
      if requested == [] {
        return Some(Destroy.Names(resolved.nodes));
      }
      var names := Destroy.Names(resolved.nodes);
      var known: set<Name> := {};
      for i := 0 to |names|
        invariant forall name :: name in known <==> name in names[..i]
      {
        known := known + {names[i]};
      }
      assert names[..|names|] == names;
      var seen: set<Name> := {};
      for i := 0 to |requested|
        invariant seen == set j | 0 <= j < i :: requested[j]
        invariant forall j :: 0 <= j < i ==> requested[j] in known
        invariant forall j, k :: 0 <= j < k < i ==> requested[j] != requested[k]
      {
        if requested[i] !in known {
          return None;
        }
        if requested[i] in seen {
          assert exists j :: 0 <= j < i && requested[j] == requested[i];
          return None;
        }
        seen := seen + {requested[i]};
      }
      return Some(requested);
    }

    /** The files that may be in a node directory, unless a disposable disk lies outside it. */
    static method ExpectedFiles(node: NodeState) returns (expected: Option<set<Path>>)
      ensures expected ==
              if forall i :: 0 <= i < |node.dataDisks| ==> Destroy.InsideNode(node.node, node.dataDisks[i].path) || node.dataDisks[i].persistent
              then Some(Destroy.ExpectedFiles(node)) else None
    {
      var name := node.node;
      var files := {InNode(name, StateFile), node.rootDisk, node.seed,
                    InNode(name, SerialLog), InNode(name, QemuLog), InNode(name, EventLog)};
      if node.nvram.Some? {
        files := files + {node.nvram.value};
      }
      ghost var fixed := files;
      for i := 0 to |node.dataDisks|
        invariant files == fixed + set j | 0 <= j < i && Destroy.InsideNode(name, node.dataDisks[j].path) :: node.dataDisks[j].path
        invariant forall j :: 0 <= j < i ==> Destroy.InsideNode(name, node.dataDisks[j].path) || node.dataDisks[j].persistent
      {
        if Destroy.InsideNode(name, node.dataDisks[i].path) {
          files := files + {node.dataDisks[i].path};
        } else if !node.dataDisks[i].persistent {
          return None;
        }
      }
      ghost var own := set i | 0 <= i < |node.dataDisks| && Destroy.InsideNode(name, node.dataDisks[i].path) :: node.dataDisks[i].path;
      assert files == fixed + own && Destroy.ExpectedFiles(node) == fixed + own;
      return Some(files);
    }

    method OnlyExpected(name: Name, expected: set<Path>) returns (ok: bool)
      ensures ok == (name in nodes && forall base :: base in Entries(nodes[name]) ==> InNode(name, base) in expected)
    {
      if name !in nodes {
        return false;
      }
      var entries := Entries(nodes[name]);
      while entries != {}
        invariant entries <= Entries(nodes[name])
        invariant forall base :: base in Entries(nodes[name]) && base !in entries ==> InNode(name, base) in expected
      {
        var base :| base in entries;
        if InNode(name, base) !in expected {
          return false;
        }
        entries := entries - {base};
      }
      return true;
    }

    static method DisposableDisks(disks: seq<DataDisk>) returns (paths: seq<Path>)
      ensures paths == Destroy.RemovableData(disks)
    {
      paths := [];
      for i := 0 to |disks|
        invariant Destroy.RemovableData(disks) == paths + Destroy.RemovableData(disks[i..])
      {
        assert disks[i..][1..] == disks[i + 1..];
        if !disks[i].persistent {
          paths := paths + [disks[i].path];
        }
      }
    }

    /** The removal list of a node, or nothing when its directory holds anything unexpected. */
    method NodeTargets(node: NodeState) returns (targets: Option<seq<Path>>)
      ensures targets == Destroy.NodeTargets(Current(), node)
    {
      var name := node.node;
      var expected := ExpectedFiles(node);
      if expected.None? {
        return None;
      }
      var clean := OnlyExpected(name, expected.value);
      if !clean {
        return None;
      }
      var disposable := DisposableDisks(node.dataDisks);
      return Some([node.rootDisk] + disposable + [node.seed] + (if node.nvram.Some? then [node.nvram.value] else [])
                  + [InNode(name, SerialLog), InNode(name, QemuLog), InNode(name, EventLog), InNode(name, StateFile)]);
    }

    method MarkAll(planned: seq<NodeState>, phase: Phase, now: nat) returns (ok: bool)
      modifies this`clock, this`nodes
      ensures (Now(), ok) == Destroy.MarkAll(old(Now()), faults, planned, phase, now)
    {
      for i := 0 to |planned|
        invariant Destroy.MarkAll(old(Now()), faults, planned, phase, now) == Destroy.MarkAll(Now(), faults, planned[i..], phase, now)
      {
        assert planned[i..][1..] == planned[i + 1..];
        ok := WriteNode(planned[i].(phase := phase, updatedAt := now));
        if !ok {
          return;
        }
      }
      ok := true;
    }

    static method SourceOf(disks: seq<DataDisk>, name: string) returns (source: Option<Path>)
      ensures source == Destroy.SourceFor(disks, name)
    {
      for i := 0 to |disks|
        invariant Destroy.SourceFor(disks, name) == Destroy.SourceFor(disks[i..], name)
      {
        assert disks[i..][1..] == disks[i + 1..];
        if disks[i].name == name {
          return Some(disks[i].path);
        }
      }
      return None;
    }

    method PreserveAll(node: NodeState, identities: seq<Identity>) returns (ok: bool)
      modifies this`clock, this`nodes, this`retained, this`storeNodes
      ensures (Now(), ok) == Destroy.PreserveAll(old(Now()), faults, node, identities)
    {
      for i := 0 to |identities|
        invariant Destroy.PreserveAll(old(Now()), faults, node, identities) == Destroy.PreserveAll(Now(), faults, node, identities[i..])
      {
        assert identities[i..][1..] == identities[i + 1..];
        if identities[i].node == node.node {
          var source := SourceOf(node.dataDisks, identities[i].name);
          if source.None? {
            return false;
          }
          ok := Preserve(identities[i], source.value);
          if !ok {
            return;
          }
        }
      }
      ok := true;
    }

    method RemoveTargets(node: Name, targets: seq<Path>) returns (ok: bool)
      modifies this`clock, this`nodes
      ensures (Now(), ok) == Destroy.RemoveTargets(old(Now()), faults, node, targets)
    {
      for i := 0 to |targets|
        invariant Destroy.RemoveTargets(old(Now()), faults, node, targets) == Destroy.RemoveTargets(Now(), faults, node, targets[i..])
      {
        assert targets[i..][1..] == targets[i + 1..];
        if !Destroy.InsideNode(node, targets[i]) {
          return false;
        }
        if Exists(Current(), targets[i]) {
          ok := RemoveFile(node, targets[i].base);
        } else {
          ok := Tick();
        }
        if !ok {
          return;
        }
      }
      ok := true;
    }

    method DestroyOne(node: NodeState, targets: seq<Path>, identities: seq<Identity>) returns (ok: bool)
      modifies this`clock, this`nodes, this`retained, this`storeNodes
      ensures (Now(), ok) == Destroy.DestroyOne(old(Now()), faults, node, targets, identities)
    {
      ok := PreserveAll(node, identities);
      if ok {
        ok := RemoveTargets(node.node, targets);
      }
      if ok {
        ok := Tick();
      }
      if ok {
        ok := RemoveNodeDir(node.node);
      }
    }

    /** The states of the named nodes; a node without one is a pending creation and is passed over. */
    method StatesOf(names: seq<Name>) returns (states: seq<NodeState>)
      ensures states == Destroy.States(Current(), names)
    {
      states := [];
      for i := 0 to |names|
        invariant Destroy.States(Current(), names) == states + Destroy.States(Current(), names[i..])
      {
        assert names[i..][1..] == names[i + 1..];
        var state := ReadNode(Current(), names[i]);
        if state.Some? {
          states := states + [state.value];
        }
      }
    }

    static method KeptNames(names: seq<Name>, selected: seq<Name>) returns (kept: seq<Name>)
      ensures kept == Destroy.Kept(names, selected)
    {
      kept := [];
      for i := 0 to |names|
        invariant Destroy.Kept(names, selected) == kept + Destroy.Kept(names[i..], selected)
      {
        assert names[i..][1..] == names[i + 1..];
        if names[i] in selected {
          kept := kept + [names[i]];
        }
      }
    }

    static method IdentitiesOf(node: NodeDef) returns (identities: seq<Identity>)
      ensures identities == Destroy.IdentitiesOf(node.name, node.disks)
    {
      identities := [];
      for i := 0 to |node.disks|
        invariant Destroy.IdentitiesOf(node.name, node.disks) == identities + Destroy.IdentitiesOf(node.name, node.disks[i..])
      {
        assert node.disks[i..][1..] == node.disks[i + 1..];
        if node.disks[i].persistent {
          identities := identities + [Identity(node.name, node.disks[i].name, node.disks[i].size, node.disks[i].mount)];
        }
      }
    }

    static method AllIdentities(definitions: seq<NodeDef>) returns (identities: seq<Identity>)
      ensures identities == Destroy.Identities(definitions)
    {
      identities := [];
      for i := 0 to |definitions|
        invariant Destroy.Identities(definitions) == identities + Destroy.Identities(definitions[i..])
      {
        assert definitions[i..][1..] == definitions[i + 1..];
        var own := IdentitiesOf(definitions[i]);
        identities := identities + own;
      }
    }

    /** Every recorded persistent disk is where its state says and is declared with the same contract. */
    method ValidateRecorded(wanted: seq<Identity>, recorded: seq<NodeState>) returns (ok: bool)
      ensures ok == Destroy.RecordedDisksOk(Current(), wanted, recorded)
    {
      for i := 0 to |recorded|
        invariant forall j, k :: 0 <= j < i && 0 <= k < |recorded[j].dataDisks| && recorded[j].dataDisks[k].persistent ==>
                    RecordedDiskOk(Current(), wanted, recorded[j], k)
      {
        for k := 0 to |recorded[i].dataDisks|
          invariant forall j :: 0 <= j < k && recorded[i].dataDisks[j].persistent ==> RecordedDiskOk(Current(), wanted, recorded[i], j)
        {
          if recorded[i].dataDisks[k].persistent && !RecordedDiskOk(Current(), wanted, recorded[i], k) {
            return false;
          }
        }
      }
      return true;
    }

    /** The persistent disks of the whole configuration, the states and the store agree. Disks retained for nodes
        that left the configuration join the expected ones. */
    method ValidatePersistent(resolved: Resolved, recorded: seq<NodeState>) returns (desired: Option<seq<Identity>>)
      ensures desired == if Destroy.PersistentOk(Current(), resolved, recorded) then Some(Destroy.Identities(resolved.nodes)) else None
    {
      var wanted := AllIdentities(resolved.nodes);
      var records := Inventory();
      if records.None? {
        return None;
      }
      var declared := Destroy.Names(resolved.nodes);
      var orphans: seq<Identity> := [];
      var keys := records.value.Keys;
      while keys != {}
        invariant keys <= records.value.Keys && Orphans(records.value, declared, keys, orphans)
      {
        var key :| key in keys;
        if key.0 !in declared {
          orphans := orphans + [records.value[key]];
        }
        keys := keys - {key};
      }
      IdentitiesAreDeclared(resolved.nodes);
      OrphansPass(Current(), wanted, declared, orphans);
      var valid := ValidateDesired(wanted + orphans);
      if !valid {
        return None;
      }
      valid := ValidateRecorded(wanted, recorded);
      return if valid then Some(wanted) else None;
    }

    /** Every node to destroy is idle and holds only its own files; their removal lists. */
    method ListTargets(states: seq<NodeState>, request: Destroy.Request) returns (targets: Option<seq<seq<Path>>>)
      ensures targets.Some? <==> forall i :: 0 <= i < |states| ==> Destroy.Destroyable(Current(), request, states[i])
      ensures targets.Some? ==> Listed(Current(), states, targets.value)
    {
      var listed: seq<seq<Path>> := [];
      for i := 0 to |states|
        invariant |listed| == i
        invariant forall j :: 0 <= j < i ==> Destroy.Destroyable(Current(), request, states[j]) && Destroy.NodeTargets(Current(), states[j]) == Some(listed[j])
      {
        var node := states[i];
        if (node.phase != Stopped && node.phase != Prepared) || node.node in request.live {
          return None;
        }
        var removal := NodeTargets(node);
        if removal.None? {
          return None;
        }
        listed := listed + [removal.value];
      }
      return Some(listed);
    }

    /** Planning: the nodes to destroy with their removal lists, and the persistent disks to preserve. */
    method Plan(resolved: Resolved, selected: seq<Name>, request: Destroy.Request)
      returns (planned: Option<seq<NodeState>>, targets: seq<seq<Path>>, identities: seq<Identity>)
      ensures planned == Destroy.PlanDestroy(Current(), resolved, selected, request)
      ensures planned.Some? ==> Listed(Current(), planned.value, targets) && identities == Destroy.Identities(resolved.nodes)
    {
      planned, targets, identities := None, [], [];
      var names := Destroy.Names(resolved.nodes);
      var kept := KeptNames(names, selected);
      var states := StatesOf(kept);
      var listed := ListTargets(states, request);
      if listed.None? {
        return;
      }
      var all := StatesOf(names);
      var agreed := ValidatePersistent(resolved, all);
      if agreed.None? {
        return;
      }
      planned, targets, identities := Some(states), listed.value, agreed.value;
    }

    method Execute(resolved: Resolved, selected: seq<Name>, planned: seq<NodeState>, targets: seq<seq<Path>>, identities: seq<Identity>, request: Destroy.Request)
      returns (ok: bool)
      requires Listed(Current(), planned, targets) && identities == Destroy.Identities(resolved.nodes)
      modifies this
      ensures (Now(), ok) == Destroy.Execute(old(Now()), faults, resolved, selected, planned, request)
    {
      ghost var validated := Current();
      ok := MarkAll(planned, Destroying, request.now);
      if !ok {
        return;
      }
      ghost var marked := Now();
      for i := 0 to |planned|
        invariant Destroy.DestroyEach(marked, faults, validated, planned, identities)
                  == Destroy.DestroyEach(Now(), faults, validated, planned[i..], identities)
      {
        assert planned[i..][1..] == planned[i + 1..];
        ok := DestroyOne(planned[i], targets[i], identities);
        if !ok {
          return;
        }
      }
      ok := Conclude(resolved, selected, request.dropFromSpec);
    }

    method Conclude(resolved: Resolved, selected: seq<Name>, dropFromSpec: bool) returns (ok: bool)
      modifies this`clock, this`deployment
      ensures (Now(), ok) == Destroy.Conclude(old(Now()), faults, resolved, selected, dropFromSpec)
    {
      ok := Tick();
      if !ok {
        return;
      }
      if !Destroy.IsPartial(resolved, selected) {
        var effect;
        effect, ok := Attempt();
        if effect {
          deployment := None;
        }
      } else if dropFromSpec {
        var remaining := RemainingNodes(resolved.nodes, selected);
        ok := WriteDeployment(resolved.(nodes := remaining));
      }
    }

    static method RemainingNodes(definitions: seq<NodeDef>, selected: seq<Name>) returns (remaining: seq<NodeDef>)
      ensures remaining == Destroy.Remaining(definitions, selected)
    {
      remaining := [];
      for i := 0 to |definitions|
        invariant Destroy.Remaining(definitions, selected) == remaining + Destroy.Remaining(definitions[i..], selected)
      {
        assert definitions[i..][1..] == definitions[i + 1..];
        if definitions[i].name !in selected {
          remaining := remaining + [definitions[i]];
        }
      }
    }

    method StopFirst(states: seq<NodeState>, now: nat) returns (ok: bool)
      modifies this`clock, this`nodes
      ensures (Now(), ok) == Destroy.StopFirst(old(Now()), faults, states, now)
    {
      var needed, known, settled := false, true, true;
      for i := 0 to |states|
        invariant needed == exists j :: 0 <= j < i && (states[j].phase == Running || states[j].phase == Prepared)
        invariant known == forall j :: 0 <= j < i ==> states[j].phase in {Running, Starting, Stopping, Stopped, Prepared}
        invariant settled == forall j :: 0 <= j < i ==> states[j].phase in {Stopped, Prepared}
      {
        needed := needed || states[i].phase == Running || states[i].phase == Prepared;
        known := known && states[i].phase in {Running, Starting, Stopping, Stopped, Prepared};
        settled := settled && states[i].phase in {Stopped, Prepared};
      }
      if !needed {
        return true;
      }
      if !known || settled {
        return known;
      }
      var marks: seq<NodeState> := [];
      for i := 0 to |states|
        invariant |marks| == i && forall j :: 0 <= j < i ==> marks[j] == Destroy.StopMark(states[j], now)
      {
        var mark := states[i];
        if mark.phase in {Running, Starting, Stopping} {
          mark := mark.(phase := Stopping, updatedAt := now);
        } else if mark.phase == Prepared {
          mark := mark.(phase := Stopped, updatedAt := now);
        }
        marks := marks + [mark];
      }
      assert marks == Destroy.StopMarks(states, now);
      ok := WriteEach(marks);
      if ok {
        ok := FinishStops(marks, now);
      }
    }

    method WriteEach(records: seq<NodeState>) returns (ok: bool)
      modifies this`clock, this`nodes
      ensures (Now(), ok) == Destroy.WriteEach(old(Now()), faults, records)
    {
      for i := 0 to |records|
        invariant Destroy.WriteEach(old(Now()), faults, records) == Destroy.WriteEach(Now(), faults, records[i..])
      {
        assert records[i..][1..] == records[i + 1..];
        ok := WriteNode(records[i]);
        if !ok {
          return;
        }
      }
      ok := true;
    }

    method FinishStops(marks: seq<NodeState>, now: nat) returns (ok: bool)
      modifies this`clock, this`nodes
      ensures (Now(), ok) == Destroy.FinishStops(old(Now()), faults, marks, now)
    {
      ok := true;
      for i := 0 to |marks|
        invariant var (after, rest) := Destroy.FinishStops(Now(), faults, marks[i..], now);
                  Destroy.FinishStops(old(Now()), faults, marks, now) == (after, ok && rest)
      {
        assert marks[i..][0] == marks[i] && marks[i..][1..] == marks[i + 1..];
        if marks[i].phase == Stopping {
          var written := WriteNode(marks[i].(phase := Stopped, updatedAt := now));
          ok := ok && written;
        }
      }
    }

    method DestroySelected(request: Destroy.Request) returns (ok: bool)
      modifies this
      ensures (Now(), ok) == Destroy.DestroySelected(old(Now()), faults, request)
    {
      if deployment.None? {
        return false;
      }
      var resolved := deployment.value;
      var chosen := SelectNodes(resolved, request.selection);
      if chosen.None? {
        return false;
      }
      var selected := chosen.value;
      if Destroy.IsPartial(resolved, selected) && !request.allowPartial {
        return false;
      }
      var kept := KeptNames(Destroy.Names(resolved.nodes), selected);
      var states := StatesOf(kept);
      ok := StopFirst(states, request.now);
      if !ok {
        return;
      }
      var planned, targets, identities := Plan(resolved, selected, request);
      if planned.None? {
        return false;
      }
      ok := Execute(resolved, selected, planned.value, targets, identities, request);
    }
  }

  /** The removal lists, in the order of the planned nodes. */
  ghost predicate Listed(disk: Disk, planned: seq<NodeState>, targets: seq<seq<Path>>)
  {
    && |targets| == |planned|
    && forall i :: 0 <= i < |planned| ==> Destroy.NodeTargets(disk, planned[i]) == Some(targets[i])
  }

  predicate RecordedDiskOk(disk: Disk, desired: seq<Identity>, node: NodeState, k: nat)
    requires k < |node.dataDisks|
  {
    var data := node.dataDisks[k];
    RetainedStore.SourceOk(disk, data.path) && Identity(node.node, data.name, data.size, data.mount) in desired
  }

  /** The retained disks of undeclared nodes met so far, each once. */
  ghost predicate Orphans(records: map<RetainedStore.Key, Identity>, declared: seq<Name>, ahead: set<RetainedStore.Key>, orphans: seq<Identity>)
  {
    && RetainedStore.DistinctKeys(orphans)
    && (forall identity :: identity in orphans ==>
          var key := RetainedStore.KeyOf(identity);
          key in records && key !in ahead && records[key] == identity && key.0 !in declared)
    && forall key :: key in records && key !in ahead && key.0 !in declared ==> records[key] in orphans
  }

  lemma {:induction false} IdentitiesAreDeclared(definitions: seq<NodeDef>)
    ensures forall identity :: identity in Destroy.Identities(definitions) ==> identity.node in Destroy.Names(definitions)
  {
    if definitions != [] {
      IdentitiesAreDeclared(definitions[1..]);
      OwnIdentities(definitions[0].name, definitions[0].disks);
      var names := Destroy.Names(definitions);
      assert names[0] == definitions[0].name;
      assert forall i :: 0 <= i < |definitions[1..]| ==> Destroy.Names(definitions[1..])[i] == names[i + 1];
    }
  }

  lemma {:induction false} OwnIdentities(node: Name, disks: seq<DiskDef>)
    ensures forall identity :: identity in Destroy.IdentitiesOf(node, disks) ==> identity.node == node
  {
    if disks != [] {
      OwnIdentities(node, disks[1..]);
    }
  }

  /** Adding the orphans to the expected disks accepts exactly the stores whose declared disks are expected. */
  lemma OrphansPass(disk: Disk, wanted: seq<Identity>, declared: seq<Name>, orphans: seq<Identity>)
    requires RetainedStore.InventoryOk(disk) && Orphans(RetainedStore.Records(disk), declared, {}, orphans)
    requires forall identity :: identity in wanted ==> identity.node in declared
    ensures RetainedStore.DesiredOk(disk, wanted + orphans) <==>
              && RetainedStore.DistinctKeys(wanted)
              && forall key :: key in RetainedStore.Records(disk) && key.0 in declared ==> RetainedStore.Records(disk)[key] in wanted
  {
    var records := RetainedStore.Records(disk);
    var all := wanted + orphans;
    assert RetainedStore.DistinctKeys(all) <==> RetainedStore.DistinctKeys(wanted) by {
      if RetainedStore.DistinctKeys(wanted) {
        forall i, j | 0 <= i < j < |all|
          ensures RetainedStore.KeyOf(all[i]) != RetainedStore.KeyOf(all[j])
        {
          if i < |wanted| <= j {
            assert all[i] in wanted && all[j] in orphans;
          }
        }
      }
      if RetainedStore.DistinctKeys(all) {
        assert forall i :: 0 <= i < |wanted| ==> wanted[i] == all[i];
      }
    }
    forall key | key in records
      ensures records[key] in all <==> if key.0 in declared then records[key] in wanted else true
    {
      assert RetainedStore.KeyOf(records[key]) == key;
      assert records[key] in all <==> records[key] in wanted || records[key] in orphans;
    }
  }
}
