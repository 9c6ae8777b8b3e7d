/** Undoing an uncommitted prepare: the whole node directory is checked before the first deletion, artifacts go
    in reverse order, and the journal goes last. */
module Rollback {
  import opened Wrappers
  import opened Texts
  import opened DeploymentStore

  // ---------------------------------------------------------------- runtime paths of an invocation

  predicate Absolute(path: string) { HasPrefix(path, "/") }

  /** The part of a clean absolute path before its last separator. */
  function Directory(path: string): string
  {
    if path == "" || path[|path| - 1] == '/' then path else Directory(path[..|path| - 1])
  }

  /** The last QMP socket and pidfile that the arguments name. */
  function ScanRuntime(args: seq<string>, socket: string, pidfile: string): Option<(string, string)>
  {
    if args == [] then Some((socket, pidfile))
    else if args[0] == "-qmp" then
      if |args| < 2 || !HasPrefix(args[1], "unix:") then None
      else ScanRuntime(args[1..], Split(args[1][5..], ',')[0], pidfile)
    else if args[0] == "-pidfile" then
      if |args| < 2 then None else ScanRuntime(args[1..], socket, args[1])
    else ScanRuntime(args[1..], socket, pidfile)
  }

  function InvocationRuntime(journal: Journal): Option<(string, string)>
  {
    match ScanRuntime(journal.invocation.args, "", "")
    case None => None
    case Some((socket, pidfile)) =>
      if journal.prepared && !(Absolute(socket) && Absolute(pidfile) && Directory(socket) == Directory(pidfile)) then None
      else Some((socket, pidfile))
  }

  // ---------------------------------------------------------------- the rollback

  datatype RollbackResult = RollbackResult(actions: seq<Path>, ok: bool)

  function ArtifactBases(completed: seq<Artifact>): set<Base>
  {
    set i | 0 <= i < |completed| && completed[i].path.InNode? :: completed[i].path.base
  }

  /** All checks, made before the first deletion. runtime is the set of runtime files that exist. */
  predicate Allowed(disk: Disk, runtime: set<string>, node: Name)
  {
    var journal := ReadJournal(disk, node);
    && journal.Some? && journal.value.node == node && !journal.value.committed
    && ReadNode(disk, node).None?
    && var paths := InvocationRuntime(journal.value);
    && paths.Some?
    && (paths.value.0 == "" || paths.value.0 !in runtime) && (paths.value.1 == "" || paths.value.1 !in runtime)
    && Entries(disk.nodes[node]) <= {JournalFile} + ArtifactBases(journal.value.completed)
  }

  /** Deleting the artifacts from the last to the first, skipping those already gone. */
  function DeleteArtifacts(s: Sys, faults: Faults, node: Name, completed: seq<Artifact>, apply: bool, actions: seq<Path>): (Sys, RollbackResult)
    decreases |completed|
  {
    if completed == [] then (s, RollbackResult(actions, true))
    else
      var path := completed[|completed| - 1].path;
      var rest := completed[..|completed| - 1];
      if !Exists(s.disk, path) then DeleteArtifacts(s, faults, node, rest, apply, actions)
      else if !apply then DeleteArtifacts(s, faults, node, rest, apply, actions + [path])
      else if !path.InNode? || path.node != node then (s, RollbackResult(actions, false))
      else
        var (s1, ok) := RemoveFile(s, faults, node, path.base);
        if ok then DeleteArtifacts(s1, faults, node, rest, apply, actions + [path])
        else (s1, RollbackResult(actions, false))
  }

  function RollbackPrepared(s: Sys, faults: Faults, runtime: set<string>, node: Name, apply: bool): (Sys, RollbackResult)
  {
    if !Allowed(s.disk, runtime, node) then (s, RollbackResult([], false))
    else
      var completed := ReadJournal(s.disk, node).value.completed;
      var (s1, deleted) := DeleteArtifacts(s, faults, node, completed, apply, []);
      var journal := InNode(node, JournalFile);
      if !deleted.ok || node !in s1.disk.nodes then (s1, deleted.(ok := false))
      else if !apply then (s1, deleted.(actions := deleted.actions + [journal]))
      else
        var (s2, ok) := RemoveFile(s1, faults, node, JournalFile);
        if !ok then (s2, deleted.(ok := false))
        else
          var (s3, removed) := RemoveNodeDir(s2, faults, node);
          (s3, RollbackResult(deleted.actions + [journal], removed))
  }

  // ---------------------------------------------------------------- laws

  /** No rollback touches a node whose state exists, whatever its journal says. */
  lemma CommittedNodesAreSafe(s: Sys, faults: Faults, runtime: set<string>, node: Name, apply: bool)
    requires ReadNode(s.disk, node).Some?
    ensures RollbackPrepared(s, faults, runtime, node, apply) == (s, RollbackResult([], false))
  {
  }

  lemma {:induction false} DryDelete(s: Sys, faults: Faults, node: Name, completed: seq<Artifact>, actions: seq<Path>)
    ensures DeleteArtifacts(s, faults, node, completed, false, actions).0 == s
    ensures DeleteArtifacts(s, faults, node, completed, false, actions).1.ok
    decreases |completed|
  {
    if completed != [] {
      var path, rest := completed[|completed| - 1].path, completed[..|completed| - 1];
      DryDelete(s, faults, node, rest, if Exists(s.disk, path) then actions + [path] else actions);
    }
  }

  /** A dry run changes nothing, and is accepted exactly when the checks pass. */
  lemma DryRunChangesNothing(s: Sys, faults: Faults, runtime: set<string>, node: Name)
    ensures RollbackPrepared(s, faults, runtime, node, false).0 == s
    ensures RollbackPrepared(s, faults, runtime, node, false).1.ok == Allowed(s.disk, runtime, node)
  {
    if Allowed(s.disk, runtime, node) {
      DryDelete(s, faults, node, ReadJournal(s.disk, node).value.completed, []);
    }
  }

  /** Only files of one uncommitted directory went; its journal stayed. */
  ghost predicate Thinned(before: Disk, after: Disk, node: Name, bases: set<Base>)
  {
    && node in before.nodes && node in after.nodes
    && after == SetDir(before, node, before.nodes[node].(files := after.nodes[node].files))
    && (forall base :: base in after.nodes[node].files ==>
          base in before.nodes[node].files && after.nodes[node].files[base] == before.nodes[node].files[base])
    && forall base :: base in before.nodes[node].files && base !in bases ==> base in after.nodes[node].files
  }

  predicate OwnArtifacts(node: Name, completed: seq<Artifact>)
  {
    forall i :: 0 <= i < |completed| ==>
      completed[i].path.InNode? && completed[i].path.node == node && BaseOf(completed[i].kind, completed[i].path.base)
  }

  lemma {:induction false} DeleteThins(s: Sys, faults: Faults, node: Name, completed: seq<Artifact>, actions: seq<Path>)
    requires node in s.disk.nodes && OwnArtifacts(node, completed)
    ensures var (s1, result) := DeleteArtifacts(s, faults, node, completed, true, actions);
            && Thinned(s.disk, s1.disk, node, ArtifactBases(completed))
            && (result.ok ==> forall base :: base in ArtifactBases(completed) ==> base !in s1.disk.nodes[node].files)
    decreases |completed|
  {
    if completed == [] {
      assert s.disk == SetDir(s.disk, node, s.disk.nodes[node]);
    } else {
      var path, rest := completed[|completed| - 1].path, completed[..|completed| - 1];
      assert ArtifactBases(completed) == ArtifactBases(rest) + {path.base} by { LastBase(completed); }
      if !Exists(s.disk, path) {
        DeleteThins(s, faults, node, rest, actions);
      } else {
        var (s1, ok) := RemoveFile(s, faults, node, path.base);
        assert Thinned(s.disk, s1.disk, node, {path.base});
        if ok {
          DeleteThins(s1, faults, node, rest, actions + [path]);
          var s2 := DeleteArtifacts(s1, faults, node, rest, true, actions + [path]).0;
          ThinnedTransitive(s.disk, s1.disk, s2.disk, node, {path.base}, ArtifactBases(rest));
        }
      }
    }
  }

  lemma LastBase(completed: seq<Artifact>)
    requires completed != [] && completed[|completed| - 1].path.InNode?
    ensures ArtifactBases(completed) == ArtifactBases(completed[..|completed| - 1]) + {completed[|completed| - 1].path.base}
  {
    var rest := completed[..|completed| - 1];
    forall base | base in ArtifactBases(completed)
      ensures base in ArtifactBases(rest) + {completed[|completed| - 1].path.base}
    {
      var i :| 0 <= i < |completed| && completed[i].path.InNode? && completed[i].path.base == base;
      if i < |rest| {
        assert rest[i] == completed[i];
      }
    }
    forall base | base in ArtifactBases(rest)
      ensures base in ArtifactBases(completed)
    {
      var i :| 0 <= i < |rest| && rest[i].path.InNode? && rest[i].path.base == base;
      assert completed[i] == rest[i];
    }
  }

  lemma ThinnedTransitive(first: Disk, second: Disk, third: Disk, node: Name, some: set<Base>, more: set<Base>)
    requires Thinned(first, second, node, some) && Thinned(second, third, node, more)
    ensures Thinned(first, third, node, some + more)
  {
  }

  /** Everything on disk but this node's directory is as it was; the directory keeps its state and gains no file. */
  ghost predicate OnlyDirectory(before: Disk, after: Disk, node: Name)
  {
    && after == before.(nodes := after.nodes)
    && (forall other :: other != node ==> (other in after.nodes <==> other in before.nodes))
    && (forall other :: other != node && other in before.nodes ==> after.nodes[other] == before.nodes[other])
    && ReadNode(after, node) == ReadNode(before, node)
    && (node in after.nodes ==> node in before.nodes && after.nodes[node].files.Keys <= before.nodes[node].files.Keys)
  }

  lemma ThinnedIsOnlyDirectory(before: Disk, after: Disk, node: Name, bases: set<Base>)
    requires Thinned(before, after, node, bases)
    ensures OnlyDirectory(before, after, node)
  {
  }

  lemma RemovalIsOnlyDirectory(before: Disk, s: Sys, faults: Faults, node: Name)
    requires OnlyDirectory(before, s.disk, node) && ReadNode(before, node).None? && node in s.disk.nodes
    ensures var s1 := RemoveFile(s, faults, node, JournalFile).0;
            OnlyDirectory(before, s1.disk, node) && OnlyDirectory(before, RemoveNodeDir(s1, faults, node).0.disk, node)
  {
  }

  /** Whatever a rollback deletes, the whole directory had been checked: every entry was the journal or a
      journalled artifact, and nothing else on disk changes, at any crash point. */
  lemma RollbackChecksFirst(s: Sys, faults: Faults, runtime: set<string>, node: Name)
    ensures var (s1, result) := RollbackPrepared(s, faults, runtime, node, true);
            && (s1.disk == s.disk || Allowed(s.disk, runtime, node))
            && OnlyDirectory(s.disk, s1.disk, node)
            && (result.ok ==> node !in s1.disk.nodes)
  {
    if Allowed(s.disk, runtime, node) {
      var completed := ReadJournal(s.disk, node).value.completed;
      DeleteThins(s, faults, node, completed, []);
      var (s1, deleted) := DeleteArtifacts(s, faults, node, completed, true, []);
      ThinnedIsOnlyDirectory(s.disk, s1.disk, node, ArtifactBases(completed));
      RemovalIsOnlyDirectory(s.disk, s1, faults, node);
    }
  }

  /** An undisturbed rollback removes exactly the node directory. */
  lemma CleanRollback(s: Sys, runtime: set<string>, node: Name)
    requires Allowed(s.disk, runtime, node)
    ensures var (s1, result) := RollbackPrepared(s, NO_FAULTS, runtime, node, true);
            result.ok && s1.disk == s.disk.(nodes := Without(s.disk.nodes, node))
  {
    var journal := ReadJournal(s.disk, node).value;
    DeleteThins(s, NO_FAULTS, node, journal.completed, []);
    CleanDelete(s, node, journal.completed, []);
    var (s1, deleted) := DeleteArtifacts(s, NO_FAULTS, node, journal.completed, true, []);
    var dir := s1.disk.nodes[node];
    assert dir.files.Keys <= ArtifactBases(journal.completed);
    assert dir.files == map[];
    var (s2, ok) := RemoveFile(s1, NO_FAULTS, node, JournalFile);
    assert Without(s2.disk.nodes, node) == Without(s.disk.nodes, node);
  }

  lemma {:induction false} CleanDelete(s: Sys, node: Name, completed: seq<Artifact>, actions: seq<Path>)
    requires OwnArtifacts(node, completed)
    ensures DeleteArtifacts(s, NO_FAULTS, node, completed, true, actions).1.ok
    decreases |completed|
  {
    if completed != [] {
      var path, rest := completed[|completed| - 1].path, completed[..|completed| - 1];
      if Exists(s.disk, path) {
        CleanDelete(RemoveFile(s, NO_FAULTS, node, path.base).0, node, rest, actions + [path]);
      } else {
        CleanDelete(s, node, rest, actions);
      }
    }
  }

  lemma InterruptedThins(s: Sys, faults: Faults, runtime: set<string>, node: Name)
    requires Allowed(s.disk, runtime, node)
    requires var s1 := RollbackPrepared(s, faults, runtime, node, true).0;
             node in s1.disk.nodes && s1.disk.nodes[node].journal.Some?
    ensures Thinned(s.disk, RollbackPrepared(s, faults, runtime, node, true).0.disk, node,
                    ArtifactBases(ReadJournal(s.disk, node).value.completed))
  {
    var journal := ReadJournal(s.disk, node).value;
    DeleteThins(s, faults, node, journal.completed, []);
    var (s1, deleted) := DeleteArtifacts(s, faults, node, journal.completed, true, []);
    if deleted.ok {
      var (s2, ok) := RemoveFile(s1, faults, node, JournalFile);
      assert s2.disk.nodes[node].journal.Some? ==> s2.disk == s1.disk;
    }
  }

  lemma ThinnedStaysAllowed(before: Disk, after: Disk, runtime: set<string>, node: Name, bases: set<Base>)
    requires Allowed(before, runtime, node) && Thinned(before, after, node, bases)
    ensures Allowed(after, runtime, node)
    ensures after.(nodes := Without(after.nodes, node)) == before.(nodes := Without(before.nodes, node))
  {
    assert Entries(after.nodes[node]) <= Entries(before.nodes[node]);
    assert Without(after.nodes, node) == Without(before.nodes, node);
  }

  /** A rollback cut short while its journal is still there can be run again, and then ends exactly where an
      undisturbed rollback would have ended. */
  lemma RollbackRestarts(s: Sys, faults: Faults, runtime: set<string>, node: Name)
    requires Allowed(s.disk, runtime, node)
    requires var s1 := RollbackPrepared(s, faults, runtime, node, true).0;
             node in s1.disk.nodes && s1.disk.nodes[node].journal.Some?
    ensures var s1 := RollbackPrepared(s, faults, runtime, node, true).0;
            var (again, result) := RollbackPrepared(s1, NO_FAULTS, runtime, node, true);
            result.ok && again.disk == RollbackPrepared(s, NO_FAULTS, runtime, node, true).0.disk
  {
    InterruptedThins(s, faults, runtime, node);
    var s1 := RollbackPrepared(s, faults, runtime, node, true).0;
    ThinnedStaysAllowed(s.disk, s1.disk, runtime, node, ArtifactBases(ReadJournal(s.disk, node).value.completed));
    CleanRollback(s, runtime, node);
    CleanRollback(s1, runtime, node);
  }

  /** Without its journal an unfinished directory is left alone. */
  lemma NoJournalNoRollback(s: Sys, faults: Faults, runtime: set<string>, node: Name, apply: bool)
    requires ReadJournal(s.disk, node).None?
    ensures RollbackPrepared(s, faults, runtime, node, apply) == (s, RollbackResult([], false))
  {
  }
}
