/** A commit never rewrites a recorded node, and one cut short anywhere finishes when it is run again. */
module CommitLaws {
  import opened Wrappers
  import opened DeploymentStore
  import opened Commit

  // ---------------------------------------------------------------- recorded states are kept

  lemma CommitShapeKeepsStates(before: Disk, after: Disk, config: Config, artifacts: Artifacts, name: Name)
    requires CommitShape(before, after, config, artifacts) && ReadNode(before, name).Some?
    ensures ReadNode(after, name) == ReadNode(before, name)
  {
  }

  lemma CommitOneKeepsStates(s: Sys, faults: Faults, config: Config, artifacts: Artifacts, name: Name)
    requires ReadNode(s.disk, name).Some?
    ensures ReadNode(CommitOne(s, faults, config, artifacts).0.disk, name) == ReadNode(s.disk, name)
  {
    CommitOneShape(s, faults, config, artifacts);
    CommitShapeKeepsStates(s.disk, CommitOne(s, faults, config, artifacts).0.disk, config, artifacts, name);
  }

  lemma {:induction false} CommitNodesKeepsStates(s: Sys, faults: Faults, config: Config, outcomes: seq<Outcome>, done: CommitResult, name: Name)
    requires ReadNode(s.disk, name).Some?
    ensures ReadNode(CommitNodes(s, faults, config, outcomes, done).0.disk, name) == ReadNode(s.disk, name)
    decreases |outcomes|
  {
    if outcomes != [] {
      match outcomes[0].artifacts
      case None =>
        CommitNodesKeepsStates(s, faults, config, outcomes[1..], done.(failed := done.failed + [outcomes[0].node]), name);
      case Some(artifacts) =>
        CommitOneKeepsStates(s, faults, config, artifacts, name);
        var (s1, state) := CommitOne(s, faults, config, artifacts);
        if state.Some? {
          CommitNodesKeepsStates(s1, faults, config, outcomes[1..], done.(nodes := done.nodes + [state.value]), name);
        }
    }
  }

  /** Whatever is committed, by whatever configuration and with whatever faults, a recorded node keeps its state. */
  lemma CommitKeepsStates(s: Sys, faults: Faults, config: Config, outcomes: seq<Outcome>, name: Name)
    requires ReadNode(s.disk, name).Some?
    ensures ReadNode(CommitPrepared(s, faults, config, outcomes).0.disk, name) == ReadNode(s.disk, name)
  {
    var (s1, ok) := EnsureDeployment(s, faults, config.resolved);
    assert ReadNode(s1.disk, name) == ReadNode(s.disk, name);
    if ok {
      CommitNodesKeepsStates(s1, faults, config, outcomes, CommitResult([], [], true), name);
    }
  }

  // ---------------------------------------------------------------- a commit can be run again

  function SameJournalTimes(journal: Option<Journal>): Option<Journal>
  {
    if journal.Some? then Some(journal.value.(updatedAt := journal.value.startedAt)) else None
  }

  function SameStateTimes(state: Option<NodeState>): Option<NodeState>
  {
    if state.Some? then Some(state.value.(updatedAt := 0)) else None
  }

  /** A directory without the times of its last writes; a journal that is not valid is kept as it is. */
  function TimelessDir(name: Name, dir: NodeDir): NodeDir
  {
    dir.(state := SameStateTimes(dir.state),
         journal := if dir.journal.Some? && ValidJournal(name, dir.journal.value) then SameJournalTimes(dir.journal) else dir.journal)
  }

  /** The disk without the times of the last writes. */
  function Timeless(disk: Disk): Disk
  {
    disk.(nodes := map name | name in disk.nodes :: TimelessDir(name, disk.nodes[name]))
  }

  /** The undisturbed commit of one node. */
  function CleanOne(disk: Disk, config: Config, artifacts: Artifacts): (Disk, bool)
  {
    var (s, state) := CommitOne(Sys(disk, 0), NO_FAULTS, config, artifacts);
    (s.disk, state.Some?)
  }

  function CleanNodes(disk: Disk, config: Config, outcomes: seq<Outcome>): (Disk, bool)
    decreases |outcomes|
  {
    if outcomes == [] then (disk, true)
    else match outcomes[0].artifacts
      case None => CleanNodes(disk, config, outcomes[1..])
      case Some(artifacts) =>
        var (next, ok) := CleanOne(disk, config, artifacts);
        if ok then CleanNodes(next, config, outcomes[1..]) else (next, false)
  }

  lemma {:induction false} CleanNodesIsCommit(s: Sys, config: Config, outcomes: seq<Outcome>, done: CommitResult)
    ensures var (s1, result) := CommitNodes(s, NO_FAULTS, config, outcomes, done);
            CleanNodes(s.disk, config, outcomes) == (s1.disk, result.ok)
    decreases |outcomes|
  {
    if outcomes != [] {
      match outcomes[0].artifacts
      case None =>
        CleanNodesIsCommit(s, config, outcomes[1..], done.(failed := done.failed + [outcomes[0].node]));
      case Some(artifacts) =>
        var (s1, state) := CommitOne(s, NO_FAULTS, config, artifacts);
        assert CleanOne(s.disk, config, artifacts) == (s1.disk, state.Some?);
        if state.Some? {
          CleanNodesIsCommit(s1, config, outcomes[1..], done.(nodes := done.nodes + [state.value]));
        }
    }
  }

  /** The node is committed: committing it again at any later time changes only the journal's time. */
  predicate Done(disk: Disk, config: Config, artifacts: Artifacts)
  {
    var journal := ReadJournal(disk, artifacts.name);
    && journal.Some? && journal.value.committed && journal.value.startedAt <= config.now
    && StateFor(config, artifacts, journal.value).Some?
    && ReadNode(disk, artifacts.name).Some?
    && SameNode(ReadNode(disk, artifacts.name).value, StateFor(config, artifacts, journal.value).value)
  }

  predicate AllDone(disk: Disk, config: Config, outcomes: seq<Outcome>)
  {
    forall i :: 0 <= i < |outcomes| && outcomes[i].artifacts.Some? ==> Done(disk, config, outcomes[i].artifacts.value)
  }

  predicate Later(config: Config, again: Config)
  {
    again == config.(now := again.now) && config.now <= again.now
  }

  lemma TimelessWrite(disk: Disk, name: Name, dir: NodeDir)
    ensures Timeless(SetDir(disk, name, dir)) == SetDir(Timeless(disk), name, TimelessDir(name, dir))
  {
    assert Timeless(SetDir(disk, name, dir)).nodes == SetDir(Timeless(disk), name, TimelessDir(name, dir)).nodes;
  }

  lemma DoneAgain(disk: Disk, config: Config, again: Config, artifacts: Artifacts)
    requires Later(config, again) && Done(disk, config, artifacts)
    ensures var (next, ok) := CleanOne(disk, again, artifacts);
            ok && Timeless(next) == Timeless(disk)
            && forall other :: Done(disk, config, other) ==> Done(next, config, other)
  {
    var name := artifacts.name;
    var dir := disk.nodes[name];
    var journal := dir.journal.value;
    var marked := CommittedJournal(journal, name, again.now);
    var next := CleanOne(disk, again, artifacts).0;
    assert next == SetDir(disk, name, dir.(journal := Some(marked)));
    TimelessWrite(disk, name, dir.(journal := Some(marked)));
    assert TimelessDir(name, dir.(journal := Some(marked))) == TimelessDir(name, dir);
    assert SetDir(Timeless(disk), name, TimelessDir(name, dir)) == Timeless(disk);
  }

  lemma CleanMakesDone(disk: Disk, config: Config, artifacts: Artifacts)
    requires CleanOne(disk, config, artifacts).1
    ensures Done(CleanOne(disk, config, artifacts).0, config, artifacts)
  {
  }

  lemma CommitShapeKeepsDone(before: Disk, after: Disk, config: Config, artifacts: Artifacts, other: Artifacts)
    requires CommitShape(before, after, config, artifacts) && Done(before, config, other)
    ensures Done(after, config, other)
  {
    if after != before && other.name == artifacts.name {
      var journal := ReadJournal(before, other.name).value;
      assert StateFor(config, other, CommittedJournal(journal, other.name, config.now)) == StateFor(config, other, journal);
    }
  }

  lemma CommitOneKeepsDone(s: Sys, faults: Faults, config: Config, artifacts: Artifacts, other: Artifacts)
    requires Done(s.disk, config, other)
    ensures Done(CommitOne(s, faults, config, artifacts).0.disk, config, other)
  {
    CommitOneShape(s, faults, config, artifacts);
    CommitShapeKeepsDone(s.disk, CommitOne(s, faults, config, artifacts).0.disk, config, artifacts, other);
  }

  /** An interrupted commit of one node is completed by the next one. */
  lemma FaultedOne(s: Sys, faults: Faults, config: Config, artifacts: Artifacts)
    requires CleanOne(s.disk, config, artifacts).1
    ensures var (s1, state) := CommitOne(s, faults, config, artifacts);
            && (state.Some? ==> s1.disk == CleanOne(s.disk, config, artifacts).0)
            && CleanOne(s1.disk, config, artifacts) == CleanOne(s.disk, config, artifacts)
  {
    var name := artifacts.name;
    var (s1, state) := CommitOne(s, faults, config, artifacts);
    var clean := CleanOne(s.disk, config, artifacts).0;
    var journal := ReadJournal(s.disk, name).value;
    var wanted := StateFor(config, artifacts, journal).value;
    var marked := CommittedJournal(journal, name, config.now);
    var dir := s.disk.nodes[name];
    var recorded := if dir.state.Some? then dir else dir.(state := Some(wanted));
    assert clean == SetDir(s.disk, name, recorded.(journal := Some(marked)));
    assert s1.disk == s.disk || s1.disk == SetDir(s.disk, name, recorded) || s1.disk == clean;
    assert CommittedJournal(marked, name, config.now) == marked;
    assert SetDir(SetDir(s.disk, name, recorded), name, recorded.(journal := Some(marked))) == clean;
    assert SetDir(clean, name, recorded.(journal := Some(marked))) == clean;
  }

  lemma SameTimelessDir(first: Disk, second: Disk, name: Name)
    requires Timeless(first) == Timeless(second)
    ensures name in first.nodes <==> name in second.nodes
    ensures name in first.nodes ==> TimelessDir(name, first.nodes[name]) == TimelessDir(name, second.nodes[name])
  {
    assert name in first.nodes ==> name in Timeless(first).nodes && Timeless(first).nodes[name] == TimelessDir(name, first.nodes[name]);
    assert name in second.nodes ==> name in Timeless(second).nodes && Timeless(second).nodes[name] == TimelessDir(name, second.nodes[name]);
  }

  /** Disks that differ in times only commit one node alike. */
  lemma CleanOneSame(first: Disk, second: Disk, config: Config, again: Config, artifacts: Artifacts)
    requires Later(config, again) && Timeless(first) == Timeless(second) && CleanOne(first, config, artifacts).1
    ensures CleanOne(second, again, artifacts).1
    ensures Timeless(CleanOne(second, again, artifacts).0) == Timeless(CleanOne(first, config, artifacts).0)
  {
    var name := artifacts.name;
    SameTimelessDir(first, second, name);
    var one, two := first.nodes[name], second.nodes[name];
    var journal := one.journal.value;
    assert two.journal.Some? && ValidJournal(name, two.journal.value);
    var wanted := StateFor(config, artifacts, journal).value;
    var later := StateFor(again, artifacts, two.journal.value).value;
    assert later == wanted.(updatedAt := again.now);
    var dirOne := (if one.state.Some? then one else one.(state := Some(wanted))).(journal := Some(CommittedJournal(journal, name, config.now)));
    var dirTwo := (if two.state.Some? then two else two.(state := Some(later))).(journal := Some(CommittedJournal(two.journal.value, name, again.now)));
    assert CleanOne(first, config, artifacts).0 == SetDir(first, name, dirOne);
    assert CleanOne(second, again, artifacts).0 == SetDir(second, name, dirTwo);
    TimelessWrite(first, name, dirOne);
    TimelessWrite(second, name, dirTwo);
    assert TimelessDir(name, dirOne) == TimelessDir(name, dirTwo);
  }

  lemma {:induction false} CleanNodesSame(first: Disk, second: Disk, config: Config, again: Config, outcomes: seq<Outcome>)
    requires Later(config, again) && Timeless(first) == Timeless(second) && CleanNodes(first, config, outcomes).1
    ensures CleanNodes(second, again, outcomes).1
    ensures Timeless(CleanNodes(second, again, outcomes).0) == Timeless(CleanNodes(first, config, outcomes).0)
    decreases |outcomes|
  {
    if outcomes != [] {
      match outcomes[0].artifacts
      case None =>
        CleanNodesSame(first, second, config, again, outcomes[1..]);
      case Some(artifacts) =>
        CleanOneSame(first, second, config, again, artifacts);
        CleanNodesSame(CleanOne(first, config, artifacts).0, CleanOne(second, again, artifacts).0, config, again, outcomes[1..]);
    }
  }

  /** Committed nodes at the front of the list are passed over. */
  lemma {:induction false} PassDone(disk: Disk, config: Config, again: Config, front: seq<Outcome>, rest: seq<Outcome>) returns (next: Disk)
    requires Later(config, again) && AllDone(disk, config, front)
    ensures Timeless(next) == Timeless(disk)
    ensures CleanNodes(disk, again, front + rest) == CleanNodes(next, again, rest)
    decreases |front|
  {
    if front == [] {
      next := disk;
      assert front + rest == rest;
    } else {
      assert (front + rest)[0] == front[0] && (front + rest)[1..] == front[1..] + rest;
      match front[0].artifacts
      case None =>
        assert AllDone(disk, config, front[1..]);
        next := PassDone(disk, config, again, front[1..], rest);
      case Some(artifacts) =>
        assert Done(disk, config, artifacts);
        DoneAgain(disk, config, again, artifacts);
        var passed := CleanOne(disk, again, artifacts).0;
        assert AllDone(passed, config, front[1..]);
        next := PassDone(passed, config, again, front[1..], rest);
    }
  }

  lemma AllDoneExtends(disk: Disk, next: Disk, config: Config, front: seq<Outcome>, last: Outcome)
    requires AllDone(disk, config, front)
    requires forall artifacts :: Done(disk, config, artifacts) ==> Done(next, config, artifacts)
    requires last.artifacts.Some? ==> Done(next, config, last.artifacts.value)
    ensures AllDone(next, config, front + [last])
  {
    forall i | 0 <= i < |front + [last]| && (front + [last])[i].artifacts.Some?
      ensures Done(next, config, (front + [last])[i].artifacts.value)
    {
      if i < |front| {
        assert Done(disk, config, front[i].artifacts.value);
      }
    }
  }

  lemma {:induction false} NodesRestart(front: seq<Outcome>, s: Sys, faults: Faults, config: Config, again: Config, outcomes: seq<Outcome>, done: CommitResult)
    requires Later(config, again) && AllDone(s.disk, config, front) && CleanNodes(s.disk, config, outcomes).1
    ensures var after := CommitNodes(s, faults, config, outcomes, done).0.disk;
            var (finished, ok) := CleanNodes(after, again, front + outcomes);
            ok && Timeless(finished) == Timeless(CleanNodes(s.disk, config, outcomes).0)
    decreases |outcomes|
  {
    if outcomes == [] {
      var next := PassDone(s.disk, config, again, front, []);
    } else {
      var first, rest := outcomes[0], outcomes[1..];
      assert front + outcomes == (front + [first]) + rest;
      match first.artifacts
      case None =>
        AllDoneExtends(s.disk, s.disk, config, front, first);
        NodesRestart(front + [first], s, faults, config, again, rest, done.(failed := done.failed + [first.node]));
      case Some(artifacts) =>
        FaultedOne(s, faults, config, artifacts);
        CleanMakesDone(s.disk, config, artifacts);
        var (s1, state) := CommitOne(s, faults, config, artifacts);
        forall other | Done(s.disk, config, other)
          ensures Done(s1.disk, config, other)
        {
          CommitOneKeepsDone(s, faults, config, artifacts, other);
        }
        if state.Some? {
          AllDoneExtends(s.disk, s1.disk, config, front, first);
          NodesRestart(front + [first], s1, faults, config, again, rest, done.(nodes := done.nodes + [state.value]));
        } else {
          var next := PassDone(s1.disk, config, again, front, outcomes);
          CleanNodesSame(s1.disk, next, config, again, outcomes);
        }
    }
  }

  /** A commit that would succeed undisturbed, cut short anywhere by any faults, succeeds when it is run again
      later, and leaves what the undisturbed commit would have left, up to the times of the last writes. */
  lemma CommitRestarts(s: Sys, faults: Faults, config: Config, again: Config, outcomes: seq<Outcome>)
    requires Later(config, again)
    requires CommitPrepared(s, NO_FAULTS, config, outcomes).1.ok
    ensures var s1 := CommitPrepared(s, faults, config, outcomes).0;
            var (s2, result) := CommitPrepared(s1, NO_FAULTS, again, outcomes);
            && result.ok
            && Timeless(s2.disk) == Timeless(CommitPrepared(s, NO_FAULTS, config, outcomes).0.disk)
            && forall name :: ReadNode(s1.disk, name).Some? ==> ReadNode(s2.disk, name) == ReadNode(s1.disk, name)
  {
    var start := CommitResult([], [], true);
    var s1 := CommitPrepared(s, faults, config, outcomes).0;
    var clean := EnsureDeployment(s, NO_FAULTS, config.resolved).0;
    CleanNodesIsCommit(clean, config, outcomes, start);
    var (ensured, ok) := EnsureDeployment(s, faults, config.resolved);
    if ok {
      assert ensured.disk == clean.disk;
      NodesRestart([], ensured, faults, config, again, outcomes, start);
      assert [] + outcomes == outcomes;
      CommitKeepsDeployment(ensured, faults, config, outcomes, start);
      CleanNodesIsCommit(s1, again, outcomes, start);
    } else {
      var retried := EnsureDeployment(s1, NO_FAULTS, again.resolved).0;
      assert retried.disk == clean.disk;
      CleanNodesSame(clean.disk, retried.disk, config, again, outcomes);
      CleanNodesIsCommit(retried, again, outcomes, start);
    }
    forall name | ReadNode(s1.disk, name).Some?
      ensures ReadNode(CommitPrepared(s1, NO_FAULTS, again, outcomes).0.disk, name) == ReadNode(s1.disk, name)
    {
      CommitKeepsStates(s1, NO_FAULTS, again, outcomes, name);
    }
  }

  lemma {:induction false} CommitKeepsDeployment(s: Sys, faults: Faults, config: Config, outcomes: seq<Outcome>, done: CommitResult)
    ensures CommitNodes(s, faults, config, outcomes, done).0.disk.deployment == s.disk.deployment
    decreases |outcomes|
  {
    if outcomes != [] {
      match outcomes[0].artifacts
      case None =>
        CommitKeepsDeployment(s, faults, config, outcomes[1..], done.(failed := done.failed + [outcomes[0].node]));
      case Some(artifacts) =>
        var (s1, state) := CommitOne(s, faults, config, artifacts);
        if state.Some? {
          CommitKeepsDeployment(s1, faults, config, outcomes[1..], done.(nodes := done.nodes + [state.value]));
        }
    }
  }
}
