/** Two stops of one destroy: one after which it can never be run again, and one after which it can. */
module DestroyStops {
  import opened Wrappers
  import opened DeploymentStore
  import opened RetainedStore
  import opened Destroy
  import opened HashInvariant
  import opened Conservation
  import opened DestroyLaws
  import opened CleanDestroy
  import opened DestroyRestart

  /** A stopped node a with one persistent disk d at its node-local path. */
  const DEFINITION := NodeDef("a", [DiskDef("d", 1, "/d", true)], "")

  const STATE := NodeState(
    "a", "uuid", Stopped, NodeHash("", DEFINITION), InNode("a", RootImage),
    [DataDisk("d", InNode("a", DataImage("d")), 1, "/d", true)], InNode("a", SeedImage), None, Invocation("/qemu", ["-m"]), 1, 1)

  const START := Disk(
    Some(Resolved("", [DEFINITION])),
    map["a" := NodeDir(Some(STATE), None, map[RootImage := 1, SeedImage := 2, DataImage("d") := 3])], {}, map[])

  const WHOLE := Request([], false, false, {}, 2)

  /** The program is killed at operation n. */
  function KilledAt(n: nat): Faults
  {
    step => if step < n then Clean else Lost
  }

  lemma StartIsSound()
    ensures Consistent(START) && RecordsOk(START) && AllHeld(START)
  {
    assert Find([DEFINITION], "a") == Some(DEFINITION);
    forall name, k: nat | RecordsDisk(START, name, k)
      ensures exists content :: AtOnePlace(START, (name, ReadNode(START, name).value.dataDisks[k].name), content)
    {
      assert AtOnePlace(START, ("a", "d"), 3);
    }
  }

  lemma StartIsPlanned()
    ensures Names(START.deployment.value.nodes) == ["a"] && Kept(["a"], ["a"]) == ["a"] && States(START, ["a"]) == [STATE]
    ensures Identities(START.deployment.value.nodes) == [Identity("a", "d", 1, "/d")]
    ensures NodeTargets(START, STATE).Some? && NodeTargets(START, STATE).value[0] == InNode("a", RootImage)
    ensures PlanDestroy(START, START.deployment.value, ["a"], WHOLE) == Some([STATE])
  {
    assert STATE.dataDisks[0].path in ExpectedFiles(STATE);
    assert NodeTargets(START, STATE).Some?;
    assert Destroyable(START, WHOLE, STATE);
    assert SourceOk(START, InNode("a", DataImage("d")));
    assert PersistentOk(START, START.deployment.value, [STATE]);
  }

  const MARKED := STATE.(phase := Destroying, updatedAt := 2)

  const IDENTITY := Identity("a", "d", 1, "/d")

  /** The deployment after its node was marked and its disk moved. */
  function Halfway(): Disk
  {
    var disk := WithState(START, MARKED);
    assert DataBase("d") in disk.nodes["a"].files;
    Moved(disk, IDENTITY)
  }

  lemma HalfwayIsReached(faults: Faults)
    requires forall n :: 0 <= n < 8 ==> faults(n) == Clean
    ensures MarkAll(Sys(START, 0), faults, [STATE], Destroying, 2) == (Sys(WithState(START, MARKED), 1), true)
    ensures PreserveAll(Sys(WithState(START, MARKED), 1), faults, STATE, [IDENTITY]) == (Sys(Halfway(), 8), true)
  {
    var s1 := Sys(WithState(START, MARKED), 1);
    assert [STATE][1..] == [] && [IDENTITY][1..] == [];
    assert SourceFor(STATE.dataDisks, "d") == Some(LocalPath(("a", "d")));
    PreserveMoves(s1, faults, IDENTITY);
  }

  lemma StartIsExecuted(faults: Faults)
    ensures NodeTargets(START, STATE).Some?
    ensures DestroySelected(Sys(START, 0), faults, WHOLE) == Execute(Sys(START, 0), faults, START.deployment.value, ["a"], [STATE], WHOLE)
  {
    StartIsPlanned();
  }

  /** A destroy of START that fails after the disk was moved leaves what the failing stage leaves. */
  lemma FailsAfterHalfway(faults: Faults, targets: seq<Path>, s: Sys)
    requires forall n :: 0 <= n < 8 ==> faults(n) == Clean
    requires NodeTargets(START, STATE) == Some(targets)
    requires var (s2, removed) := RemoveTargets(Sys(Halfway(), 8), faults, "a", targets);
             var (s3, cleaned) := Tick(s2, faults);
             if !removed then s == s2 else cleaned && RemoveNodeDir(s3, faults, "a") == (s, false)
    ensures DestroySelected(Sys(START, 0), faults, WHOLE) == (s, false)
  {
    StartIsPlanned();
    HalfwayIsReached(faults);
    var resolved, s1 := START.deployment.value, Sys(WithState(START, MARKED), 1);
    assert DestroyOne(s1, faults, STATE, targets, [IDENTITY]) == (s, false);
    assert DestroyEach(s1, faults, START, [STATE], [IDENTITY]) == (s, false);
    assert Execute(Sys(START, 0), faults, resolved, ["a"], [STATE], WHOLE) == (s, false);
    StartIsExecuted(faults);
  }

  /** Killed between the move of the disk and the first removal: the disk is in the store, the state still records its
      old path, and no destroy is accepted ever after, whatever it asks for. */
  lemma KilledAfterMoveIsRefused()
    ensures var s1 := DestroySelected(Sys(START, 0), KilledAt(8), WHOLE).0;
            && StoredFile(s1.disk, ("a", "d")) == Some(3) && LocalFile(s1.disk, ("a", "d")) == None
            && ReadNode(s1.disk, "a") == Some(MARKED)
            && (forall request :: !Restartable(s1.disk, request))
            && forall faults, request :: !DestroySelected(s1, faults, request).1
  {
    var faults := KilledAt(8);
    StartTargets();
    HalfwayEntries();
    FailsAfterHalfway(faults, TARGETS, Sys(Halfway(), 9));
    HalfwayIsRefused(Sys(Halfway(), 9), faults);
  }

  lemma HalfwayIsRefused(s1: Sys, faults: Faults)
    requires s1.disk == Halfway() && s1 == DestroySelected(Sys(START, 0), faults, WHOLE).0
    ensures StoredFile(s1.disk, ("a", "d")) == Some(3) && LocalFile(s1.disk, ("a", "d")) == None && ReadNode(s1.disk, "a") == Some(MARKED)
    ensures forall request :: !Restartable(s1.disk, request)
    ensures forall faults, request :: !DestroySelected(s1, faults, request).1
  {
    StartIsSound();
    DestroyKeepsConsistent(Sys(START, 0), faults, WHOLE);
    assert RecordsDisk(s1.disk, "a", 0) && !AtRecordedPath(s1.disk, MARKED, 0);
    forall again, request
      ensures !DestroySelected(s1, again, request).1
    {
      MovedDiskRefusesDestroy(s1, again, request, ("a", "d"), 3, 0);
    }
  }

  const TARGETS := [
    InNode("a", RootImage), InNode("a", SeedImage), InNode("a", SerialLog), InNode("a", QemuLog), InNode("a", EventLog),
    InNode("a", StateFile)]

  lemma StartTargets()
    ensures NodeTargets(START, STATE) == Some(TARGETS)
  {
    StartIsPlanned();
    assert STATE.dataDisks[1..] == [];
    assert RemovableData(STATE.dataDisks) == [] + RemovableData([]);
    assert [STATE.rootDisk] + [] + [STATE.seed] + []
           + [InNode("a", SerialLog), InNode("a", QemuLog), InNode("a", EventLog), InNode("a", StateFile)] == TARGETS;
  }

  lemma HalfwayEntries()
    ensures Entries(Halfway().nodes["a"]) == {RootImage, SeedImage, StateFile} && Halfway().nodes.Keys == {"a"}
  {
  }

  lemma AllRemoved(s: Sys, faults: Faults, name: Name, targets: seq<Path>)
    requires s.disk.nodes.Keys == {name} && Entries(s.disk.nodes[name]) <= Bases(targets)
    requires forall i :: 0 <= i < |targets| ==> InsideNode(name, targets[i])
    requires forall n :: s.clock <= n < s.clock + |targets| ==> faults(n) == Clean
    ensures var (s1, ok) := RemoveTargets(s, faults, name, targets);
            && ok && s1.clock == s.clock + |targets| && name in s1.disk.nodes && Entries(s1.disk.nodes[name]) == {}
            && s1.disk == s.disk.(nodes := map[name := s1.disk.nodes[name]])
  {
    RemoveTargetsSucceeds(s, faults, name, targets);
    var s1 := RemoveTargets(s, faults, name, targets).0;
    assert s.disk.nodes[name := s1.disk.nodes[name]] == map[name := s1.disk.nodes[name]];
  }

  lemma TargetsCoverHalfway()
    ensures Entries(Halfway().nodes["a"]) <= Bases(TARGETS) && Halfway().nodes.Keys == {"a"}
  {
    HalfwayEntries();
    assert TARGETS[0].base in Bases(TARGETS) && TARGETS[1].base in Bases(TARGETS) && TARGETS[5].base in Bases(TARGETS);
  }

  lemma EmptiedIsRestartable(disk: Disk)
    requires "a" in disk.nodes && Entries(disk.nodes["a"]) == {} && disk == Halfway().(nodes := map["a" := disk.nodes["a"]])
    ensures Restartable(disk, WHOLE)
  {
    assert disk.nodes["a"].state.None?;
    assert forall name :: ReadNode(disk, name).None?;
    StartIsPlanned();
    assert disk.retained == map[("a", "d") := RetainedDir(Some(3), Some(IDENTITY))];
    assert ("a", "d") in disk.retained;
    assert InventoryOk(disk);
  }

  lemma LastRemovalIsLost(disk: Disk, name: Name, faults: Faults)
    requires name in disk.nodes && Entries(disk.nodes[name]) == {} && faults(14) == Clean && faults(15) == Lost
    ensures Tick(Sys(disk, 14), faults) == (Sys(disk, 15), true)
    ensures RemoveNodeDir(Sys(disk, 15), faults, name) == (Sys(disk, 16), false)
  {
  }

  lemma KilledBeforeLastRemoval() returns (disk: Disk)
    ensures DestroySelected(Sys(START, 0), KilledAt(15), WHOLE) == (Sys(disk, 16), false)
    ensures "a" in disk.nodes && Entries(disk.nodes["a"]) == {} && disk == Halfway().(nodes := map["a" := disk.nodes["a"]])
  {
    var faults := KilledAt(15);
    StartTargets();
    TargetsCoverHalfway();
    AllRemoved(Sys(Halfway(), 8), faults, "a", TARGETS);
    disk := RemoveTargets(Sys(Halfway(), 8), faults, "a", TARGETS).0.disk;
    LastRemovalIsLost(disk, "a", faults);
    FailsAfterHalfway(faults, TARGETS, Sys(disk, 16));
  }

  /** Killed before the last removal, that of the empty node directory: the disk is in the store just the same, but no
      state records its old path any more, and running the destroy again completes it. */
  lemma KilledBeforeLastRemovalRestarts()
    ensures var s1 := DestroySelected(Sys(START, 0), KilledAt(15), WHOLE).0;
            && StoredFile(s1.disk, ("a", "d")) == Some(3) && "a" in s1.disk.nodes
            && Restartable(s1.disk, WHOLE) && DestroySelected(s1, NO_FAULTS, WHOLE).1
  {
    var disk := KilledBeforeLastRemoval();
    StartIsSound();
    DestroyKeepsHeld(Sys(START, 0), KilledAt(15), WHOLE);
    EmptiedIsRestartable(disk);
    DestroyIsExact(Sys(disk, 16), WHOLE);
  }
}
