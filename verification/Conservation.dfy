/** Every persistent disk survives every destroy, at exactly one place. */
module Conservation {
  import opened Wrappers
  import opened Collections
  import opened DeploymentStore
  import opened RetainedStore
  import opened Destroy
  import opened HashInvariant

  function LocalPath(key: Key): Path { InNode(key.0, DataBase(key.1)) }

  function StorePath(key: Key): Path { InStore(key.0, key.1) }

  /** The file at the disk's node-local path, and the one at its retained path. */
  function LocalFile(disk: Disk, key: Key): Option<FileId>
  {
    if key.0 in disk.nodes && DataBase(key.1) in disk.nodes[key.0].files
    then Some(disk.nodes[key.0].files[DataBase(key.1)]) else None
  }

  function StoredFile(disk: Disk, key: Key): Option<FileId>
  {
    if key in disk.retained then disk.retained[key].image else None
  }

  /** The disk's content is at exactly one of its two places. */
  predicate AtOnePlace(disk: Disk, key: Key, content: FileId)
  {
    || (LocalFile(disk, key) == Some(content) && StoredFile(disk, key) == None)
    || (LocalFile(disk, key) == None && StoredFile(disk, key) == Some(content))
  }

  /** A node-local disk is recorded as persistent by a state, which keeps every deletion away from it. */
  predicate Guarded(disk: Disk, key: Key)
  {
    && ReadNode(disk, key.0).Some?
    && exists k :: 0 <= k < |ReadNode(disk, key.0).value.dataDisks|
         && ReadNode(disk, key.0).value.dataDisks[k].name == key.1 && ReadNode(disk, key.0).value.dataDisks[k].persistent
  }

  predicate Held(disk: Disk, key: Key, content: FileId)
  {
    AtOnePlace(disk, key, content) && (LocalFile(disk, key).Some? ==> Guarded(disk, key))
  }

  /** The recorded data disks are those of the definition that the state was hashed with. */
  predicate AsDeclared(data: seq<DataDisk>, disks: seq<DiskDef>)
  {
    && |data| == |disks|
    && forall k :: 0 <= k < |data| ==>
         && data[k].name == disks[k].name && data[k].size == disks[k].size && data[k].mount == disks[k].mount
         && data[k].persistent == disks[k].persistent
  }

  /** The paths and disks that preparing a node records in its state. */
  predicate RecordOk(state: NodeState)
  {
    && AsDeclared(state.dataDisks, state.specHash.node.disks)
    && state.rootDisk == InNode(state.node, RootImage) && state.seed == InNode(state.node, SeedImage)
    && (state.nvram.Some? ==> state.nvram.value == InNode(state.node, NvramImage))
    && (forall i, j :: 0 <= i < j < |state.dataDisks| ==> state.dataDisks[i].name != state.dataDisks[j].name)
    && forall k :: 0 <= k < |state.dataDisks| ==>
         var data := state.dataDisks[k];
         && data.name != "root"
         && (data.path == LocalPath((state.node, data.name)) || (data.persistent && data.path == StorePath((state.node, data.name))))
  }

  ghost predicate RecordsOk(disk: Disk)
  {
    forall name :: ReadNode(disk, name).Some? ==> RecordOk(ReadNode(disk, name).value)
  }

  lemma LocalPathsDiffer(first: Key, second: Key)
    ensures LocalPath(first) == LocalPath(second) && first.1 != "root" && second.1 != "root" ==> first == second
  {
  }

  // ---------------------------------------------------------------- preserving one disk

  /** The two places of a disk are as they were. */
  predicate SamePlaces(before: Disk, after: Disk, key: Key)
  {
    LocalFile(after, key) == LocalFile(before, key) && StoredFile(after, key) == StoredFile(before, key)
  }

  lemma CleanupKeepsPlaces(s: Sys, faults: Faults, own: Key, key: Key)
    ensures SamePlaces(s.disk, CleanupParents(s, faults, own).disk, key)
  {
    var s1 := RemoveEmptyDir(s, faults, own);
    assert SamePlaces(s.disk, s1.disk, key);
  }

  lemma UndoKeepsDisk(s: Sys, faults: Faults, own: Key, key: Key, content: FileId)
    requires AtOnePlace(s.disk, key, content) && own.1 != "root" && key.1 != "root"
    ensures AtOnePlace(Undo(s, faults, LocalPath(own), own).disk, key, content)
    ensures own != key ==> SamePlaces(s.disk, Undo(s, faults, LocalPath(own), own).disk, key)
  {
    var s1 := DropMarker(s, faults, own);
    assert SamePlaces(s.disk, s1.disk, key);
    var s2 := MoveBack(s1, faults, LocalPath(own), own);
    assert AtOnePlace(s2.disk, key, content) && (own != key ==> SamePlaces(s1.disk, s2.disk, key)) by {
      LocalPathsDiffer(own, key);
    }
    CleanupKeepsPlaces(s2, faults, own, key);
  }

  lemma PublishKeepsDisk(s: Sys, faults: Faults, identity: Identity, key: Key, content: FileId)
    requires AtOnePlace(s.disk, key, content) && identity.name != "root" && key.1 != "root"
    requires KeyOf(identity) in s.disk.retained
    ensures AtOnePlace(Publish(s, faults, identity, LocalPath(KeyOf(identity))).0.disk, key, content)
    ensures Publish(s, faults, identity, LocalPath(KeyOf(identity))).1 || KeyOf(identity) != key ==>
              SamePlaces(s.disk, Publish(s, faults, identity, LocalPath(KeyOf(identity))).0.disk, key)
  {
    var own := KeyOf(identity);
    var (s1, narrowed) := Tick(s, faults);
    var (s2, synced) := if narrowed then Tick(s1, faults) else (s1, false);
    var marked := SetRetained(s.disk, own, s.disk.retained[own].(marker := Some(identity)));
    var (s3, published) := if synced then Apply(s2, faults, marked) else (s2, false);
    assert SamePlaces(s.disk, s3.disk, key);
    if !published {
      UndoKeepsDisk(s3, faults, own, key, content);
    }
  }

  lemma MovedInKeepsDisk(disk: Disk, own: Key, key: Key, content: FileId)
    requires AtOnePlace(disk, key, content) && own.1 != "root" && key.1 != "root"
    requires SourceOk(disk, LocalPath(own)) && own in disk.retained && disk.retained[own].image == None
    ensures AtOnePlace(MovedIn(disk, LocalPath(own), own), key, content)
    ensures own == key ==> StoredFile(MovedIn(disk, LocalPath(own), own), key) == Some(content)
    ensures own != key ==> SamePlaces(disk, MovedIn(disk, LocalPath(own), own), key)
  {
    LocalPathsDiffer(own, key);
  }

  lemma RelocateKeepsDisk(s: Sys, faults: Faults, identity: Identity, key: Key, content: FileId)
    requires AtOnePlace(s.disk, key, content) && identity.name != "root" && key.1 != "root"
    requires var own := KeyOf(identity);
             SourceOk(s.disk, LocalPath(own)) && own in s.disk.retained && s.disk.retained[own].image == None
    ensures var (s1, ok) := Relocate(s, faults, identity, LocalPath(KeyOf(identity)));
            && AtOnePlace(s1.disk, key, content)
            && (ok && KeyOf(identity) == key ==> StoredFile(s1.disk, key) == Some(content))
            && (KeyOf(identity) != key ==> SamePlaces(s.disk, s1.disk, key))
  {
    var own := KeyOf(identity);
    MovedInKeepsDisk(s.disk, own, key, content);
    var (s1, moved) := Apply(s, faults, MovedIn(s.disk, LocalPath(own), own));
    if moved {
      PublishKeepsDisk(s1, faults, identity, key, content);
    } else {
      CleanupKeepsPlaces(s1, faults, own, key);
    }
  }

  /** Preserving any disk, with any fault, keeps every disk at one place; on success its own disk is retained. */
  lemma PreserveKeepsDisk(s: Sys, faults: Faults, identity: Identity, source: Path, key: Key, content: FileId)
    requires AtOnePlace(s.disk, key, content) && identity.name != "root" && key.1 != "root"
    requires source == LocalPath(KeyOf(identity)) || source == StorePath(KeyOf(identity))
    ensures var (s1, ok) := Preserve(s, faults, identity, source);
            && AtOnePlace(s1.disk, key, content)
            && (ok && KeyOf(identity) == key ==> StoredFile(s1.disk, key) == Some(content))
            && (KeyOf(identity) != key ==> SamePlaces(s.disk, s1.disk, key))
            && (StoredFile(s.disk, key).Some? ==> SamePlaces(s.disk, s1.disk, key))
  {
    var own := KeyOf(identity);
    if InventoryOk(s.disk) && own !in s.disk.retained && SourceOk(s.disk, source) && source.InNode? {
      var (s1, made) := MakeDirs(s, faults, own);
      assert SamePlaces(s.disk, s1.disk, key);
      if made {
        RelocateKeepsDisk(s1, faults, identity, key, content);
      }
    }
  }

  // ---------------------------------------------------------------- one node

  lemma {:induction false} SourceIsRecorded(disks: seq<DataDisk>, name: string)
    requires SourceFor(disks, name).Some?
    ensures exists k :: 0 <= k < |disks| && disks[k].name == name && SourceFor(disks, name) == Some(disks[k].path)
  {
    if disks[0].name != name {
      SourceIsRecorded(disks[1..], name);
      var k :| 0 <= k < |disks[1..]| && disks[1..][k].name == name && SourceFor(disks[1..], name) == Some(disks[1..][k].path);
      assert disks[k + 1] == disks[1..][k];
    }
  }

  lemma {:induction false} PreserveAllKeepsDisk(s: Sys, faults: Faults, node: NodeState, identities: seq<Identity>, key: Key, content: FileId)
    requires AtOnePlace(s.disk, key, content) && key.1 != "root" && RecordOk(node)
    ensures var (s1, ok) := PreserveAll(s, faults, node, identities);
            && AtOnePlace(s1.disk, key, content)
            && (ok && key.0 == node.node && (exists i :: 0 <= i < |identities| && KeyOf(identities[i]) == key) ==>
                  StoredFile(s1.disk, key) == Some(content))
            && (StoredFile(s.disk, key) == Some(content) ==> StoredFile(s1.disk, key) == Some(content))
    decreases |identities|
  {
    if identities != [] {
      var rest := identities[1..];
      if identities[0].node != node.node {
        PreserveAllKeepsDisk(s, faults, node, rest, key, content);
        ShiftIdentity(identities, key);
      } else if SourceFor(node.dataDisks, identities[0].name).Some? {
        var source := SourceFor(node.dataDisks, identities[0].name).value;
        SourceIsRecorded(node.dataDisks, identities[0].name);
        PreserveKeepsDisk(s, faults, identities[0], source, key, content);
        var (s1, ok) := Preserve(s, faults, identities[0], source);
        if ok {
          PreserveAllKeepsDisk(s1, faults, node, rest, key, content);
          ShiftIdentity(identities, key);
        }
      }
    }
  }

  lemma ShiftIdentity(identities: seq<Identity>, key: Key)
    requires identities != []
    ensures (exists i :: 0 <= i < |identities| && KeyOf(identities[i]) == key)
            ==> KeyOf(identities[0]) == key || exists i :: 0 <= i < |identities[1..]| && KeyOf(identities[1..][i]) == key
  {
    forall i | 1 <= i < |identities| && KeyOf(identities[i]) == key
      ensures KeyOf(identities[1..][i - 1]) == key
    {
    }
  }

  /** The removal list of a node never names one of its persistent disks, in either place. */
  lemma TargetsSparePersistent(disk: Disk, node: NodeState, k: nat)
    requires RecordOk(node) && k < |node.dataDisks| && node.dataDisks[k].persistent
    requires NodeTargets(disk, node).Some?
    ensures LocalPath((node.node, node.dataDisks[k].name)) !in NodeTargets(disk, node).value
    ensures StorePath((node.node, node.dataDisks[k].name)) !in NodeTargets(disk, node).value
  {
    RemovableSparesPersistent(node.dataDisks, node.node, node.dataDisks[k].name);
    forall i | 0 <= i < |node.dataDisks| && !node.dataDisks[i].persistent
      ensures node.dataDisks[i].name != node.dataDisks[k].name
    {
      assert i != k;
      if i < k {
        assert node.dataDisks[i].name != node.dataDisks[k].name;
      } else {
        assert node.dataDisks[k].name != node.dataDisks[i].name;
      }
    }
  }

  lemma {:induction false} RemovableSparesPersistent(disks: seq<DataDisk>, node: Name, name: string)
    ensures forall path :: path in RemovableData(disks) ==>
              exists i :: 0 <= i < |disks| && !disks[i].persistent && disks[i].path == path
  {
    if disks != [] {
      RemovableSparesPersistent(disks[1..], node, name);
      forall path | path in RemovableData(disks)
        ensures exists i :: 0 <= i < |disks| && !disks[i].persistent && disks[i].path == path
      {
        if path in RemovableData(disks[1..]) {
          var i :| 0 <= i < |disks[1..]| && !disks[1..][i].persistent && disks[1..][i].path == path;
          assert disks[i + 1] == disks[1..][i];
        } else {
          assert disks[0].path == path;
        }
      }
    }
  }

  lemma {:induction false} RemoveTargetsKeepsDisk(s: Sys, faults: Faults, node: Name, targets: seq<Path>, key: Key)
    requires key.0 == node ==> LocalPath(key) !in targets
    ensures SamePlaces(s.disk, RemoveTargets(s, faults, node, targets).0.disk, key)
    decreases |targets|
  {
    if targets != [] {
      var (s1, ok) := RemoveTarget(s, faults, node, targets[0]);
      assert SamePlaces(s.disk, s1.disk, key) by {
        if InsideNode(node, targets[0]) && Exists(s.disk, targets[0]) && key.0 == node {
          assert targets[0] in targets && targets[0].base != DataBase(key.1);
        }
      }
      if ok {
        RemoveTargetsKeepsDisk(s1, faults, node, targets[1..], key);
      }
    }
  }

  // ---------------------------------------------------------------- whole destroys

  /** No directory but this node's differs. */
  ghost predicate OnlyNode(before: Disk, after: Disk, node: Name)
  {
    && after.nodes.Keys <= before.nodes.Keys
    && forall other :: other != node && other in before.nodes ==> other in after.nodes && after.nodes[other] == before.nodes[other]
  }

  lemma {:induction false} PreserveAllTouches(s: Sys, faults: Faults, node: NodeState, identities: seq<Identity>)
    requires RecordOk(node)
    ensures TouchesFiles(s.disk, PreserveAll(s, faults, node, identities).0.disk, node.node)
    decreases |identities|
  {
    if identities != [] {
      if identities[0].node != node.node {
        PreserveAllTouches(s, faults, node, identities[1..]);
      } else if SourceFor(node.dataDisks, identities[0].name).Some? {
        var source := SourceFor(node.dataDisks, identities[0].name).value;
        SourceIsRecorded(node.dataDisks, identities[0].name);
        PreserveTouches(s, faults, identities[0], source, node.node);
        var (s1, ok) := Preserve(s, faults, identities[0], source);
        if ok {
          PreserveAllTouches(s1, faults, node, identities[1..]);
          TouchesTransitive(s.disk, s1.disk, PreserveAll(s1, faults, node, identities[1..]).0.disk, node.node);
        }
      }
    }
  }

  lemma PreserveAllOnlyNode(s: Sys, faults: Faults, node: NodeState, identities: seq<Identity>)
    requires RecordOk(node)
    ensures var s1 := PreserveAll(s, faults, node, identities).0;
            OnlyNode(s.disk, s1.disk, node.node) && ReadNode(s1.disk, node.node) == ReadNode(s.disk, node.node)
  {
    PreserveAllTouches(s, faults, node, identities);
    TouchesSettles(s.disk, PreserveAll(s, faults, node, identities).0.disk, node.node);
  }

  lemma {:induction false} RemoveTargetsOnlyNode(s: Sys, faults: Faults, node: Name, targets: seq<Path>)
    ensures OnlyNode(s.disk, RemoveTargets(s, faults, node, targets).0.disk, node)
    decreases |targets|
  {
    if targets != [] {
      var (s1, ok) := RemoveTarget(s, faults, node, targets[0]);
      assert OnlyNode(s.disk, s1.disk, node);
      if ok {
        RemoveTargetsOnlyNode(s1, faults, node, targets[1..]);
      }
    }
  }

  lemma {:induction false} RemoveTargetsKeepsStored(s: Sys, faults: Faults, node: Name, targets: seq<Path>, key: Key)
    requires LocalFile(s.disk, key) == None
    ensures SamePlaces(s.disk, RemoveTargets(s, faults, node, targets).0.disk, key)
    decreases |targets|
  {
    if targets != [] {
      var (s1, ok) := RemoveTarget(s, faults, node, targets[0]);
      assert SamePlaces(s.disk, s1.disk, key);
      if ok {
        RemoveTargetsKeepsStored(s1, faults, node, targets[1..], key);
      }
    }
  }

  /** The identities cover every persistent disk that the node's state records. */
  ghost predicate Covers(identities: seq<Identity>, node: NodeState)
  {
    forall k :: 0 <= k < |node.dataDisks| && node.dataDisks[k].persistent ==>
      Identity(node.node, node.dataDisks[k].name, node.dataDisks[k].size, node.dataDisks[k].mount) in identities
  }

  lemma CoveredKey(identities: seq<Identity>, node: NodeState, k: nat)
    requires Covers(identities, node) && k < |node.dataDisks| && node.dataDisks[k].persistent
    ensures exists i :: 0 <= i < |identities| && KeyOf(identities[i]) == (node.node, node.dataDisks[k].name)
  {
    var identity := Identity(node.node, node.dataDisks[k].name, node.dataDisks[k].size, node.dataDisks[k].mount);
    var i :| 0 <= i < |identities| && identities[i] == identity;
    assert KeyOf(identities[i]) == (node.node, node.dataDisks[k].name);
  }

  /** After the preservation stage: every disk is still held, and this node's held disks are in the store. */
  lemma PreservedIsHeld(s: Sys, faults: Faults, node: NodeState, identities: seq<Identity>, key: Key, content: FileId)
    requires Held(s.disk, key, content) && key.1 != "root" && RecordOk(node) && Covers(identities, node)
    requires ReadNode(s.disk, node.node).Some? && SameRecord(ReadNode(s.disk, node.node).value, node)
    ensures var (s1, ok) := PreserveAll(s, faults, node, identities);
            && Held(s1.disk, key, content)
            && (ok && key.0 == node.node ==> LocalFile(s1.disk, key) == None)
  {
    var (s1, ok) := PreserveAll(s, faults, node, identities);
    PreserveAllOnlyNode(s, faults, node, identities);
    PreserveAllKeepsDisk(s, faults, node, identities, key, content);
    assert Held(s1.disk, key, content) by {
      assert LocalFile(s1.disk, key).Some? ==> LocalFile(s.disk, key).Some?;
    }
    if key.0 == node.node && LocalFile(s.disk, key).Some? {
      var k :| 0 <= k < |node.dataDisks| && node.dataDisks[k].name == key.1 && node.dataDisks[k].persistent;
      CoveredKey(identities, node, k);
    }
  }

  lemma RemovedIsHeld(s: Sys, faults: Faults, node: Name, targets: seq<Path>, key: Key, content: FileId)
    requires Held(s.disk, key, content) && (key.0 == node ==> LocalFile(s.disk, key) == None)
    ensures var s1 := RemoveTargets(s, faults, node, targets).0;
            Held(s1.disk, key, content) && (key.0 == node ==> LocalFile(s1.disk, key) == None)
  {
    RemoveTargetsOnlyNode(s, faults, node, targets);
    if key.0 == node {
      RemoveTargetsKeepsStored(s, faults, node, targets, key);
    } else {
      RemoveTargetsKeepsDisk(s, faults, node, targets, key);
    }
  }

  lemma RemovedDirIsHeld(s: Sys, faults: Faults, node: Name, key: Key, content: FileId)
    requires Held(s.disk, key, content)
    ensures Held(RemoveNodeDir(s, faults, node).0.disk, key, content)
  {
  }

  lemma DestroyOneOnlyNode(s: Sys, faults: Faults, node: NodeState, targets: seq<Path>, identities: seq<Identity>)
    requires RecordOk(node)
    ensures OnlyNode(s.disk, DestroyOne(s, faults, node, targets, identities).0.disk, node.node)
  {
    PreserveAllOnlyNode(s, faults, node, identities);
    var (s1, preserved) := PreserveAll(s, faults, node, identities);
    RemoveTargetsOnlyNode(s1, faults, node.node, targets);
  }

  /** Destroying one node, interrupted anywhere, keeps every held disk held. */
  lemma DestroyOneKeepsDisk(s: Sys, faults: Faults, node: NodeState, targets: seq<Path>, identities: seq<Identity>, key: Key, content: FileId)
    requires Held(s.disk, key, content) && key.1 != "root" && RecordOk(node) && Covers(identities, node)
    requires ReadNode(s.disk, node.node).Some? && SameRecord(ReadNode(s.disk, node.node).value, node)
    ensures Held(DestroyOne(s, faults, node, targets, identities).0.disk, key, content)
  {
    PreservedIsHeld(s, faults, node, identities, key, content);
    var (s1, preserved) := PreserveAll(s, faults, node, identities);
    if preserved {
      RemovedIsHeld(s1, faults, node.node, targets, key, content);
      var (s2, removed) := RemoveTargets(s1, faults, node.node, targets);
      if removed {
        var (s3, cleaned) := Tick(s2, faults);
        assert s3.disk == s2.disk;
        RemovedDirIsHeld(s3, faults, node.node, key, content);
      }
    }
  }

  lemma {:induction false} DestroyEachKeepsDisk(s: Sys, faults: Faults, validated: Disk, nodes: seq<NodeState>, identities: seq<Identity>, key: Key, content: FileId)
    requires forall i :: 0 <= i < |nodes| ==> NodeTargets(validated, nodes[i]).Some?
    requires Held(s.disk, key, content) && key.1 != "root" && Recorded(s.disk, nodes)
    requires forall i :: 0 <= i < |nodes| ==> RecordOk(nodes[i]) && Covers(identities, nodes[i])
    requires forall i, j :: 0 <= i < j < |nodes| ==> nodes[i].node != nodes[j].node
    ensures Held(DestroyEach(s, faults, validated, nodes, identities).0.disk, key, content)
    decreases |nodes|
  {
    if nodes != [] {
      var targets := NodeTargets(validated, nodes[0]).value;
      DestroyOneKeepsDisk(s, faults, nodes[0], targets, identities, key, content);
      DestroyOneOnlyNode(s, faults, nodes[0], targets, identities);
      var (s1, ok) := DestroyOne(s, faults, nodes[0], targets, identities);
      if ok {
        forall i | 0 <= i < |nodes[1..]|
          ensures ReadNode(s1.disk, nodes[1..][i].node).Some? && SameRecord(ReadNode(s1.disk, nodes[1..][i].node).value, nodes[1..][i])
        {
          assert nodes[1..][i] == nodes[i + 1] && nodes[0].node != nodes[i + 1].node;
        }
        DestroyEachKeepsDisk(s1, faults, validated, nodes[1..], identities, key, content);
      }
    }
  }

  lemma RelabelsKeepsHeld(before: Disk, after: Disk, key: Key, content: FileId)
    requires Relabels(before, after) && Held(before, key, content)
    ensures Held(after, key, content)
  {
    if key.0 in before.nodes {
      assert after.nodes[key.0].files == before.nodes[key.0].files;
      if ReadNode(before, key.0).Some? {
        assert ReadNode(after, key.0).Some?;
        assert SameRecord(ReadNode(before, key.0).value, ReadNode(after, key.0).value);
      }
    }
  }

  lemma RelabelsKeepsRecordsOk(before: Disk, after: Disk)
    requires Relabels(before, after) && RecordsOk(before)
    ensures RecordsOk(after)
  {
  }

  lemma DistinctCons<T>(head: T, tail: seq<T>)
    ensures Distinct([head] + tail) <==> head !in tail && Distinct(tail)
  {
    var all := [head] + tail;
    assert forall i :: 0 <= i < |tail| ==> tail[i] == all[i + 1];
    if head in tail {
      var i :| 0 <= i < |tail| && tail[i] == head;
      assert all[0] == all[i + 1];
    }
    if Distinct(all) {
      forall i, j | 0 <= i < j < |tail|
        ensures tail[i] != tail[j]
      {
        assert all[i + 1] != all[j + 1];
      }
    }
  }

  lemma {:induction false} StatesAreDistinct(disk: Disk, names: seq<Name>)
    requires Consistent(disk) && Distinct(names)
    ensures forall state :: state in States(disk, names) ==> state.node in names && ReadNode(disk, state.node) == Some(state)
    ensures Distinct(States(disk, names))
  {
    if names != [] {
      assert names == [names[0]] + names[1..];
      DistinctCons(names[0], names[1..]);
      StatesAreDistinct(disk, names[1..]);
      var rest := States(disk, names[1..]);
      if ReadNode(disk, names[0]).Some? {
        DistinctCons(ReadNode(disk, names[0]).value, rest);
      } else {
        assert States(disk, names) == rest;
      }
    }
  }

  lemma {:induction false} KeptIsDistinct(names: seq<Name>, selected: seq<Name>)
    requires Distinct(names)
    ensures Distinct(Kept(names, selected))
    ensures forall name :: name in Kept(names, selected) ==> name in names
  {
    if names != [] {
      assert names == [names[0]] + names[1..];
      DistinctCons(names[0], names[1..]);
      KeptIsDistinct(names[1..], selected);
      var rest := Kept(names[1..], selected);
      if names[0] in selected {
        DistinctCons(names[0], rest);
      } else {
        assert Kept(names, selected) == rest;
      }
    }
  }

  /** What a plan guarantees about the nodes it destroys. */
  lemma PlanFacts(disk: Disk, resolved: Resolved, selected: seq<Name>, request: Request)
    requires Consistent(disk) && RecordsOk(disk) && disk.deployment == Some(resolved)
    requires PlanDestroy(disk, resolved, selected, request).Some?
    ensures var nodes := PlanDestroy(disk, resolved, selected, request).value;
            && Recorded(disk, nodes)
            && (forall i, j :: 0 <= i < j < |nodes| ==> nodes[i].node != nodes[j].node)
            && forall i :: 0 <= i < |nodes| ==> RecordOk(nodes[i]) && Covers(Identities(resolved.nodes), nodes[i])
  {
    var nodes := PlanDestroy(disk, resolved, selected, request).value;
    var names := Names(resolved.nodes);
    assert Distinct(names);
    KeptIsDistinct(names, selected);
    StatesAreDistinct(disk, Kept(names, selected));
    StatesAreRecorded(disk, Kept(names, selected));
    var all := States(disk, names);
    forall i, j | 0 <= i < j < |nodes|
      ensures nodes[i].node != nodes[j].node
    {
      assert nodes[i] in nodes && nodes[j] in nodes && nodes[i] != nodes[j];
    }
    forall i | 0 <= i < |nodes|
      ensures RecordOk(nodes[i]) && Covers(Identities(resolved.nodes), nodes[i])
    {
      assert nodes[i] in nodes && nodes[i].node in names;
      StatesCover(disk, names, nodes[i].node);
      var j :| 0 <= j < |all| && all[j] == nodes[i];
    }
  }

  lemma ConcludeKeepsDisk(s: Sys, faults: Faults, resolved: Resolved, selected: seq<Name>, dropFromSpec: bool, key: Key, content: FileId)
    requires Held(s.disk, key, content)
    ensures Held(Conclude(s, faults, resolved, selected, dropFromSpec).0.disk, key, content)
  {
    var after := Conclude(s, faults, resolved, selected, dropFromSpec).0.disk;
    assert after.nodes == s.disk.nodes && after.retained == s.disk.retained;
  }

  lemma ExecuteKeepsDisk(s: Sys, faults: Faults, resolved: Resolved, selected: seq<Name>, request: Request, key: Key, content: FileId)
    requires Consistent(s.disk) && RecordsOk(s.disk) && s.disk.deployment == Some(resolved)
    requires PlanDestroy(s.disk, resolved, selected, request).Some?
    requires Held(s.disk, key, content) && key.1 != "root"
    ensures var nodes := PlanDestroy(s.disk, resolved, selected, request).value;
            Held(Execute(s, faults, resolved, selected, nodes, request).0.disk, key, content)
  {
    var nodes := PlanDestroy(s.disk, resolved, selected, request).value;
    PlanFacts(s.disk, resolved, selected, request);
    MarkAllRelabels(s, faults, nodes, Destroying, request.now);
    var (s1, marked) := MarkAll(s, faults, nodes, Destroying, request.now);
    RelabelsKeepsHeld(s.disk, s1.disk, key, content);
    RelabelsKeepsRecorded(s.disk, s1.disk, nodes);
    if marked {
      var identities := Identities(resolved.nodes);
      DestroyEachKeepsDisk(s1, faults, s.disk, nodes, identities, key, content);
      var (s2, destroyed) := DestroyEach(s1, faults, s.disk, nodes, identities);
      if destroyed {
        ConcludeKeepsDisk(s2, faults, resolved, selected, request.dropFromSpec, key, content);
      }
    }
  }

  /** Through every destroy, partial or whole, with any faults and at any crash point, every held persistent disk
      stays at exactly one of its two places with its content. */
  lemma DestroyConservesDisks(s: Sys, faults: Faults, request: Request, key: Key, content: FileId)
    requires Consistent(s.disk) && RecordsOk(s.disk) && Held(s.disk, key, content) && key.1 != "root"
    ensures Held(DestroySelected(s, faults, request).0.disk, key, content)
  {
    if s.disk.deployment.Some? && Selected(s.disk.deployment.value, request.selection).Some? {
      var resolved := s.disk.deployment.value;
      var selected := Selected(resolved, request.selection).value;
      var nodes := States(s.disk, Kept(Names(resolved.nodes), selected));
      StatesAreRecorded(s.disk, Kept(Names(resolved.nodes), selected));
      StopFirstRelabels(s, faults, nodes, request.now);
      var (s1, stopped) := StopFirst(s, faults, nodes, request.now);
      RelabelsKeepsHeld(s.disk, s1.disk, key, content);
      RelabelsKeepsRecordsOk(s.disk, s1.disk);
      ShrinksKeepsConsistent(s.disk, s1.disk);
      if stopped && PlanDestroy(s1.disk, resolved, selected, request).Some? {
        ExecuteKeepsDisk(s1, faults, resolved, selected, request, key, content);
      }
    }
  }

  /** A destroy that validation refuses has at most stopped nodes: no file moved or went, and the deployment
      state and the retained store are untouched. */
  lemma RefusedDestroyKeepsFiles(s: Sys, faults: Faults, request: Request)
    requires Consistent(s.disk) && s.disk.deployment.Some?
    requires var resolved := s.disk.deployment.value;
             var selected := Selected(resolved, request.selection);
             selected.Some? ==>
               var stopped := StopFirst(s, faults, States(s.disk, Kept(Names(resolved.nodes), selected.value)), request.now).0;
               PlanDestroy(stopped.disk, resolved, selected.value, request).None?
    ensures var (s1, ok) := DestroySelected(s, faults, request);
            !ok && Relabels(s.disk, s1.disk)
  {
    var resolved := s.disk.deployment.value;
    if Selected(resolved, request.selection).Some? {
      var selected := Selected(resolved, request.selection).value;
      StatesAreRecorded(s.disk, Kept(Names(resolved.nodes), selected));
      StopFirstRelabels(s, faults, States(s.disk, Kept(Names(resolved.nodes), selected)), request.now);
    }
  }
}
