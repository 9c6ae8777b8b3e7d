/** A destroy that nothing disturbs: preserving, removing and destroying succeed on nodes that are ready for it. */
module CleanDestroy {
  import opened Wrappers
  import opened DeploymentStore
  import opened RetainedStore
  import opened Destroy
  import opened Conservation

  // ---------------------------------------------------------------- preserving without faults

  /** The identity's disk is node-local and not retained, or retained under this identity; the state says which. */
  predicate Preservable(disk: Disk, node: NodeState, identity: Identity)
  {
    var key, source := KeyOf(identity), SourceFor(node.dataDisks, identity.name);
    && identity.name != "root" && key.0 in disk.nodes
    && (|| (source == Some(LocalPath(key)) && DataBase(key.1) in disk.nodes[key.0].files && key !in disk.retained)
        || (source == Some(StorePath(key)) && key in disk.retained && disk.retained[key].marker == Some(identity)))
  }

  /** The identity's file is in the store with its marker, and no longer in its node directory. */
  function Moved(disk: Disk, identity: Identity): Disk
    requires identity.node in disk.nodes && DataBase(identity.name) in disk.nodes[identity.node].files
  {
    var dir, base := disk.nodes[identity.node], DataBase(identity.name);
    disk.(nodes := disk.nodes[identity.node := dir.(files := Without(dir.files, base))],
          storeNodes := disk.storeNodes + {identity.node},
          retained := disk.retained[KeyOf(identity) := RetainedDir(Some(dir.files[base]), Some(identity))])
  }

  lemma PublishMarks(s: Sys, faults: Faults, identity: Identity, source: Path)
    requires ImagePath(source) && KeyOf(identity) in s.disk.retained
    requires forall n :: s.clock <= n < s.clock + 4 ==> faults(n) == Clean
    ensures var key := KeyOf(identity);
            var marked := s.disk.retained[key].(marker := Some(identity));
            Publish(s, faults, identity, source) == (Sys(SetRetained(s.disk, key, marked), s.clock + 4), true)
  {
  }

  function WithDirs(disk: Disk, key: Key): Disk
  {
    disk.(storeNodes := disk.storeNodes + {key.0}, retained := disk.retained[key := RetainedDir(None, None)])
  }

  lemma DirsAreMade(s: Sys, faults: Faults, key: Key)
    requires forall n :: s.clock <= n < s.clock + 2 ==> faults(n) == Clean
    ensures MakeDirs(s, faults, key) == (Sys(WithDirs(s.disk, key), s.clock + if key.0 in s.disk.storeNodes then 1 else 2), true)
  {
    assert key.0 in s.disk.storeNodes ==> s.disk.storeNodes + {key.0} == s.disk.storeNodes;
  }

  lemma FileIsMoved(disk: Disk, s: Sys, faults: Faults, identity: Identity)
    requires s.disk == WithDirs(disk, KeyOf(identity)) && identity.name != "root"
    requires identity.node in disk.nodes && DataBase(identity.name) in disk.nodes[identity.node].files
    requires forall n :: s.clock <= n < s.clock + 5 ==> faults(n) == Clean
    ensures SourceOk(s.disk, LocalPath(KeyOf(identity)))
    ensures Relocate(s, faults, identity, LocalPath(KeyOf(identity))) == (Sys(Moved(disk, identity), s.clock + 5), true)
  {
    var key, source := KeyOf(identity), LocalPath(KeyOf(identity));
    var (s1, moved) := Apply(s, faults, MovedIn(s.disk, source, key));
    PublishMarks(s1, faults, identity, source);
    assert SetRetained(s1.disk, key, s1.disk.retained[key].(marker := Some(identity))).retained == Moved(disk, identity).retained;
  }

  /** Preserving a node-local disk takes at most seven file operations; nothing else of the faults matters. */
  lemma PreserveMoves(s: Sys, faults: Faults, identity: Identity)
    requires InventoryOk(s.disk) && KeyOf(identity) !in s.disk.retained && identity.name != "root"
    requires identity.node in s.disk.nodes && DataBase(identity.name) in s.disk.nodes[identity.node].files
    requires forall n :: s.clock <= n < s.clock + 7 ==> faults(n) == Clean
    ensures var (s1, ok) := Preserve(s, faults, identity, LocalPath(KeyOf(identity)));
            && ok && s1.disk == Moved(s.disk, identity) && InventoryOk(s1.disk)
            && s1.clock == s.clock + if identity.node in s.disk.storeNodes then 6 else 7
  {
    DirsAreMade(s, faults, KeyOf(identity));
    FileIsMoved(s.disk, MakeDirs(s, faults, KeyOf(identity)).0, faults, identity);
    MovedKeepsInventory(s.disk, identity);
  }

  lemma MovedKeepsInventory(disk: Disk, identity: Identity)
    requires InventoryOk(disk) && identity.node in disk.nodes && DataBase(identity.name) in disk.nodes[identity.node].files
    ensures InventoryOk(Moved(disk, identity))
  {
    var after := Moved(disk, identity);
    assert KeyOf(identity) in after.retained;
    forall node | node in after.storeNodes
      ensures exists key :: key in after.retained && key.0 == node
    {
      if node != identity.node {
        var key :| key in disk.retained && key.0 == node;
        assert key in after.retained;
      }
    }
  }

  /** The node's state records this disk at its node-local path. */
  predicate LocalIn(node: NodeState, identity: Identity)
  {
    identity.node == node.node && SourceFor(node.dataDisks, identity.name) == Some(LocalPath(KeyOf(identity)))
  }

  /** What preserving some disks of one node leaves. */
  ghost predicate Preserved(before: Disk, after: Disk, node: NodeState, identities: seq<Identity>)
  {
    var name := node.node;
    && InventoryOk(after) && after.deployment == before.deployment
    && name in before.nodes && name in after.nodes && after.nodes[name].files.Keys <= before.nodes[name].files.Keys
    && after.nodes == before.nodes[name := before.nodes[name].(files := after.nodes[name].files)]
    && (forall identity :: identity in identities && LocalIn(node, identity) ==> DataBase(identity.name) !in after.nodes[name].files)
    && SameElsewhere(before, after, name)
  }

  /** The store is as it was for all other nodes. */
  ghost predicate SameElsewhere(before: Disk, after: Disk, name: Name)
  {
    forall key: Key :: key.0 != name ==>
      (key in after.retained <==> key in before.retained) && (key in after.retained ==> after.retained[key] == before.retained[key])
  }

  lemma MovedPreserves(disk: Disk, node: NodeState, identity: Identity, rest: seq<Identity>, after: Disk)
    requires identity.node == node.node && node.node in disk.nodes && DataBase(identity.name) in disk.nodes[node.node].files
    requires Preserved(Moved(disk, identity), after, node, rest)
    ensures Preserved(disk, after, node, [identity] + rest)
  {
    var name := node.node;
    assert after.nodes == disk.nodes[name := disk.nodes[name].(files := after.nodes[name].files)];
  }

  lemma MovedKeepsPreservable(disk: Disk, node: NodeState, identity: Identity, other: Identity)
    requires identity.node == node.node && node.node in disk.nodes && DataBase(identity.name) in disk.nodes[node.node].files
    requires identity.name != "root" && KeyOf(identity) != KeyOf(other) && Preservable(disk, node, other)
    ensures Preservable(Moved(disk, identity), node, other)
  {
  }

  lemma StoredIsPreserved(s: Sys, node: NodeState, identity: Identity)
    requires InventoryOk(s.disk) && identity.node == node.node && Preservable(s.disk, node, identity) && !LocalIn(node, identity)
    ensures SourceFor(node.dataDisks, identity.name).Some?
    ensures Preserve(s, NO_FAULTS, identity, SourceFor(node.dataDisks, identity.name).value) == (s, true)
  {
  }

  lemma {:induction false} PreserveAllSucceeds(s: Sys, node: NodeState, identities: seq<Identity>)
    requires InventoryOk(s.disk) && DistinctKeys(identities) && node.node in s.disk.nodes
    requires forall identity :: identity in identities && identity.node == node.node ==> Preservable(s.disk, node, identity)
    ensures var (s1, ok) := PreserveAll(s, NO_FAULTS, node, identities);
            ok && Preserved(s.disk, s1.disk, node, identities)
    decreases |identities|
  {
    if identities != [] {
      var identity, rest := identities[0], identities[1..];
      assert identities == [identity] + rest;
      if LocalIn(node, identity) {
        PreserveMoves(s, NO_FAULTS, identity);
        var (s1, ok) := Preserve(s, NO_FAULTS, identity, LocalPath(KeyOf(identity)));
        forall other | other in rest && other.node == node.node
          ensures Preservable(s1.disk, node, other)
        {
          MovedKeepsPreservable(s.disk, node, identity, other);
        }
        PreserveAllSucceeds(s1, node, rest);
        MovedPreserves(s.disk, node, identity, rest, PreserveAll(s1, NO_FAULTS, node, rest).0.disk);
      } else {
        if identity.node == node.node {
          StoredIsPreserved(s, node, identity);
        }
        PreserveAllSucceeds(s, node, rest);
      }
    }
  }

  // ---------------------------------------------------------------- removing without faults

  function Bases(targets: seq<Path>): set<Base>
  {
    set i | 0 <= i < |targets| && targets[i].InNode? :: targets[i].base
  }

  lemma {:induction false} RemoveTargetsSucceeds(s: Sys, faults: Faults, node: Name, targets: seq<Path>)
    requires node in s.disk.nodes && forall i :: 0 <= i < |targets| ==> InsideNode(node, targets[i])
    requires forall n :: s.clock <= n < s.clock + |targets| ==> faults(n) == Clean
    ensures var (s1, ok) := RemoveTargets(s, faults, node, targets);
            && ok && s1.clock == s.clock + |targets|
            && node in s1.disk.nodes && s1.disk == s.disk.(nodes := s.disk.nodes[node := s1.disk.nodes[node]])
            && Entries(s1.disk.nodes[node]) == Entries(s.disk.nodes[node]) - Bases(targets)
    decreases |targets|
  {
    if targets != [] {
      var path, rest := targets[0], targets[1..];
      assert forall i :: 0 <= i < |rest| ==> rest[i] == targets[i + 1];
      var (s1, ok) := RemoveTarget(s, faults, node, path);
      assert Bases(targets) == {path.base} + Bases(rest);
      assert ok && s1.disk == s.disk.(nodes := s.disk.nodes[node := s1.disk.nodes[node]]);
      RemovedEntries(s.disk.nodes[node], path.base);
      RemoveTargetsSucceeds(s1, faults, node, rest);
    } else {
      assert s.disk.nodes == s.disk.nodes[node := s.disk.nodes[node]];
    }
  }

  lemma RemovedEntries(dir: NodeDir, base: Base)
    ensures Entries(RemovedFrom(dir, base)) == Entries(dir) - {base}
  {
  }

  /** What a destroy may still do to one node: its directory holds only files that the destroy removes or preserves. */
  ghost predicate Ready(disk: Disk, node: NodeState, identities: seq<Identity>)
  {
    && RecordOk(node) && Covers(identities, node) && node.node in disk.nodes
    && (forall base :: base in Entries(disk.nodes[node.node]) ==> InNode(node.node, base) in ExpectedFiles(node))
    && forall identity :: identity in identities && identity.node == node.node ==> Preservable(disk, node, identity)
  }

  lemma {:induction false} SourceOfDistinct(disks: seq<DataDisk>, k: nat)
    requires k < |disks| && forall i, j :: 0 <= i < j < |disks| ==> disks[i].name != disks[j].name
    ensures SourceFor(disks, disks[k].name) == Some(disks[k].path)
  {
    if k > 0 {
      assert disks[0].name != disks[k].name;
      assert forall i :: 0 <= i < |disks[1..]| ==> disks[1..][i] == disks[i + 1];
      SourceOfDistinct(disks[1..], k - 1);
    }
  }

  lemma {:induction false} RemovableIsListed(disks: seq<DataDisk>, k: nat)
    requires k < |disks| && !disks[k].persistent
    ensures disks[k].path in RemovableData(disks)
  {
    if k > 0 {
      RemovableIsListed(disks[1..], k - 1);
    }
  }

  /** Everything expected in a node directory is removed, or is a persistent disk recorded there. */
  lemma ExpectedIsTarget(disk: Disk, node: NodeState, base: Base)
    requires RecordOk(node) && NodeTargets(disk, node).Some? && InNode(node.node, base) in ExpectedFiles(node)
    ensures InNode(node.node, base) in NodeTargets(disk, node).value
            || exists k :: 0 <= k < |node.dataDisks| && node.dataDisks[k].persistent && node.dataDisks[k].path == InNode(node.node, base)
  {
    if k :| 0 <= k < |node.dataDisks| && node.dataDisks[k].path == InNode(node.node, base) && !node.dataDisks[k].persistent {
      RemovableIsListed(node.dataDisks, k);
    }
  }

  lemma TargetsAreInside(disk: Disk, node: NodeState)
    requires RecordOk(node) && NodeTargets(disk, node).Some?
    ensures var targets := NodeTargets(disk, node).value; forall i :: 0 <= i < |targets| ==> InsideNode(node.node, targets[i])
  {
    var targets := NodeTargets(disk, node).value;
    RemovableSparesPersistent(node.dataDisks, node.node, "");
    forall i | 0 <= i < |targets|
      ensures InsideNode(node.node, targets[i])
    {
      if targets[i] in RemovableData(node.dataDisks) {
        var k :| 0 <= k < |node.dataDisks| && !node.dataDisks[k].persistent && node.dataDisks[k].path == targets[i];
      }
    }
  }

  // ---------------------------------------------------------------- destroying without faults

  /** After the preservations and the removals the directory is empty. */
  lemma DirectoryIsEmpty(before: Disk, preserved: Disk, removed: Disk, validated: Disk, node: NodeState, identities: seq<Identity>)
    requires Ready(before, node, identities) && NodeTargets(validated, node).Some?
    requires Preserved(before, preserved, node, identities) && node.node in removed.nodes
    requires Entries(removed.nodes[node.node]) == Entries(preserved.nodes[node.node]) - Bases(NodeTargets(validated, node).value)
    ensures Entries(removed.nodes[node.node]) == {}
  {
    var name := node.node;
    var targets := NodeTargets(validated, node).value;
    forall base | base in Entries(preserved.nodes[name])
      ensures base in Bases(targets)
    {
      assert base in Entries(before.nodes[name]);
      ExpectedIsTarget(validated, node, base);
      if InNode(name, base) !in targets {
        var k :| 0 <= k < |node.dataDisks| && node.dataDisks[k].persistent && node.dataDisks[k].path == InNode(name, base);
        PreservedIsGone(before, preserved, node, identities, k);
      }
    }
  }

  lemma PreservedIsGone(before: Disk, preserved: Disk, node: NodeState, identities: seq<Identity>, k: nat)
    requires RecordOk(node) && Covers(identities, node) && Preserved(before, preserved, node, identities)
    requires k < |node.dataDisks| && node.dataDisks[k].persistent && InsideNode(node.node, node.dataDisks[k].path)
    ensures node.dataDisks[k].path.base !in Entries(preserved.nodes[node.node])
  {
    var data := node.dataDisks[k];
    var identity := Identity(node.node, data.name, data.size, data.mount);
    SourceOfDistinct(node.dataDisks, k);
    assert identity in identities && LocalIn(node, identity);
  }

  lemma DestroyOneSucceeds(s: Sys, node: NodeState, validated: Disk, identities: seq<Identity>)
    requires InventoryOk(s.disk) && DistinctKeys(identities) && Ready(s.disk, node, identities) && NodeTargets(validated, node).Some?
    ensures var (s1, ok) := DestroyOne(s, NO_FAULTS, node, NodeTargets(validated, node).value, identities);
            && ok && InventoryOk(s1.disk) && s1.disk.nodes == Without(s.disk.nodes, node.node)
            && SameElsewhere(s.disk, s1.disk, node.node)
  {
    var name, targets := node.node, NodeTargets(validated, node).value;
    PreserveAllSucceeds(s, node, identities);
    var (s1, _) := PreserveAll(s, NO_FAULTS, node, identities);
    TargetsAreInside(validated, node);
    RemoveTargetsSucceeds(s1, NO_FAULTS, name, targets);
    var (s2, _) := RemoveTargets(s1, NO_FAULTS, name, targets);
    DirectoryIsEmpty(s.disk, s1.disk, s2.disk, validated, node, identities);
    var (s3, _) := Tick(s2, NO_FAULTS);
    EmptyDirGoes(s.disk, s3, name);
  }

  lemma EmptyDirGoes(before: Disk, s: Sys, name: Name)
    requires name in s.disk.nodes && Entries(s.disk.nodes[name]) == {} && s.disk.nodes == before.nodes[name := s.disk.nodes[name]]
    ensures var (s1, ok) := RemoveNodeDir(s, NO_FAULTS, name);
            ok && s1.disk == s.disk.(nodes := Without(before.nodes, name))
  {
    assert Without(s.disk.nodes, name) == Without(before.nodes, name);
  }

  /** What is done to one node leaves the others ready. */
  lemma ReadyElsewhere(before: Disk, after: Disk, name: Name, node: NodeState, identities: seq<Identity>)
    requires Ready(before, node, identities) && node.node != name
    requires after.nodes == Without(before.nodes, name) && SameElsewhere(before, after, name)
    ensures Ready(after, node, identities)
  {
    assert after.nodes[node.node] == before.nodes[node.node];
    forall identity | identity in identities && identity.node == node.node
      ensures Preservable(after, node, identity)
    {
      assert Preservable(before, node, identity);
      assert KeyOf(identity).0 != name;
    }
  }

  lemma {:induction false} DestroyEachSucceeds(s: Sys, validated: Disk, nodes: seq<NodeState>, identities: seq<Identity>)
    requires InventoryOk(s.disk) && DistinctKeys(identities)
    requires forall i :: 0 <= i < |nodes| ==> Ready(s.disk, nodes[i], identities) && NodeTargets(validated, nodes[i]).Some?
    requires forall i, j :: 0 <= i < j < |nodes| ==> nodes[i].node != nodes[j].node
    ensures DestroyEach(s, NO_FAULTS, validated, nodes, identities).1
    decreases |nodes|
  {
    if nodes != [] {
      var node, rest := nodes[0], nodes[1..];
      DestroyOneSucceeds(s, node, validated, identities);
      var (s1, _) := DestroyOne(s, NO_FAULTS, node, NodeTargets(validated, node).value, identities);
      forall i | 0 <= i < |rest|
        ensures Ready(s1.disk, rest[i], identities) && NodeTargets(validated, rest[i]).Some?
      {
        assert rest[i] == nodes[i + 1];
        ReadyElsewhere(s.disk, s1.disk, node.node, rest[i], identities);
      }
      DestroyEachSucceeds(s1, validated, rest, identities);
    }
  }

  lemma {:induction false} MarkAllSucceeds(s: Sys, nodes: seq<NodeState>, phase: Phase, now: nat)
    ensures MarkAll(s, NO_FAULTS, nodes, phase, now).1
    decreases |nodes|
  {
    if nodes != [] {
      MarkAllSucceeds(WriteNode(s, NO_FAULTS, nodes[0].(phase := phase, updatedAt := now)).0, nodes[1..], phase, now);
    }
  }
}
