/** The store of persistent disks that survive their node: its strict inventory, and the move that preserves a
    node-local disk. */
module RetainedStore {
  import opened Wrappers
  import opened DeploymentStore

  type Key = (Name, string)

  function KeyOf(identity: Identity): Key { (identity.node, identity.name) }

  /** Any incomplete or unowned entry makes the whole store unusable. */
  predicate InventoryOk(disk: Disk)
  {
    && (forall key :: key in disk.retained ==>
          && disk.retained[key].image.Some? && disk.retained[key].marker.Some?
          && KeyOf(disk.retained[key].marker.value) == key && key.0 in disk.storeNodes)
    && forall node :: node in disk.storeNodes ==> exists key :: key in disk.retained && key.0 == node
  }

  /** The records the inventory lists, by key. */
  function Records(disk: Disk): map<Key, Identity>
    requires InventoryOk(disk)
  {
    map key | key in disk.retained :: disk.retained[key].marker.value
  }

  predicate DistinctKeys(identities: seq<Identity>)
  {
    forall i, j :: 0 <= i < j < |identities| ==> KeyOf(identities[i]) != KeyOf(identities[j])
  }

  /** Every retained disk is expected, with the same size and mount. */
  predicate DesiredOk(disk: Disk, desired: seq<Identity>)
  {
    && DistinctKeys(desired)
    && InventoryOk(disk)
    && forall key :: key in Records(disk) ==> Records(disk)[key] in desired
  }

  /** A source disk exists at its recorded path inside the deployment root. */
  predicate SourceOk(disk: Disk, source: Path)
  {
    !source.Foreign? && Exists(disk, source) && (source.InNode? ==> source.base in disk.nodes[source.node].files)
  }

  function SetRetained(disk: Disk, key: Key, dir: RetainedDir): Disk
  {
    disk.(retained := disk.retained[key := dir])
  }

  /** Moving a local file into the store, and back. */
  function MovedIn(disk: Disk, source: Path, key: Key): Disk
    requires SourceOk(disk, source) && source.InNode? && key in disk.retained
  {
    var dir := disk.nodes[source.node];
    SetRetained(SetDir(disk, source.node, RemovedFrom(dir, source.base)), key,
                disk.retained[key].(image := Some(dir.files[source.base])))
  }

  predicate ImagePath(source: Path)
  {
    source.InNode? && source.base != StateFile && source.base != JournalFile
  }

  function MovedOut(disk: Disk, source: Path, key: Key): Disk
    requires ImagePath(source) && key in disk.retained && disk.retained[key].image.Some?
  {
    var dir := DirOf(disk, source.node);
    SetRetained(SetDir(disk, source.node, dir.(files := dir.files[source.base := disk.retained[key].image.value])),
                key, disk.retained[key].(image := None))
  }

  /** Removing what an abandoned preservation left: each directory goes only if it is empty. */
  function RemoveEmptyDir(s: Sys, faults: Faults, key: Key): Sys
  {
    if key in s.disk.retained && s.disk.retained[key] == RetainedDir(None, None)
    then Apply(s, faults, s.disk.(retained := Without(s.disk.retained, key))).0
    else s
  }

  function RemoveEmptyParent(s: Sys, faults: Faults, node: Name): Sys
  {
    if exists key :: key in s.disk.retained && key.0 == node then s
    else Apply(s, faults, s.disk.(storeNodes := s.disk.storeNodes - {node})).0
  }

  function CleanupParents(s: Sys, faults: Faults, key: Key): Sys
  {
    RemoveEmptyParent(RemoveEmptyDir(s, faults, key), faults, key.0)
  }

  function DropMarker(s: Sys, faults: Faults, key: Key): Sys
  {
    if key in s.disk.retained && s.disk.retained[key].marker.Some?
    then Apply(s, faults, SetRetained(s.disk, key, s.disk.retained[key].(marker := None))).0
    else s
  }

  function MoveBack(s: Sys, faults: Faults, source: Path, key: Key): Sys
    requires ImagePath(source)
  {
    if key in s.disk.retained && s.disk.retained[key].image.Some?
    then Apply(s, faults, MovedOut(s.disk, source, key)).0
    else s
  }

  /** The deferred compensation: drop the marker, move the disk back, and drop empty directories. */
  function Undo(s: Sys, faults: Faults, source: Path, key: Key): Sys
    requires ImagePath(source)
  {
    CleanupParents(MoveBack(DropMarker(s, faults, key), faults, source, key), faults, key)
  }

  function MakeDirs(s: Sys, faults: Faults, key: Key): (Sys, bool)
  {
    var (s1, parent) := if key.0 in s.disk.storeNodes then (s, true)
                        else Apply(s, faults, s.disk.(storeNodes := s.disk.storeNodes + {key.0}));
    if parent then Apply(s1, faults, SetRetained(s1.disk, key, RetainedDir(None, None))) else (s1, false)
  }

  /** After the rename: narrow the permissions, sync, and publish the marker; a failure is undone. */
  function Publish(s: Sys, faults: Faults, identity: Identity, source: Path): (Sys, bool)
    requires ImagePath(source) && KeyOf(identity) in s.disk.retained
  {
    var key := KeyOf(identity);
    var (s1, narrowed) := Tick(s, faults);
    var (s2, synced) := if narrowed then Tick(s1, faults) else (s1, false);
    var marked := SetRetained(s.disk, key, s.disk.retained[key].(marker := Some(identity)));
    var (s3, published) := if synced then Apply(s2, faults, marked) else (s2, false);
    if published then Tick(s3, faults) else (Undo(s3, faults, source, key), false)
  }

  /** The rename into the fresh directory, and what follows it. */
  function Relocate(s: Sys, faults: Faults, identity: Identity, source: Path): (Sys, bool)
    requires SourceOk(s.disk, source) && ImagePath(source) && KeyOf(identity) in s.disk.retained
  {
    var key := KeyOf(identity);
    var (s1, moved) := Apply(s, faults, MovedIn(s.disk, source, key));
    if moved then Publish(s1, faults, identity, source) else (CleanupParents(s1, faults, key), false)
  }

  function Preserve(s: Sys, faults: Faults, identity: Identity, source: Path): (Sys, bool)
  {
    var key := KeyOf(identity);
    if !InventoryOk(s.disk) then (s, false)
    else if key in s.disk.retained then
      (s, Records(s.disk)[key] == identity && source == InStore(identity.node, identity.name))
    else if !SourceOk(s.disk, source) || !source.InNode? then (s, false)
    else
      var (s1, made) := MakeDirs(s, faults, key);
      if made then Relocate(s1, faults, identity, source) else (s1, false)
  }
}
