/** The one deployment on disk: its resolved configuration, a directory per node, and the store of retained
    disks. Every change is one atomic file operation that may be lost or reported late. */
module DeploymentStore {
  import opened Wrappers

  type Name = string

  // ---------------------------------------------------------------- configuration

  datatype DiskDef = DiskDef(name: string, size: nat, mount: string, persistent: bool)

  /** One node of the resolved configuration; settings stands for the fields that only the hash sees. */
  datatype NodeDef = NodeDef(name: Name, disks: seq<DiskDef>, settings: string)

  datatype Resolved = Resolved(envelope: string, nodes: seq<NodeDef>)

  /** The node hash is injective, so it is modelled by what it hashes: the envelope and the one node. */
  datatype NodeHash = NodeHash(envelope: string, node: NodeDef)

  function Find(nodes: seq<NodeDef>, name: Name): Option<NodeDef>
  {
    if nodes == [] then None else if nodes[0].name == name then Some(nodes[0]) else Find(nodes[1..], name)
  }

  function HashOf(resolved: Resolved, name: Name): Option<NodeHash>
  {
    match Find(resolved.nodes, name)
    case None => None
    case Some(node) => Some(NodeHash(resolved.envelope, node))
  }

  predicate UniqueNames(nodes: seq<NodeDef>)
  {
    forall i, j :: 0 <= i < j < |nodes| ==> nodes[i].name != nodes[j].name
  }

  // ---------------------------------------------------------------- files

  /** The name of a file in a node directory. */
  datatype Base =
    | RootImage | SeedImage | NvramImage | DataImage(disk: string)
    | SerialLog | QemuLog | EventLog | StateFile | JournalFile | OtherFile(name: string)

  /** The image file of a data disk; a disk named root would share the root overlay's file. */
  function DataBase(disk: string): Base
  {
    if disk == "root" then RootImage else DataImage(disk)
  }

  datatype Path = InNode(node: Name, base: Base) | InStore(node: Name, disk: string) | Foreign(text: string)

  type FileId = nat

  datatype Invocation = Invocation(binary: string, args: seq<string>)

  datatype Phase = Absent | Preparing | Prepared | Starting | Running | Stopping | Stopped | Destroying

  datatype DataDisk = DataDisk(name: string, path: Path, size: nat, mount: string, persistent: bool)

  datatype NodeState = NodeState(
    node: Name, uuid: string, phase: Phase, specHash: NodeHash,
    rootDisk: Path, dataDisks: seq<DataDisk>, seed: Path, nvram: Option<Path>,
    invocation: Invocation, createdAt: nat, updatedAt: nat)

  datatype ArtifactKind = RootOverlay | Seed | Nvram | Data

  datatype Artifact = Artifact(kind: ArtifactKind, path: Path)

  datatype Journal = Journal(
    node: Name, uuid: string, specHash: NodeHash, completed: seq<Artifact>, invocation: Invocation,
    prepared: bool, committed: bool, statePath: Option<Path>, startedAt: nat, updatedAt: nat)

  /** The files of a node directory besides its state and its journal. */
  type Files = files: map<Base, FileId> | StateFile !in files && JournalFile !in files witness map[]

  datatype NodeDir = NodeDir(state: Option<NodeState>, journal: Option<Journal>, files: Files)

  /** The immutable attachment contract of one persistent disk. */
  datatype Identity = Identity(node: Name, name: string, size: nat, mount: string)

  datatype RetainedDir = RetainedDir(image: Option<FileId>, marker: Option<Identity>)

  datatype Disk = Disk(
    deployment: Option<Resolved>,
    nodes: map<Name, NodeDir>,
    storeNodes: set<Name>,
    retained: map<(Name, string), RetainedDir>)

  function ReadNode(disk: Disk, name: Name): Option<NodeState>
  {
    if name in disk.nodes then disk.nodes[name].state else None
  }

  function Entries(dir: NodeDir): set<Base>
  {
    dir.files.Keys
    + (if dir.state.Some? then {StateFile} else {})
    + (if dir.journal.Some? then {JournalFile} else {})
  }

  predicate Exists(disk: Disk, path: Path)
  {
    match path
    case InNode(node, base) => node in disk.nodes && base in Entries(disk.nodes[node])
    case InStore(node, name) => (node, name) in disk.retained && disk.retained[(node, name)].image.Some?
    case Foreign(_) => false
  }

  function Without<K, V>(m: map<K, V>, key: K): map<K, V>
  {
    map k | k in m && k != key :: m[k]
  }

  function RemovedFrom(dir: NodeDir, base: Base): NodeDir
  {
    match base
    case StateFile => dir.(state := None)
    case JournalFile => dir.(journal := None)
    case _ => dir.(files := Without(dir.files, base))
  }

  function SetDir(disk: Disk, name: Name, dir: NodeDir): Disk
  {
    disk.(nodes := disk.nodes[name := dir])
  }

  // ---------------------------------------------------------------- atomic steps that can fail

  datatype Sys = Sys(disk: Disk, clock: nat)

  function Apply(s: Sys, faults: Faults, after: Disk): (Sys, bool)
  {
    match faults(s.clock)
    case Clean => (Sys(after, s.clock + 1), true)
    case Lost => (Sys(s.disk, s.clock + 1), false)
    case Late => (Sys(after, s.clock + 1), false)
  }

  /** A step outside the store that may fail. */
  function Tick(s: Sys, faults: Faults): (Sys, bool)
  {
    Apply(s, faults, s.disk)
  }

  function DirOf(disk: Disk, name: Name): NodeDir
  {
    if name in disk.nodes then disk.nodes[name] else NodeDir(None, None, map[])
  }

  function WithState(disk: Disk, value: NodeState): Disk
  {
    SetDir(disk, value.node, DirOf(disk, value.node).(state := Some(value)))
  }

  function WriteNode(s: Sys, faults: Faults, value: NodeState): (Sys, bool)
  {
    Apply(s, faults, WithState(s.disk, value))
  }

  function WriteDeployment(s: Sys, faults: Faults, value: Resolved): (Sys, bool)
  {
    Apply(s, faults, s.disk.(deployment := Some(value)))
  }

  function RemoveFile(s: Sys, faults: Faults, node: Name, base: Base): (Sys, bool)
    requires node in s.disk.nodes
  {
    Apply(s, faults, SetDir(s.disk, node, RemovedFrom(s.disk.nodes[node], base)))
  }

  /** Removing a directory fails unless it is empty. */
  function RemoveNodeDir(s: Sys, faults: Faults, node: Name): (Sys, bool)
  {
    if node !in s.disk.nodes || Entries(s.disk.nodes[node]) != {} then (s, false)
    else Apply(s, faults, s.disk.(nodes := Without(s.disk.nodes, node)))
  }

  // ---------------------------------------------------------------- the prepare journal

  function BaseOf(kind: ArtifactKind, base: Base): bool
  {
    match kind
    case RootOverlay => base == RootImage
    case Seed => base == SeedImage
    case Nvram => base == NvramImage
    case Data => base.DataImage? && base.disk != "root" && NodeName(base.disk)
  }

  predicate NameChar(c: char) { 'a' <= c <= 'z' || '0' <= c <= '9' || c == '-' }

  predicate NodeName(name: string)
  {
    && 1 <= |name| <= 63 && (forall i :: 0 <= i < |name| ==> NameChar(name[i]))
    && name[0] != '-' && name[|name| - 1] != '-'
  }

  /** The journal invariant that both rollback and commit rest on. */
  predicate ValidJournal(dir: Name, journal: Journal)
  {
    && NodeName(journal.node) && journal.startedAt <= journal.updatedAt
    && (forall i :: 0 <= i < |journal.completed| ==>
          var artifact := journal.completed[i];
          artifact.path.InNode? && artifact.path.node == dir && BaseOf(artifact.kind, artifact.path.base))
    && (forall i, j :: 0 <= i < j < |journal.completed| ==> journal.completed[i].path != journal.completed[j].path)
    && (if journal.prepared then journal.invocation.binary != "" && journal.invocation.binary[0] == '/' && journal.invocation.args != []
        else journal.invocation == Invocation("", []))
    && (if journal.committed then journal.prepared && journal.statePath == Some(InNode(dir, StateFile))
        else journal.statePath == None)
  }

  function ReadJournal(disk: Disk, node: Name): Option<Journal>
  {
    if node in disk.nodes && disk.nodes[node].journal.Some? && ValidJournal(node, disk.nodes[node].journal.value)
    then disk.nodes[node].journal
    else None
  }

  /** The write is refused, without effect, unless the journal is valid. */
  function WriteJournal(s: Sys, faults: Faults, node: Name, journal: Journal): (Sys, bool)
  {
    if !ValidJournal(node, journal) then (s, false)
    else Apply(s, faults, SetDir(s.disk, node, DirOf(s.disk, node).(journal := Some(journal))))
  }
}
