/** The catalog registry: per repository a pointer to the accepted catalog and a high-water mark, next to the
    catalog and signature files that pointers name. The pointer is written last. */
module Registry {
  import opened Wrappers
  import opened Digests

  datatype Active = Embedded | Versioned(version: nat, digest: Digest)

  /** A key number of zero is the absent key text. */
  type KeyId = nat

  datatype State = State(
    highest: nat, active: Active, activeVersion: nat, activeDigest: Digest,
    keyId: KeyId, source: string, acceptedAt: nat, downgrade: bool)

  datatype RepoKey = Default | Repo(url: string)

  datatype Disk = Disk(
    registry: Option<map<RepoKey, State>>,
    catalogs: map<(nat, Digest), string>,
    signatures: map<(nat, Digest, KeyId), string>,
    unqualified: map<(nat, Digest), string>)

  datatype Sys = Sys(disk: Disk, clock: nat)

  /** The compiled-in catalog and the trusted keys; an upgrade replaces the binary. */
  datatype Binary = Binary(version: nat, data: string, generatedAt: nat, keys: set<KeyId>)

  /** The catalog decoder and the signature check: the version of well-formed catalog bytes, and the key that
      really signed some bytes. */
  datatype World = World(decode: string -> Option<nat>, signer: (string, string) -> Option<KeyId>)

  datatype Manager = Manager(key: RepoKey, unsignedAllowed: bool)

  /** What a source delivered; an empty signature is an unsigned catalog. */
  datatype Fetched = Fetched(data: string, signature: string, provenance: string, fromRepository: bool)

  // ---------------------------------------------------------------- decisions

  /** The key of a repository's state, from the repository as it was spelled, without surrounding space. */
  function StateKey(normalize: string -> Option<string>, defaultUrl: string, repository: string): Option<RepoKey>
  {
    if repository == "" then Some(Default)
    else
      match normalize(repository)
      case None => None
      case Some(url) => Some(if defaultUrl != "" && normalize(defaultUrl) == Some(url) then Default else Repo(url))
  }

  function CatalogVersion(world: World, data: string): Option<nat>
  {
    match world.decode(data)
    case None => None
    case Some(version) => if version == 0 then None else Some(version)
  }

  function Verify(binary: Binary, world: World, data: string, signature: string): Option<KeyId>
  {
    match world.signer(data, signature)
    case None => None
    case Some(key) => if key in binary.keys then Some(key) else None
  }

  predicate ValidState(state: State)
  {
    && state.highest != 0 && state.activeVersion != 0
    && (state.active != Embedded ==> state.highest >= state.activeVersion)
    && state.source != "" && state.acceptedAt != 0
  }

  function EmbeddedState(binary: Binary): State
  {
    State(binary.version, Embedded, binary.version, Sha256(binary.data), 0, "embedded", binary.generatedAt, false)
  }

  /** The default repository's state as this binary sees it; nothing when it contradicts the binary. */
  function Baseline(binary: Binary, state: State): Option<State>
  {
    if state.highest < binary.version then Some(EmbeddedState(binary))
    else if state.active != Embedded then
      if state.activeVersion == binary.version && state.activeDigest != Sha256(binary.data) then None else Some(state)
    else if state.activeVersion != binary.version || state.activeDigest != Sha256(binary.data) then None
    else Some(state)
  }

  // ---------------------------------------------------------------- reading

  datatype Reading = Broken | Missing | Found(state: State)

  predicate ReadableRegistry(disk: Disk)
  {
    disk.registry.Some? ==> forall key :: key in disk.registry.value ==> ValidState(disk.registry.value[key])
  }

  function ReadState(disk: Disk, key: RepoKey): Reading
  {
    if disk.registry.None? then Missing
    else if !ReadableRegistry(disk) then Broken
    else if key in disk.registry.value then Found(disk.registry.value[key])
    else Missing
  }

  /** The signature of a pointer's bytes: the qualified file, or the unqualified one of the first schema. */
  function SignatureOf(disk: Disk, state: State): Option<string>
    requires state.active.Versioned?
  {
    var version, digest := state.active.version, state.active.digest;
    if (version, digest, state.keyId) in disk.signatures then Some(disk.signatures[(version, digest, state.keyId)])
    else if (version, digest) in disk.unqualified then Some(disk.unqualified[(version, digest)])
    else None
  }

  /** The bytes of a pointer that is not embedded, after every check. */
  function ActiveBytes(disk: Disk, binary: Binary, world: World, manager: Manager, state: State): Option<string>
    requires state.active.Versioned?
  {
    var file := (state.active.version, state.active.digest);
    if state.keyId == 0 && !manager.unsignedAllowed then None
    else if file !in disk.catalogs then None
    else
      var data := disk.catalogs[file];
      if state.keyId != 0 && (SignatureOf(disk, state).None?
                              || Verify(binary, world, data, SignatureOf(disk, state).value) != Some(state.keyId)) then None
      else if CatalogVersion(world, data) != Some(state.activeVersion) || Sha256(data) != state.activeDigest then None
      else Some(data)
  }

  function Current(disk: Disk, binary: Binary, world: World, manager: Manager): Option<(string, State)>
  {
    match ReadState(disk, manager.key)
    case Broken => None
    case Missing => Some((binary.data, EmbeddedState(binary)))
    case Found(stored) =>
      match if manager.key == Default then Baseline(binary, stored) else Some(stored)
      case None => None
      case Some(state) =>
        if state.active == Embedded then Some((binary.data, state))
        else
          match ActiveBytes(disk, binary, world, manager, state)
          case None => None
          case Some(data) => Some((data, state))
  }

  // ---------------------------------------------------------------- changing

  function Apply(s: Sys, faults: Faults, after: Disk): (Sys, bool)
  {
    match faults(s.clock)
    case Clean => (Sys(after, s.clock + 1), true)
    case Lost => (Sys(s.disk, s.clock + 1), false)
    case Late => (Sys(after, s.clock + 1), false)
  }

  function WithState(disk: Disk, key: RepoKey, state: State): Disk
  {
    disk.(registry := Some((if disk.registry.Some? then disk.registry.value else map[])[key := state]))
  }

  function WriteState(s: Sys, faults: Faults, key: RepoKey, state: State): (Sys, bool)
  {
    if !ReadableRegistry(s.disk) then (s, false) else Apply(s, faults, WithState(s.disk, key, state))
  }

  /** Versioned files are written once; different bytes under the same name are refused. */
  function WriteCatalog(s: Sys, faults: Faults, version: nat, data: string): (Sys, bool)
  {
    var file := (version, Sha256(data));
    if file in s.disk.catalogs then (s, s.disk.catalogs[file] == data)
    else Apply(s, faults, s.disk.(catalogs := s.disk.catalogs[file := data]))
  }

  function WriteSignature(s: Sys, faults: Faults, version: nat, data: string, key: KeyId, signature: string): (Sys, bool)
  {
    var file := (version, Sha256(data), key);
    if file in s.disk.signatures then (s, s.disk.signatures[file] == signature)
    else Apply(s, faults, s.disk.(signatures := s.disk.signatures[file := signature]))
  }

  /** The state a sync starts from; a new repository other than the default one has none. */
  function SyncBase(disk: Disk, binary: Binary, key: RepoKey): Result<Option<State>, ()>
  {
    match ReadState(disk, key)
    case Broken => Err(())
    case Missing => Ok(if key == Default then Baseline(binary, EmbeddedState(binary)) else None)
    case Found(state) =>
      if key != Default then Ok(Some(state))
      else match Baseline(binary, state)
        case None => Err(())
        case Some(current) => Ok(Some(current))
  }

  predicate Acceptable(base: Option<State>, fetched: Fetched, version: nat, allowDowngrade: bool)
  {
    match base
    case None => true
    case Some(current) =>
      && (current.keyId != 0 && fetched.signature == "" ==> allowDowngrade)
      && (version == current.activeVersion ==> Sha256(fetched.data) == current.activeDigest)
      && (version < current.highest ==> allowDowngrade)
  }

  function Accepted(base: Option<State>, fetched: Fetched, version: nat, key: KeyId, now: nat): State
  {
    var highest := if base.Some? then base.value.highest else 0;
    State(if version > highest then version else highest, Versioned(version, Sha256(fetched.data)), version,
          Sha256(fetched.data), key, fetched.provenance, now, highest != 0 && version < highest)
  }

  /** The key that signed the fetched bytes, zero when unsigned bytes are allowed. */
  function Authenticate(binary: Binary, world: World, manager: Manager, fetched: Fetched): Option<KeyId>
  {
    if fetched.signature != "" then Verify(binary, world, fetched.data, fetched.signature)
    else if manager.unsignedAllowed && fetched.fromRepository then Some(0)
    else None
  }

  function Sync(s: Sys, faults: Faults, binary: Binary, world: World, manager: Manager, fetched: Fetched, allowDowngrade: bool, now: nat): (Sys, Option<State>)
  {
    var key := Authenticate(binary, world, manager, fetched);
    var version := CatalogVersion(world, fetched.data);
    var base := SyncBase(s.disk, binary, manager.key);
    if key.None? || version.None? || base.Err? || !Acceptable(base.value, fetched, version.value, allowDowngrade) then (s, None)
    else
      var (s1, stored) := WriteCatalog(s, faults, version.value, fetched.data);
      if !stored then (s1, None)
      else
        var (s2, signed) := if fetched.signature == "" then (s1, true)
                            else WriteSignature(s1, faults, version.value, fetched.data, key.value, fetched.signature);
        if !signed then (s2, None)
        else
          var state := Accepted(base.value, fetched, version.value, key.value, now);
          var (s3, written) := WriteState(s2, faults, manager.key, state);
          (s3, if written then Some(state) else None)
  }

  function ResetState(disk: Disk, binary: Binary, key: RepoKey, now: nat): State
  {
    var embedded := EmbeddedState(binary).(acceptedAt := now);
    match ReadState(disk, key)
    case Found(current) =>
      if key != Default then embedded.(highest := current.highest, keyId := current.keyId)
      else if current.highest > embedded.highest then embedded.(highest := current.highest)
      else embedded
    case _ => embedded
  }

  function Reset(s: Sys, faults: Faults, binary: Binary, manager: Manager, now: nat): (Sys, Option<State>)
  {
    var state := ResetState(s.disk, binary, manager.key, now);
    match ReadState(s.disk, manager.key)
    case Broken => (s, None)
    case Missing =>
      if manager.key != Default then (s, Some(state))
      else
        var (s1, written) := WriteState(s, faults, Default, state);
        (s1, if written then Some(state) else None)
    case Found(_) =>
      var (s1, written) := WriteState(s, faults, manager.key, state);
      (s1, if written then Some(state) else None)
  }
}
