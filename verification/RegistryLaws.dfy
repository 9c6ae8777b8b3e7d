/** Safety of the registry over every run, with any faults and across binary upgrades, and what Sync and Reset
    promise to the next reader. */
module RegistryLaws {
  import opened Wrappers
  import opened Digests
  import opened Registry

  /** A stored pointer is embedded, or names complete bytes with its digest, and a signature when it has a key. */
  predicate Complete(disk: Disk, world: World, state: State)
  {
    state.active == Embedded
    || (&& state.active == Versioned(state.activeVersion, state.activeDigest)
        && var file := (state.activeVersion, state.activeDigest);
        && file in disk.catalogs && Sha256(disk.catalogs[file]) == state.activeDigest
        && CatalogVersion(world, disk.catalogs[file]) == Some(state.activeVersion)
        && (state.keyId != 0 ==>
              && (file.0, file.1, state.keyId) in disk.signatures
              && world.signer(disk.catalogs[file], disk.signatures[(file.0, file.1, state.keyId)]) == Some(state.keyId)))
  }

  /** Every versioned file holds the bytes it is named after; a qualified signature was checked before it was stored. */
  ghost predicate FilesOk(disk: Disk, world: World)
  {
    && (forall file :: file in disk.catalogs ==> Sha256(disk.catalogs[file]) == file.1)
    && forall file :: file in disk.signatures ==>
         (file.0, file.1) in disk.catalogs && world.signer(disk.catalogs[(file.0, file.1)], disk.signatures[file]) == Some(file.2)
  }

  ghost predicate RegistryOk(disk: Disk, world: World)
  {
    && ReadableRegistry(disk) && FilesOk(disk, world)
    && (disk.registry.Some? ==>
          forall key :: key in disk.registry.value ==> Complete(disk, world, disk.registry.value[key]))
  }

  function Highest(disk: Disk, key: RepoKey): nat
  {
    if disk.registry.Some? && key in disk.registry.value then disk.registry.value[key].highest else 0
  }

  /** What one operation on one repository may do to the registry. */
  ghost predicate Advances(before: Disk, after: Disk, key: RepoKey)
  {
    && Highest(before, key) <= Highest(after, key)
    && forall other :: other != key ==>
         && Highest(after, other) == Highest(before, other)
         && ReadState(after, other) == ReadState(before, other)
  }

  // ---------------------------------------------------------------- environment

  predicate BinaryOk(binary: Binary)
  {
    binary.version > 0 && binary.generatedAt > 0
  }

  datatype Event =
    | SyncEvent(manager: Manager, fetched: Fetched, allowDowngrade: bool, now: nat, faults: Faults)
    | ResetEvent(manager: Manager, now: nat, faults: Faults)
    | Upgrade(binary: Binary)

  predicate Legal(event: Event)
  {
    match event
    case SyncEvent(_, fetched, _, now, _) => fetched.provenance != "" && now > 0
    case ResetEvent(_, now, _) => now > 0
    case Upgrade(binary) => BinaryOk(binary)
  }

  datatype Host = Host(disk: Disk, binary: Binary)

  function Step(host: Host, world: World, event: Event): Host
  {
    var s := Sys(host.disk, 0);
    match event
    case SyncEvent(manager, fetched, allowDowngrade, now, faults) =>
      host.(disk := Sync(s, faults, host.binary, world, manager, fetched, allowDowngrade, now).0.disk)
    case ResetEvent(manager, now, faults) => host.(disk := Reset(s, faults, host.binary, manager, now).0.disk)
    case Upgrade(binary) => host.(binary := binary)
  }

  function Run(host: Host, world: World, events: seq<Event>): Host
    decreases |events|
  {
    if events == [] then host else Run(Step(host, world, events[0]), world, events[1..])
  }

  const EMPTY_DISK := Disk(None, map[], map[], map[])

  // ---------------------------------------------------------------- one step

  /** Files only appear; no file changes. */
  ghost predicate FilesGrow(before: Disk, after: Disk)
  {
    && after.registry == before.registry && after.unqualified == before.unqualified
    && (forall file :: file in before.catalogs ==> file in after.catalogs && after.catalogs[file] == before.catalogs[file])
    && forall file :: file in before.signatures ==> file in after.signatures && after.signatures[file] == before.signatures[file]
  }

  lemma GrowthKeepsOk(before: Disk, after: Disk, world: World)
    requires RegistryOk(before, world) && FilesGrow(before, after) && FilesOk(after, world)
    ensures RegistryOk(after, world)
  {
  }

  /** The files that a sync has stored when it comes to write its pointer. */
  function Stored(s: Sys, faults: Faults, version: nat, key: KeyId, fetched: Fetched): (Sys, bool)
  {
    var (s1, stored) := WriteCatalog(s, faults, version, fetched.data);
    if !stored then (s1, false)
    else if fetched.signature == "" then (s1, true)
    else WriteSignature(s1, faults, version, fetched.data, key, fetched.signature)
  }

  lemma WriteCatalogKeepsOk(s: Sys, faults: Faults, world: World, version: nat, data: string)
    requires RegistryOk(s.disk, world)
    ensures var (s1, ok) := WriteCatalog(s, faults, version, data);
            && RegistryOk(s1.disk, world) && FilesGrow(s.disk, s1.disk)
            && (ok ==> (version, Sha256(data)) in s1.disk.catalogs && s1.disk.catalogs[(version, Sha256(data))] == data)
  {
    var s1 := WriteCatalog(s, faults, version, data).0;
    assert FilesGrow(s.disk, s1.disk);
    assert FilesOk(s1.disk, world);
    GrowthKeepsOk(s.disk, s1.disk, world);
  }

  lemma WriteSignatureKeepsOk(s: Sys, faults: Faults, world: World, version: nat, data: string, key: KeyId, signature: string)
    requires RegistryOk(s.disk, world) && (version, Sha256(data)) in s.disk.catalogs && world.signer(data, signature) == Some(key)
    ensures var (s1, ok) := WriteSignature(s, faults, version, data, key, signature);
            && RegistryOk(s1.disk, world) && FilesGrow(s.disk, s1.disk)
            && (ok ==> (version, Sha256(data), key) in s1.disk.signatures && s1.disk.signatures[(version, Sha256(data), key)] == signature)
  {
    var s1 := WriteSignature(s, faults, version, data, key, signature).0;
    assert s.disk.catalogs[(version, Sha256(data))] == data by {
      assert Sha256(s.disk.catalogs[(version, Sha256(data))]) == Sha256(data);
    }
    assert FilesGrow(s.disk, s1.disk);
    assert FilesOk(s1.disk, world);
    GrowthKeepsOk(s.disk, s1.disk, world);
  }

  lemma StoringKeepsOk(s: Sys, faults: Faults, binary: Binary, world: World, manager: Manager, version: nat, key: KeyId, fetched: Fetched)
    requires RegistryOk(s.disk, world) && Authenticate(binary, world, manager, fetched) == Some(key)
    ensures var (s1, ok) := Stored(s, faults, version, key, fetched);
            && RegistryOk(s1.disk, world) && FilesGrow(s.disk, s1.disk)
            && (ok ==>
                  && var file := (version, Sha256(fetched.data));
                  && file in s1.disk.catalogs && s1.disk.catalogs[file] == fetched.data
                  && (fetched.signature != "" ==>
                        (file.0, file.1, key) in s1.disk.signatures && s1.disk.signatures[(file.0, file.1, key)] == fetched.signature))
  {
    WriteCatalogKeepsOk(s, faults, world, version, fetched.data);
    var (s1, stored) := WriteCatalog(s, faults, version, fetched.data);
    if stored && fetched.signature != "" {
      WriteSignatureKeepsOk(s1, faults, world, version, fetched.data, key, fetched.signature);
    }
  }

  lemma PointerKeepsOk(disk: Disk, world: World, key: RepoKey, state: State)
    requires RegistryOk(disk, world) && ValidState(state) && Complete(disk, world, state)
    ensures RegistryOk(WithState(disk, key, state), world)
  {
    var after := WithState(disk, key, state);
    forall other | other in after.registry.value
      ensures ValidState(after.registry.value[other]) && Complete(after, world, after.registry.value[other])
    {
      assert Complete(disk, world, after.registry.value[other]);
    }
  }

  lemma PointerAdvances(disk: Disk, key: RepoKey, state: State)
    requires ReadableRegistry(disk) && ReadableRegistry(WithState(disk, key, state)) && state.highest >= Highest(disk, key)
    ensures Advances(disk, WithState(disk, key, state), key)
  {
  }

  lemma WritingKeepsOk(s: Sys, faults: Faults, world: World, key: RepoKey, state: State)
    requires RegistryOk(s.disk, world) && ValidState(state) && Complete(s.disk, world, state)
    requires state.highest >= Highest(s.disk, key)
    ensures var (s1, ok) := WriteState(s, faults, key, state);
            && RegistryOk(s1.disk, world) && Advances(s.disk, s1.disk, key)
            && (ok ==> s1.disk == WithState(s.disk, key, state))
  {
    PointerKeepsOk(s.disk, world, key, state);
    PointerAdvances(s.disk, key, state);
  }

  lemma BaseKeepsHighest(disk: Disk, binary: Binary, key: RepoKey)
    requires SyncBase(disk, binary, key).Ok?
    ensures var base := SyncBase(disk, binary, key).value;
            Highest(disk, key) <= if base.Some? then base.value.highest else 0
  {
  }

  /** A sync that passes its checks stores the files and then writes the pointer. */
  lemma SyncStoresThenWrites(s: Sys, faults: Faults, binary: Binary, world: World, manager: Manager, fetched: Fetched, allowDowngrade: bool, now: nat)
    requires Authenticate(binary, world, manager, fetched).Some? && CatalogVersion(world, fetched.data).Some?
    requires SyncBase(s.disk, binary, manager.key).Ok?
    requires Acceptable(SyncBase(s.disk, binary, manager.key).value, fetched, CatalogVersion(world, fetched.data).value, allowDowngrade)
    ensures var key, version := Authenticate(binary, world, manager, fetched).value, CatalogVersion(world, fetched.data).value;
            var (s1, stored) := Stored(s, faults, version, key, fetched);
            var state := Accepted(SyncBase(s.disk, binary, manager.key).value, fetched, version, key, now);
            Sync(s, faults, binary, world, manager, fetched, allowDowngrade, now).0
            == if stored then WriteState(s1, faults, manager.key, state).0 else s1
  {
  }

  lemma AcceptedKeepsOk(s: Sys, faults: Faults, world: World, repository: RepoKey, base: Option<State>, fetched: Fetched, version: nat, key: KeyId, now: nat)
    requires RegistryOk(s.disk, world) && fetched.provenance != "" && now > 0 && CatalogVersion(world, fetched.data) == Some(version)
    requires (version, Sha256(fetched.data)) in s.disk.catalogs && s.disk.catalogs[(version, Sha256(fetched.data))] == fetched.data
    requires key != 0 ==> (version, Sha256(fetched.data), key) in s.disk.signatures
    requires Highest(s.disk, repository) <= if base.Some? then base.value.highest else 0
    ensures var s1 := WriteState(s, faults, repository, Accepted(base, fetched, version, key, now)).0;
            RegistryOk(s1.disk, world) && Advances(s.disk, s1.disk, repository)
  {
    WritingKeepsOk(s, faults, world, repository, Accepted(base, fetched, version, key, now));
  }

  lemma SyncKeepsOk(s: Sys, faults: Faults, binary: Binary, world: World, manager: Manager, fetched: Fetched, allowDowngrade: bool, now: nat)
    requires RegistryOk(s.disk, world) && BinaryOk(binary) && fetched.provenance != "" && now > 0
    ensures var s1 := Sync(s, faults, binary, world, manager, fetched, allowDowngrade, now).0;
            RegistryOk(s1.disk, world) && Advances(s.disk, s1.disk, manager.key)
  {
    var key := Authenticate(binary, world, manager, fetched);
    var version := CatalogVersion(world, fetched.data);
    var base := SyncBase(s.disk, binary, manager.key);
    if key.Some? && version.Some? && base.Ok? && Acceptable(base.value, fetched, version.value, allowDowngrade) {
      SyncStoresThenWrites(s, faults, binary, world, manager, fetched, allowDowngrade, now);
      StoringKeepsOk(s, faults, binary, world, manager, version.value, key.value, fetched);
      var (s1, stored) := Stored(s, faults, version.value, key.value, fetched);
      StoringAdvances(s.disk, s1.disk, manager.key);
      if stored {
        BaseKeepsHighest(s.disk, binary, manager.key);
        AcceptedKeepsOk(s1, faults, world, manager.key, base.value, fetched, version.value, key.value, now);
      }
    }
  }

  lemma StoringAdvances(before: Disk, after: Disk, key: RepoKey)
    requires FilesGrow(before, after)
    ensures Advances(before, after, key) && Highest(after, key) == Highest(before, key)
    ensures forall last: Disk :: Advances(after, last, key) ==> Advances(before, last, key)
  {
    assert ReadableRegistry(after) == ReadableRegistry(before);
    assert forall other :: ReadState(after, other) == ReadState(before, other) && Highest(after, other) == Highest(before, other);
  }

  lemma ResetKeepsOk(s: Sys, faults: Faults, binary: Binary, world: World, manager: Manager, now: nat)
    requires RegistryOk(s.disk, world) && BinaryOk(binary) && now > 0
    ensures var s1 := Reset(s, faults, binary, manager, now).0;
            RegistryOk(s1.disk, world) && Advances(s.disk, s1.disk, manager.key)
  {
    var state := ResetState(s.disk, binary, manager.key, now);
    assert ValidState(state);
    WritingKeepsOk(s, faults, world, manager.key, state);
  }

  // ---------------------------------------------------------------- whole runs

  lemma StepKeepsOk(host: Host, world: World, event: Event)
    requires RegistryOk(host.disk, world) && BinaryOk(host.binary) && Legal(event)
    ensures var next := Step(host, world, event);
            && RegistryOk(next.disk, world) && BinaryOk(next.binary)
            && forall key :: Highest(host.disk, key) <= Highest(next.disk, key)
  {
    var s := Sys(host.disk, 0);
    match event
    case SyncEvent(manager, fetched, allowDowngrade, now, faults) =>
      SyncKeepsOk(s, faults, host.binary, world, manager, fetched, allowDowngrade, now);
    case ResetEvent(manager, now, faults) =>
      ResetKeepsOk(s, faults, host.binary, world, manager, now);
    case Upgrade(binary) =>
  }

  /** At every crash point of every run of syncs, resets and upgrades the registry is readable, every pointer is
      embedded or names complete bytes and its signature, and no high-water mark has fallen. */
  lemma {:induction false} RunsKeepRegistryOk(host: Host, world: World, events: seq<Event>)
    requires RegistryOk(host.disk, world) && BinaryOk(host.binary)
    requires forall i :: 0 <= i < |events| ==> Legal(events[i])
    ensures var last := Run(host, world, events);
            && RegistryOk(last.disk, world) && BinaryOk(last.binary)
            && forall key :: Highest(host.disk, key) <= Highest(last.disk, key)
    decreases |events|
  {
    if events != [] {
      StepKeepsOk(host, world, events[0]);
      RunsKeepRegistryOk(Step(host, world, events[0]), world, events[1..]);
    }
  }

  lemma EmptyIsOk(world: World)
    ensures RegistryOk(EMPTY_DISK, world)
  {
  }

  // ---------------------------------------------------------------- what readers get

  /** From every reachable registry a reset that succeeds gives the embedded catalog to the next reader. */
  lemma ResetThenCurrent(s: Sys, faults: Faults, binary: Binary, world: World, manager: Manager, now: nat)
    requires RegistryOk(s.disk, world) && BinaryOk(binary) && now > 0
    ensures var (s1, state) := Reset(s, faults, binary, manager, now);
            && (faults(s.clock) == Clean ==> state.Some?)
            && (state.Some? ==>
                  var current := Current(s1.disk, binary, world, manager);
                  current.Some? && current.value.0 == binary.data && current.value.1.active == Embedded)
  {
    var state := ResetState(s.disk, binary, manager.key, now);
    assert ValidState(state);
    WritingKeepsOk(s, faults, world, manager.key, state);
  }

  /** On the default repository: other bytes under the embedded version. */
  predicate Equivocates(binary: Binary, world: World, manager: Manager, fetched: Fetched)
  {
    manager.key == Default && CatalogVersion(world, fetched.data) == Some(binary.version) && fetched.data != binary.data
  }

  /** The catalog is signed by a key that has a text, or the repository may be unsigned. */
  predicate Signed(binary: Binary, world: World, manager: Manager, fetched: Fetched)
  {
    Authenticate(binary, world, manager, fetched) != Some(0) || manager.unsignedAllowed
  }

  /** What an accepted sync left. */
  lemma AcceptedIsStored(s: Sys, faults: Faults, binary: Binary, world: World, manager: Manager, fetched: Fetched, allowDowngrade: bool, now: nat)
    requires RegistryOk(s.disk, world) && BinaryOk(binary) && fetched.provenance != "" && now > 0
    requires Sync(s, faults, binary, world, manager, fetched, allowDowngrade, now).1.Some?
    ensures var (s1, accepted) := Sync(s, faults, binary, world, manager, fetched, allowDowngrade, now);
            var state := accepted.value;
            var file := (state.activeVersion, state.activeDigest);
            && ReadState(s1.disk, manager.key) == Found(state)
            && state.active == Versioned(state.activeVersion, state.activeDigest) && state.activeDigest == Sha256(fetched.data)
            && Authenticate(binary, world, manager, fetched) == Some(state.keyId)
            && state.highest >= state.activeVersion && (manager.key == Default ==> state.highest >= binary.version)
            && CatalogVersion(world, fetched.data) == Some(state.activeVersion)
            && file in s1.disk.catalogs && s1.disk.catalogs[file] == fetched.data
            && (state.keyId != 0 ==>
                  && (file.0, file.1, state.keyId) in s1.disk.signatures
                  && Verify(binary, world, fetched.data, s1.disk.signatures[(file.0, file.1, state.keyId)]) == Some(state.keyId))
  {
    var key := Authenticate(binary, world, manager, fetched).value;
    var version := CatalogVersion(world, fetched.data).value;
    var base := SyncBase(s.disk, binary, manager.key).value;
    StoringKeepsOk(s, faults, binary, world, manager, version, key, fetched);
    var (s1, stored) := Stored(s, faults, version, key, fetched);
    BaseKeepsHighest(s.disk, binary, manager.key);
    WritingKeepsOk(s1, faults, world, manager.key, Accepted(base, fetched, version, key, now));
  }

  /** After an accepted sync the reader gets exactly the accepted catalog, if and only if the fetched bytes do not
      equivocate with the embedded ones and are signed by a key with a text, or the repository may be unsigned. */
  lemma SyncThenCurrent(s: Sys, faults: Faults, binary: Binary, world: World, manager: Manager, fetched: Fetched, allowDowngrade: bool, now: nat)
    requires RegistryOk(s.disk, world) && BinaryOk(binary) && fetched.provenance != "" && now > 0
    requires Sync(s, faults, binary, world, manager, fetched, allowDowngrade, now).1.Some?
    ensures var (s1, state) := Sync(s, faults, binary, world, manager, fetched, allowDowngrade, now);
            var current := Current(s1.disk, binary, world, manager);
            if !Equivocates(binary, world, manager, fetched) && Signed(binary, world, manager, fetched)
            then current == Some((fetched.data, state.value))
            else current == None
  {
    AcceptedIsStored(s, faults, binary, world, manager, fetched, allowDowngrade, now);
    var (s1, state) := Sync(s, faults, binary, world, manager, fetched, allowDowngrade, now);
    StoredIsRead(s1.disk, binary, world, manager, fetched, state.value);
  }

  lemma StoredIsRead(disk: Disk, binary: Binary, world: World, manager: Manager, fetched: Fetched, state: State)
    requires ReadState(disk, manager.key) == Found(state)
    requires state.active == Versioned(state.activeVersion, state.activeDigest) && state.activeDigest == Sha256(fetched.data)
    requires state.highest >= state.activeVersion && (manager.key == Default ==> state.highest >= binary.version)
    requires CatalogVersion(world, fetched.data) == Some(state.activeVersion)
    requires Authenticate(binary, world, manager, fetched) == Some(state.keyId)
    requires var file := (state.activeVersion, state.activeDigest);
             && file in disk.catalogs && disk.catalogs[file] == fetched.data
             && (state.keyId != 0 ==>
                   && (file.0, file.1, state.keyId) in disk.signatures
                   && Verify(binary, world, fetched.data, disk.signatures[(file.0, file.1, state.keyId)]) == Some(state.keyId))
    ensures Current(disk, binary, world, manager) ==
            if !Equivocates(binary, world, manager, fetched) && Signed(binary, world, manager, fetched)
            then Some((fetched.data, state)) else None
  {
  }

  /** A sync without downgrade ends with the active version at the high-water mark. */
  lemma SyncEndsAtHighest(s: Sys, faults: Faults, binary: Binary, world: World, manager: Manager, fetched: Fetched, now: nat)
    ensures var state := Sync(s, faults, binary, world, manager, fetched, false, now).1;
            state.Some? ==> state.value.activeVersion == state.value.highest && !state.value.downgrade
  {
  }

  /** When a reader of a reachable registry is refused. */
  predicate Refused(binary: Binary, manager: Manager, stored: State)
  {
    if manager.key == Default && stored.highest < binary.version then false
    else if stored.active == Embedded then
      manager.key == Default && (stored.activeVersion != binary.version || stored.activeDigest != Sha256(binary.data))
    else
      || (manager.key == Default && stored.activeVersion == binary.version && stored.activeDigest != Sha256(binary.data))
      || (stored.keyId == 0 && !manager.unsignedAllowed)
      || (stored.keyId != 0 && stored.keyId !in binary.keys)
  }

  /** On every reachable registry reading succeeds exactly outside the refused cases: no crash, fault or upgrade
      leaves a pointer that a reader cannot follow. */
  lemma CurrentIsExact(disk: Disk, binary: Binary, world: World, manager: Manager)
    requires RegistryOk(disk, world)
    ensures ReadState(disk, manager.key) != Broken
    ensures Current(disk, binary, world, manager).None?
            <==> ReadState(disk, manager.key).Found? && Refused(binary, manager, ReadState(disk, manager.key).state)
  {
  }

  /** Over every run from an empty registry: it is readable, and a reader is refused exactly in the refused cases. */
  lemma FreshRunsAreReadable(binary: Binary, world: World, events: seq<Event>, manager: Manager)
    requires BinaryOk(binary) && forall i :: 0 <= i < |events| ==> Legal(events[i])
    ensures var last := Run(Host(EMPTY_DISK, binary), world, events);
            var reading := ReadState(last.disk, manager.key);
            && reading != Broken
            && (Current(last.disk, last.binary, world, manager).None? <==> reading.Found? && Refused(last.binary, manager, reading.state))
  {
    EmptyIsOk(world);
    RunsKeepRegistryOk(Host(EMPTY_DISK, binary), world, events);
    var last := Run(Host(EMPTY_DISK, binary), world, events);
    CurrentIsExact(last.disk, last.binary, world, manager);
  }

  // ---------------------------------------------------------------- spellings of a repository

  /** Two spellings normalize alike; no spelling at all is the default repository. */
  predicate SameRepository(normalize: string -> Option<string>, defaultUrl: string, first: string, second: string)
  {
    if first == "" && second == "" then true
    else if first == "" then defaultUrl != "" && normalize(second) == normalize(defaultUrl)
    else if second == "" then defaultUrl != "" && normalize(first) == normalize(defaultUrl)
    else normalize(first) == normalize(second)
  }

  /** Two accepted spellings share a state if and only if they normalize alike. */
  lemma SpellingsShareState(normalize: string -> Option<string>, defaultUrl: string, first: string, second: string)
    requires StateKey(normalize, defaultUrl, first).Some? && StateKey(normalize, defaultUrl, second).Some?
    ensures StateKey(normalize, defaultUrl, first) == StateKey(normalize, defaultUrl, second)
            <==> SameRepository(normalize, defaultUrl, first, second)
  {
  }

  /** A sync through one spelling is seen through another if and only if they normalize alike; otherwise the other
      repository's state is untouched, whatever happens. */
  lemma SyncThroughSpellings(s: Sys, faults: Faults, binary: Binary, world: World, normalize: string -> Option<string>, defaultUrl: string,
                             first: string, second: string, unsignedAllowed: bool, fetched: Fetched, allowDowngrade: bool, now: nat)
    requires RegistryOk(s.disk, world) && BinaryOk(binary) && fetched.provenance != "" && now > 0
    requires StateKey(normalize, defaultUrl, first).Some? && StateKey(normalize, defaultUrl, second).Some?
    ensures var manager := Manager(StateKey(normalize, defaultUrl, first).value, unsignedAllowed);
            var (s1, accepted) := Sync(s, faults, binary, world, manager, fetched, allowDowngrade, now);
            var other := StateKey(normalize, defaultUrl, second).value;
            if !SameRepository(normalize, defaultUrl, first, second) then ReadState(s1.disk, other) == ReadState(s.disk, other)
            else accepted.Some? ==> ReadState(s1.disk, other) == Found(accepted.value)
  {
    var manager := Manager(StateKey(normalize, defaultUrl, first).value, unsignedAllowed);
    SpellingsShareState(normalize, defaultUrl, first, second);
    SyncKeepsOk(s, faults, binary, world, manager, fetched, allowDowngrade, now);
    if Sync(s, faults, binary, world, manager, fetched, allowDowngrade, now).1.Some? {
      AcceptedIsStored(s, faults, binary, world, manager, fetched, allowDowngrade, now);
    }
  }

  // ---------------------------------------------------------------- the equivocation corner

  /** Two accepted syncs, the second without permission to downgrade, leave the default repository with other bytes
      under the embedded version: the first downgrades below it, so the check against the active version no longer
      sees the embedded bytes. Reading then fails, every further sync is refused, and a reset repairs it. */
  lemma EquivocationIsReachable(world: World, older: string, other: string, signed: string)
    requires world.decode(older) == Some(9) && world.decode(other) == Some(10) && other != "embedded bytes"
    requires signed != "" && world.signer(older, signed) == Some(7) && world.signer(other, signed) == Some(7)
    ensures var binary := Binary(10, "embedded bytes", 1, {7});
            var manager := Manager(Default, false);
            var none: Faults := step => Clean;
            var (s1, first) := Sync(Sys(EMPTY_DISK, 0), none, binary, world, manager, Fetched(older, signed, "a", true), true, 1);
            var (s2, second) := Sync(s1, none, binary, world, manager, Fetched(other, signed, "b", true), false, 2);
            && first.Some? && second.Some?
            && Current(s2.disk, binary, world, manager) == None
            && (forall fetched, allow, now, faults ::
                  Sync(s2, faults, binary, world, manager, fetched, allow, now) == (s2, None))
            && var (s3, state) := Reset(s2, none, binary, manager, 3);
            Current(s3.disk, binary, world, manager) == Some(("embedded bytes", state.value))
  {
  }
}
