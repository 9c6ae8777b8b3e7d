/** When a catalog is accepted and what that leaves, in terms of the fetched bytes, the binary and the stored state. */
module RegistryAdmission {
  import opened Wrappers
  import opened Digests
  import opened Registry
  import opened RegistryLaws

  // ---------------------------------------------------------------- the conditions

  /** The bytes are signed by a trusted key, or unsigned ones come from a repository that may be unsigned. */
  predicate Authentic(binary: Binary, world: World, manager: Manager, fetched: Fetched)
  {
    if fetched.signature == "" then manager.unsignedAllowed && fetched.fromRepository
    else
      var signer := world.signer(fetched.data, fetched.signature);
      signer.Some? && signer.value in binary.keys
  }

  predicate HasVersion(world: World, fetched: Fetched, version: nat)
  {
    version > 0 && world.decode(fetched.data) == Some(version)
  }

  /** Every stored entry is one that the program could have written. */
  ghost predicate Readable(disk: Disk)
  {
    disk.registry.Some? ==>
      forall key :: key in disk.registry.value ==>
        var state := disk.registry.value[key];
        && state.highest > 0 && state.activeVersion > 0 && state.acceptedAt > 0 && |state.source| > 0
        && (state.active.Versioned? ==> state.activeVersion <= state.highest)
  }

  predicate HasState(disk: Disk, key: RepoKey, state: State)
  {
    disk.registry.Some? && key in disk.registry.value && disk.registry.value[key] == state
  }

  /** The default repository's state no longer counts once the binary brings a newer catalog than it ever had. */
  predicate Superseded(binary: Binary, key: RepoKey, state: State)
  {
    key == Default && state.highest < binary.version
  }

  /** The stored state that the next catalog is compared with. */
  ghost predicate Governs(disk: Disk, binary: Binary, key: RepoKey, state: State)
  {
    HasState(disk, key, state) && !Superseded(binary, key, state)
  }

  ghost predicate Ungoverned(disk: Disk, binary: Binary, key: RepoKey)
  {
    forall state :: !Governs(disk, binary, key, state)
  }

  /** The stored state disagrees with the binary about the embedded catalog. */
  predicate Contradicts(binary: Binary, key: RepoKey, state: State)
  {
    && key == Default
    && (state.active == Embedded || state.activeVersion == binary.version)
    && !(state.activeVersion == binary.version && state.activeDigest.data == binary.data)
  }

  /** What a governing state asks of the next catalog. */
  predicate Permits(state: State, fetched: Fetched, version: nat, allowDowngrade: bool)
  {
    && (state.keyId > 0 && fetched.signature == "" ==> allowDowngrade)
    && (version == state.activeVersion ==> fetched.data == state.activeDigest.data)
    && (version < state.highest ==> allowDowngrade)
  }

  /** What the binary asks of the next catalog of the default repository when no state governs it. */
  predicate EmbeddedPermits(binary: Binary, fetched: Fetched, version: nat, allowDowngrade: bool)
  {
    && (version == binary.version ==> fetched.data == binary.data)
    && (version < binary.version ==> allowDowngrade)
  }

  /** The catalog may follow what the repository had. */
  ghost predicate Follows(disk: Disk, binary: Binary, key: RepoKey, fetched: Fetched, version: nat, allowDowngrade: bool)
  {
    && (forall state :: Governs(disk, binary, key, state) ==>
          !Contradicts(binary, key, state) && Permits(state, fetched, version, allowDowngrade))
    && (key == Default && Ungoverned(disk, binary, key) ==> EmbeddedPermits(binary, fetched, version, allowDowngrade))
  }

  /** No other bytes are stored under the names of the catalog and its signature. */
  predicate NamesAreFree(disk: Disk, world: World, fetched: Fetched, version: nat)
  {
    var digest := Sha256(fetched.data);
    && ((version, digest) in disk.catalogs ==> disk.catalogs[(version, digest)] == fetched.data)
    && (fetched.signature != "" && world.signer(fetched.data, fetched.signature).Some? ==>
          var file := (version, digest, world.signer(fetched.data, fetched.signature).value);
          file in disk.signatures ==> disk.signatures[file] == fetched.signature)
  }

  ghost predicate Admits(disk: Disk, binary: Binary, world: World, manager: Manager, fetched: Fetched, version: nat, allowDowngrade: bool)
  {
    && Authentic(binary, world, manager, fetched) && HasVersion(world, fetched, version) && Readable(disk)
    && Follows(disk, binary, manager.key, fetched, version, allowDowngrade)
  }

  // ---------------------------------------------------------------- exactness

  lemma ReadableIsChecked(disk: Disk)
    ensures ReadableRegistry(disk) <==> Readable(disk)
  {
  }

  lemma AuthenticIsChecked(binary: Binary, world: World, manager: Manager, fetched: Fetched)
    ensures Authenticate(binary, world, manager, fetched).Some? <==> Authentic(binary, world, manager, fetched)
    ensures Authentic(binary, world, manager, fetched) ==>
              Authenticate(binary, world, manager, fetched)
              == if fetched.signature == "" then Some(0) else world.signer(fetched.data, fetched.signature)
  {
  }

  lemma BaseIsGoverned(disk: Disk, binary: Binary, key: RepoKey, fetched: Fetched, version: nat, allowDowngrade: bool)
    requires Readable(disk) && version > 0
    ensures var base := SyncBase(disk, binary, key);
            base.Ok? && Acceptable(base.value, fetched, version, allowDowngrade)
            <==> Follows(disk, binary, key, fetched, version, allowDowngrade)
  {
    if disk.registry.Some? && key in disk.registry.value {
      var state := disk.registry.value[key];
      assert Governs(disk, binary, key, state) || Ungoverned(disk, binary, key);
    } else {
      assert Ungoverned(disk, binary, key);
    }
  }

  lemma ChecksAreExact(disk: Disk, binary: Binary, world: World, manager: Manager, fetched: Fetched, allowDowngrade: bool)
    ensures var version, base := CatalogVersion(world, fetched.data), SyncBase(disk, binary, manager.key);
            && Authenticate(binary, world, manager, fetched).Some? && version.Some? && base.Ok?
            && Acceptable(base.value, fetched, version.value, allowDowngrade)
            <==> exists version :: Admits(disk, binary, world, manager, fetched, version, allowDowngrade)
  {
    AuthenticIsChecked(binary, world, manager, fetched);
    ReadableIsChecked(disk);
    var version := CatalogVersion(world, fetched.data);
    if version.Some? {
      assert forall other :: HasVersion(world, fetched, other) <==> other == version.value;
      if Readable(disk) {
        BaseIsGoverned(disk, binary, manager.key, fetched, version.value, allowDowngrade);
        assert Admits(disk, binary, world, manager, fetched, version.value, allowDowngrade)
               <==> Authentic(binary, world, manager, fetched) && Follows(disk, binary, manager.key, fetched, version.value, allowDowngrade);
      }
    }
  }

  /** A catalog that is not admitted is refused without effect, whatever the faults; one that is admitted, and whose file
      names hold no other bytes, is accepted when nothing disturbs the sync; and no other one ever is. */
  lemma SyncIsExact(s: Sys, faults: Faults, binary: Binary, world: World, manager: Manager, fetched: Fetched, version: nat, allowDowngrade: bool, now: nat)
    requires HasVersion(world, fetched, version)
    ensures !Admits(s.disk, binary, world, manager, fetched, version, allowDowngrade) ==>
              Sync(s, faults, binary, world, manager, fetched, allowDowngrade, now) == (s, None)
    ensures Sync(s, NO_FAULTS, binary, world, manager, fetched, allowDowngrade, now).1.Some? <==>
              Admits(s.disk, binary, world, manager, fetched, version, allowDowngrade) && NamesAreFree(s.disk, world, fetched, version)
    ensures Sync(s, faults, binary, world, manager, fetched, allowDowngrade, now).1.Some? ==>
              Admits(s.disk, binary, world, manager, fetched, version, allowDowngrade) && NamesAreFree(s.disk, world, fetched, version)
  {
    ChecksAreExact(s.disk, binary, world, manager, fetched, allowDowngrade);
    AuthenticIsChecked(binary, world, manager, fetched);
    ReadableIsChecked(s.disk);
  }

  /** Bytes that are no catalog are refused without effect. */
  lemma NoCatalogIsRefused(s: Sys, faults: Faults, binary: Binary, world: World, manager: Manager, fetched: Fetched, allowDowngrade: bool, now: nat)
    requires forall version :: !HasVersion(world, fetched, version)
    ensures Sync(s, faults, binary, world, manager, fetched, allowDowngrade, now) == (s, None)
  {
    if CatalogVersion(world, fetched.data).Some? {
      assert HasVersion(world, fetched, CatalogVersion(world, fetched.data).value);
    }
  }

  // ---------------------------------------------------------------- what an accepted sync records

  /** The highest version that the repository ever had, as this binary sees it. */
  ghost predicate IsMark(disk: Disk, binary: Binary, key: RepoKey, mark: nat)
  {
    if Ungoverned(disk, binary, key) then mark == if key == Default then binary.version else 0
    else exists state :: Governs(disk, binary, key, state) && mark == state.highest
  }

  /** An accepted sync records the fetched catalog, its signer and its source, and the higher of its version and the
      mark, and notes exactly a version below the mark as a downgrade. */
  lemma AcceptedIsExact(s: Sys, faults: Faults, binary: Binary, world: World, manager: Manager, fetched: Fetched, version: nat, allowDowngrade: bool, now: nat, mark: nat)
    requires HasVersion(world, fetched, version) && IsMark(s.disk, binary, manager.key, mark)
    requires Sync(s, faults, binary, world, manager, fetched, allowDowngrade, now).1.Some?
    ensures Sync(s, faults, binary, world, manager, fetched, allowDowngrade, now).1.value ==
            State(if version > mark then version else mark, Versioned(version, Sha256(fetched.data)), version, Sha256(fetched.data),
                  if fetched.signature == "" then 0 else world.signer(fetched.data, fetched.signature).value,
                  fetched.provenance, now, version < mark)
  {
    SyncIsExact(s, faults, binary, world, manager, fetched, version, allowDowngrade, now);
    if s.disk.registry.Some? && manager.key in s.disk.registry.value {
      var state := s.disk.registry.value[manager.key];
      assert Governs(s.disk, binary, manager.key, state) || Ungoverned(s.disk, binary, manager.key);
    } else {
      assert Ungoverned(s.disk, binary, manager.key);
    }
  }

  // ---------------------------------------------------------------- a keyed repository

  predicate Keyed(disk: Disk, key: RepoKey)
  {
    disk.registry.Some? && key in disk.registry.value && disk.registry.value[key].keyId > 0
  }

  /** An accepted catalog follows the state that governs its repository: without permission to downgrade it is signed if
      that state has a key, and never below its mark, and at its active version it has its bytes. */
  lemma AcceptedFollows(s: Sys, faults: Faults, binary: Binary, world: World, manager: Manager, fetched: Fetched, allowDowngrade: bool, now: nat, state: State)
    requires Governs(s.disk, binary, manager.key, state)
    requires Sync(s, faults, binary, world, manager, fetched, allowDowngrade, now).1.Some?
    ensures var accepted := Sync(s, faults, binary, world, manager, fetched, allowDowngrade, now).1.value;
            && (!allowDowngrade && state.keyId > 0 ==> fetched.signature != "")
            && (!allowDowngrade ==> accepted.activeVersion >= state.highest && !accepted.downgrade)
            && (accepted.activeVersion == state.activeVersion ==> accepted.activeDigest == state.activeDigest)
            && accepted.highest >= state.highest
  {
    if CatalogVersion(world, fetched.data).Some? {
      var version := CatalogVersion(world, fetched.data).value;
      SyncIsExact(s, faults, binary, world, manager, fetched, version, allowDowngrade, now);
      assert IsMark(s.disk, binary, manager.key, state.highest);
      AcceptedIsExact(s, faults, binary, world, manager, fetched, version, allowDowngrade, now, state.highest);
    }
  }

  /** No sync of the repository may downgrade. */
  predicate Strict(event: Event, key: RepoKey)
  {
    event.SyncEvent? && event.manager.key == key ==> !event.allowDowngrade
  }

  ghost predicate KeysHaveTexts(world: World)
  {
    forall data, signature :: world.signer(data, signature) != Some(0)
  }

  lemma StepKeepsKeyed(host: Host, world: World, event: Event, key: RepoKey)
    requires RegistryOk(host.disk, world) && BinaryOk(host.binary) && Legal(event) && KeysHaveTexts(world)
    requires key != Default && Keyed(host.disk, key) && Strict(event, key)
    ensures Keyed(Step(host, world, event).disk, key)
  {
    var s := Sys(host.disk, 0);
    match event
    case SyncEvent(manager, fetched, allowDowngrade, now, faults) =>
      SyncKeepsOk(s, faults, host.binary, world, manager, fetched, allowDowngrade, now);
      if manager.key == key {
        SyncStaysKeyed(s, faults, host.binary, world, manager, fetched, now);
      } else {
        assert ReadState(Step(host, world, event).disk, key) == ReadState(host.disk, key);
      }
    case ResetEvent(manager, now, faults) =>
      ResetKeepsOk(s, faults, host.binary, world, manager, now);
      assert manager.key != key ==> ReadState(Step(host, world, event).disk, key) == ReadState(host.disk, key);
    case Upgrade(_) =>
  }

  lemma SyncStaysKeyed(s: Sys, faults: Faults, binary: Binary, world: World, manager: Manager, fetched: Fetched, now: nat)
    requires RegistryOk(s.disk, world) && BinaryOk(binary) && fetched.provenance != "" && now > 0 && KeysHaveTexts(world)
    requires manager.key != Default && Keyed(s.disk, manager.key)
    ensures Keyed(Sync(s, faults, binary, world, manager, fetched, false, now).0.disk, manager.key)
  {
    var key := Authenticate(binary, world, manager, fetched);
    var version := CatalogVersion(world, fetched.data);
    var base := SyncBase(s.disk, binary, manager.key);
    if key.Some? && version.Some? && Acceptable(base.value, fetched, version.value, false) {
      var state := s.disk.registry.value[manager.key];
      assert Governs(s.disk, binary, manager.key, state);
      ChecksAreExact(s.disk, binary, world, manager, fetched, false);
      SyncStoresThenWrites(s, faults, binary, world, manager, fetched, false, now);
      StoringKeepsOk(s, faults, binary, world, manager, version.value, key.value, fetched);
    }
  }

  /** Over every run in which no sync of a repository other than the default one may downgrade: once it served a signed
      catalog, whatever faults, resets and upgrades follow, it keeps a key, so an unsigned catalog is never accepted. */
  lemma {:induction false} KeyedStaysKeyed(host: Host, world: World, events: seq<Event>, key: RepoKey)
    requires RegistryOk(host.disk, world) && BinaryOk(host.binary) && KeysHaveTexts(world)
    requires key != Default && Keyed(host.disk, key)
    requires forall i :: 0 <= i < |events| ==> Legal(events[i]) && Strict(events[i], key)
    ensures Keyed(Run(host, world, events).disk, key)
    decreases |events|
  {
    if events != [] {
      StepKeepsOk(host, world, events[0]);
      StepKeepsKeyed(host, world, events[0], key);
      KeyedStaysKeyed(Step(host, world, events[0]), world, events[1..], key);
    }
  }

  // ---------------------------------------------------------------- resets

  /** A reset is refused exactly on a broken registry. It goes back to the embedded catalog but keeps the mark, and the
      key outside the default repository; a repository that has no state gets none. */
  lemma ResetIsExact(s: Sys, faults: Faults, binary: Binary, manager: Manager, now: nat, mark: nat)
    requires HasMark(s.disk, binary, manager.key, mark)
    ensures Reset(s, NO_FAULTS, binary, manager, now).1.Some? <==> Readable(s.disk)
    ensures !Readable(s.disk) ==> Reset(s, faults, binary, manager, now) == (s, None)
    ensures var (s1, state) := Reset(s, faults, binary, manager, now);
            state.Some? ==>
              && state.value == State(mark, Embedded, binary.version, Sha256(binary.data),
                                      if manager.key != Default && Keyed(s.disk, manager.key) then s.disk.registry.value[manager.key].keyId else 0,
                                      "embedded", now, false)
              && (if manager.key != Default && !Registered(s.disk, manager.key) then s1.disk == s.disk
                  else HasState(s1.disk, manager.key, state.value))
  {
    ReadableIsChecked(s.disk);
  }

  predicate Registered(disk: Disk, key: RepoKey)
  {
    disk.registry.Some? && key in disk.registry.value
  }

  /** The mark of a repository other than the default one is the stored one; the default one starts at the binary's. */
  predicate HasMark(disk: Disk, binary: Binary, key: RepoKey, mark: nat)
  {
    if !Registered(disk, key) then mark == binary.version
    else
      var highest := disk.registry.value[key].highest;
      mark == if key == Default && highest < binary.version then binary.version else highest
  }

  // ---------------------------------------------------------------- readers

  /** What a reader of a reachable registry gets: the embedded catalog when no state governs the repository or the state
      points to it, and otherwise the very bytes that the state points to. */
  lemma CurrentReturns(disk: Disk, binary: Binary, world: World, manager: Manager)
    requires RegistryOk(disk, world) && Current(disk, binary, world, manager).Some?
    ensures var (data, state) := Current(disk, binary, world, manager).value;
            && (Ungoverned(disk, binary, manager.key) ==>
                  data == binary.data
                  && state == State(binary.version, Embedded, binary.version, Sha256(binary.data), 0, "embedded", binary.generatedAt, false))
            && (forall stored :: Governs(disk, binary, manager.key, stored) ==>
                  state == stored && (if stored.active == Embedded then data == binary.data else data == stored.activeDigest.data))
  {
    if Registered(disk, manager.key) {
      var stored := disk.registry.value[manager.key];
      assert Governs(disk, binary, manager.key, stored) || Superseded(binary, manager.key, stored);
      assert Complete(disk, world, stored);
    } else {
      assert Ungoverned(disk, binary, manager.key);
    }
  }
}
