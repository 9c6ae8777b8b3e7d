/** The registry operations in the form the program has them: methods that update the registry map and the files
    it points to. Each does exactly what the function of the same name in Registry specifies. */
module RegistryManager {
  import opened Wrappers
  import opened Digests
  import R = Registry

  class Store {
    const faults: Faults
    var registry: Option<map<R.RepoKey, R.State>>
    var catalogs: map<(nat, Digest), string>
    var signatures: map<(nat, Digest, R.KeyId), string>
    var unqualified: map<(nat, Digest), string>
    var clock: nat

    constructor (faults: Faults)
      ensures this.faults == faults && Now() == R.Sys(R.Disk(None, map[], map[], map[]), 0)
    {
      this.faults := faults;
      registry, catalogs, signatures, unqualified, clock := None, map[], map[], map[], 0;
    }

    function Current(): R.Disk
      reads this
    {
      R.Disk(registry, catalogs, signatures, unqualified)
    }

    ghost function Now(): R.Sys
      reads this
    {
      R.Sys(Current(), clock)
    }

    method Attempt() returns (effect: bool, ok: bool)
      modifies this`clock
      ensures effect == (faults(old(clock)) != Lost) && ok == (faults(old(clock)) == Clean)
      ensures clock == old(clock) + 1
    {
      var fault := faults(clock);
      clock := clock + 1;
      return fault != Lost, fault == Clean;
    }

    /** Reading the whole registry fails when any entry is invalid. */
    method ReadState(key: R.RepoKey) returns (reading: R.Reading)
      ensures reading == R.ReadState(Current(), key)
    {
      if registry.None? {
        return R.Missing;
      }
      var states := registry.value;
      var keys := states.Keys;
      while keys != {}
        invariant keys <= states.Keys
        invariant forall k :: k in states && k !in keys ==> R.ValidState(states[k])
      {
        var k :| k in keys;
        if !R.ValidState(states[k]) {
          return R.Broken;
        }
        keys := keys - {k};
      }
      return if key in states then R.Found(states[key]) else R.Missing;
    }

    method WriteState(key: R.RepoKey, state: R.State) returns (ok: bool)
      modifies this`clock, this`registry
      ensures (Now(), ok) == R.WriteState(old(Now()), faults, key, state)
    {
      var reading := ReadState(key);
      if reading.Broken? {
        return false;
      }
      var states := if registry.Some? then registry.value else map[];
      var effect;
      effect, ok := Attempt();
      if effect {
        registry := Some(states[key := state]);
      }
    }

    method WriteCatalog(version: nat, data: string) returns (ok: bool)
      modifies this`clock, this`catalogs
      ensures (Now(), ok) == R.WriteCatalog(old(Now()), faults, version, data)
    {
      var file := (version, Sha256(data));
      if file in catalogs {
        return catalogs[file] == data;
      }
      var effect;
      effect, ok := Attempt();
      if effect {
        catalogs := catalogs[file := data];
      }
    }

    method WriteSignature(version: nat, data: string, key: R.KeyId, signature: string) returns (ok: bool)
      modifies this`clock, this`signatures
      ensures (Now(), ok) == R.WriteSignature(old(Now()), faults, version, data, key, signature)
    {
      var file := (version, Sha256(data), key);
      if file in signatures {
        return signatures[file] == signature;
      }
      var effect;
      effect, ok := Attempt();
      if effect {
        signatures := signatures[file := signature];
      }
    }

    /** The state a sync starts from. */
    method ReadBase(binary: R.Binary, key: R.RepoKey) returns (base: Result<Option<R.State>, ()>)
      ensures base == R.SyncBase(Current(), binary, key)
    {
      var reading := ReadState(key);
      var current: Option<R.State> := None;
      match reading {
        case Broken => return Err(());
        case Missing =>
          if key == R.Default {
            current := Some(R.EmbeddedState(binary));
          }
        case Found(state) => current := Some(state);
      }
      if key == R.Default {
        current := R.Baseline(binary, current.value);
        if current.None? {
          return Err(());
        }
      }
      return Ok(current);
    }

    static method Admit(base: Option<R.State>, fetched: R.Fetched, version: nat, allowDowngrade: bool) returns (ok: bool)
      ensures ok == R.Acceptable(base, fetched, version, allowDowngrade)
    {
      if base.None? {
        return true;
      }
      var current := base.value;
      if current.keyId != 0 && fetched.signature == "" && !allowDowngrade {
        return false;
      }
      if version == current.activeVersion && Sha256(fetched.data) != current.activeDigest {
        return false;
      }
      return version >= current.highest || allowDowngrade;
    }

    method Sync(binary: R.Binary, world: R.World, manager: R.Manager, fetched: R.Fetched, allowDowngrade: bool, now: nat)
      returns (accepted: Option<R.State>)
      modifies this
      ensures (Now(), accepted) == R.Sync(old(Now()), faults, binary, world, manager, fetched, allowDowngrade, now)
    {
      var key := R.Authenticate(binary, world, manager, fetched);
      var version := R.CatalogVersion(world, fetched.data);
      if key.None? || version.None? {
        return None;
      }
      var base := ReadBase(binary, manager.key);
      if base.Err? {
        return None;
      }
      var admitted := Admit(base.value, fetched, version.value, allowDowngrade);
      if !admitted {
        return None;
      }
      var ok := WriteCatalog(version.value, fetched.data);
      if ok && fetched.signature != "" {
        ok := WriteSignature(version.value, fetched.data, key.value, fetched.signature);
      }
      if !ok {
        return None;
      }
      var state := R.Accepted(base.value, fetched, version.value, key.value, now);
      var written := WriteState(manager.key, state);
      return if written then Some(state) else None;
    }

    method Reset(binary: R.Binary, manager: R.Manager, now: nat) returns (state: Option<R.State>)
      modifies this`clock, this`registry
      ensures (Now(), state) == R.Reset(old(Now()), faults, binary, manager, now)
    {
      var reading := ReadState(manager.key);
      var embedded := R.EmbeddedState(binary).(acceptedAt := now);
      match reading {
        case Broken => return None;
        case Missing =>
          if manager.key != R.Default {
            return Some(embedded);
          }
        case Found(current) =>
          if manager.key != R.Default {
            embedded := embedded.(highest := current.highest, keyId := current.keyId);
          } else if current.highest > embedded.highest {
            embedded := embedded.(highest := current.highest);
          }
      }
      var written := WriteState(manager.key, embedded);
      return if written then Some(embedded) else None;
    }
  }
}
