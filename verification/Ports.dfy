/** Host ports: choosing them for new nodes, and moving the management port of a node whose port was taken. */
module Ports {
  import opened Wrappers
  import opened Collections

  type Port = p: nat | p < 0x10000

  const CANDIDATE_STEPS := 5

  /** The ports tried for a preferred one: every ten thousand above it that still is a port. */
  predicate IsCandidate(preferred: Port, port: int)
  {
    preferred != 0 && exists n :: 0 <= n < CANDIDATE_STEPS && port == preferred + n * 10000 && port < 0x10000
  }

  /** The first candidate that the probe accepts. */
  method Choose(preferred: Port, available: Port -> bool) returns (chosen: Option<Port>)
    ensures chosen.Some? ==> IsCandidate(preferred, chosen.value) && available(chosen.value)
    ensures chosen.Some? ==> forall port: Port :: IsCandidate(preferred, port) && port < chosen.value ==> !available(port)
    ensures chosen.None? ==> forall port: Port :: IsCandidate(preferred, port) ==> !available(port)
  {
    if preferred == 0 {
      return None;
    }
    for n := 0 to CANDIDATE_STEPS
      invariant forall k :: 0 <= k < n && preferred + k * 10000 < 0x10000 ==> !available(preferred + k * 10000)
    {
      var candidate := preferred + n * 10000;
      if candidate >= 0x10000 {
        return None;
      }
      if available(candidate) {
        return Some(candidate);
      }
    }
    return None;
  }

  // ---------------------------------------------------------------- new nodes

  /** A requested port of zero stands for the host port itself. */
  datatype Forward = Forward(bind: string, host: Port, guest: Port, requested: Port)

  datatype Definition = Definition(name: string, forwards: seq<Forward>)

  type Probe = (string, Port) -> bool

  const LOOPBACK := "127.0.0.1"

  function Requested(forward: Forward): Port
  {
    if forward.requested != 0 then forward.requested else forward.host
  }

  function WithHost(forward: Forward, host: Port): Forward
  {
    forward.(host := host, requested := if host == Requested(forward) then 0 else Requested(forward))
  }

  /** The request behind a forward survives any number of allocations. */
  lemma RequestSurvives(forward: Forward, host: Port)
    requires Requested(forward) != 0
    ensures Requested(WithHost(forward, host)) == Requested(forward)
    ensures var after := WithHost(forward, host);
            after.host == host && after.bind == forward.bind && after.guest == forward.guest
  {
  }

  function Hosts(forwards: seq<Forward>): seq<Port>
  {
    seq(|forwards|, i requires 0 <= i < |forwards| => forwards[i].host)
  }

  predicate Outside(ports: seq<Port>, taken: set<Port>)
  {
    forall i :: 0 <= i < |ports| ==> ports[i] !in taken
  }

  /** Only the host ports of the forwards differ, and each still remembers its request. */
  predicate SameRoutes(before: seq<Forward>, after: seq<Forward>)
  {
    |after| == |before| && forall i :: 0 <= i < |before| ==> after[i] == WithHost(before[i], after[i].host)
  }

  predicate Probed(probe: Probe, forwards: seq<Forward>)
  {
    forall i :: 0 <= i < |forwards| ==> probe(forwards[i].bind, forwards[i].host)
  }

  // ---------------------------------------------------------------- when ports run out

  /** The bind address and the preferred port of the k-th port of a node: the management port comes first. */
  function Wanted(definition: Definition, index: nat, k: nat): (string, Port)
    requires k <= |definition.forwards|
  {
    if k == 0 then (LOOPBACK, (2222 + index) % 0x10000)
    else (definition.forwards[k - 1].bind, Requested(definition.forwards[k - 1]))
  }

  /** The candidates of that port which are not taken and which the probe accepts. */
  function Free(definition: Definition, index: nat, k: nat, taken: set<Port>, probe: Probe): set<Port>
    requires k <= |definition.forwards|
  {
    var (bind, preferred) := Wanted(definition, index, k);
    set port: Port | 0 <= port < 0x10000 && IsCandidate(preferred, port) && port !in taken && probe(bind, port)
  }

  /** The k-th port of the node has no more free candidates than there are ports to choose before it. */
  predicate Scarce(definition: Definition, index: nat, k: nat, taken: set<Port>, probe: Probe, earlier: nat)
  {
    k <= |definition.forwards| && |Free(definition, index, k, taken, probe)| <= earlier + k
  }

  function Elements(ports: seq<Port>): set<Port>
  {
    set port | port in ports
  }

  lemma {:induction false} ElementsAreFew(ports: seq<Port>)
    ensures |Elements(ports)| <= |ports|
  {
    if ports != [] {
      var front, last := ports[..|ports| - 1], ports[|ports| - 1];
      ElementsAreFew(front);
      assert ports == front + [last];
      assert Elements(ports) == Elements(front) + {last};
    }
  }

  lemma UsedUp(free: set<Port>, ports: seq<Port>)
    requires forall port :: port in free ==> port in ports
    ensures |free| <= |ports|
  {
    ElementsAreFew(ports);
    assert free <= Elements(ports);
    SubsetSize(free, Elements(ports));
  }

  /** The port is the lowest candidate for the k-th port of the node that is not taken, was not given before, and that the
      probe accepts. */
  predicate FirstFree(definition: Definition, index: nat, k: nat, taken: set<Port>, before: seq<Port>, probe: Probe, port: Port)
    requires k <= |definition.forwards|
  {
    var (bind, preferred) := Wanted(definition, index, k);
    && IsCandidate(preferred, port)
    && forall other: Port :: IsCandidate(preferred, other) && other < port ==> other in taken || other in before || !probe(bind, other)
  }

  /** Every port of a node, management port first, is the first free one in its turn. */
  predicate InTurn(definition: Definition, index: nat, taken: set<Port>, before: seq<Port>, probe: Probe, ports: seq<Port>)
  {
    |ports| <= 1 + |definition.forwards|
    && forall k :: 0 <= k < |ports| ==> FirstFree(definition, index, k, taken, before + ports[..k], probe, ports[k])
  }

  lemma InTurnAppend(definition: Definition, index: nat, taken: set<Port>, before: seq<Port>, probe: Probe, ports: seq<Port>, port: Port)
    requires InTurn(definition, index, taken, before, probe, ports) && |ports| <= |definition.forwards|
    requires FirstFree(definition, index, |ports|, taken, before + ports, probe, port)
    ensures InTurn(definition, index, taken, before, probe, ports + [port])
  {
    var all := ports + [port];
    assert all[..|ports|] == ports;
    assert forall k :: 0 <= k < |ports| ==> all[..k] == ports[..k];
  }

  /** The new ports are pairwise different and avoid the others. */
  predicate Fresh(ports: seq<Port>, others: set<Port>)
  {
    Distinct(ports) && Outside(ports, others)
  }

  /** The node has new ports beside the taken ones, each the first free one, and used holds both. */
  predicate Assigned(definition: Definition, index: nat, taken: set<Port>, probe: Probe, ports: seq<Port>, used: set<Port>)
  {
    && Fresh(ports, taken) && InTurn(definition, index, taken, [], probe, ports)
    && forall port: Port :: port in used <==> port in taken || port in ports
  }

  lemma AssignedAppend(definition: Definition, index: nat, taken: set<Port>, probe: Probe, ports: seq<Port>, used: set<Port>, port: Port)
    requires Assigned(definition, index, taken, probe, ports, used) && |ports| <= |definition.forwards|
    requires port !in used && FirstFree(definition, index, |ports|, used, [], probe, port)
    ensures Assigned(definition, index, taken, probe, ports + [port], used + {port})
  {
    assert FirstFree(definition, index, |ports|, taken, [] + ports, probe, port);
    InTurnAppend(definition, index, taken, [], probe, ports, port);
  }

  /** One port of a node: it fails only when it has no more free candidates than there are ports before it. */
  method AssignPort(definition: Definition, index: nat, ghost taken: set<Port>, probe: Probe, ghost ports: seq<Port>, used: set<Port>, k: nat)
    returns (chosen: Option<Port>)
    requires Assigned(definition, index, taken, probe, ports, used) && |ports| == k <= |definition.forwards|
    ensures chosen.Some? ==>
              && probe(Wanted(definition, index, k).0, chosen.value)
              && Assigned(definition, index, taken, probe, ports + [chosen.value], used + {chosen.value})
    ensures chosen.None? ==> Scarce(definition, index, k, taken, probe, 0)
  {
    var (bind, preferred) := Wanted(definition, index, k);
    chosen := Choose(preferred, (port: Port) => port !in used && probe(bind, port));
    if chosen.Some? {
      assert FirstFree(definition, index, k, used, [], probe, chosen.value);
      AssignedAppend(definition, index, taken, probe, ports, used, chosen.value);
    } else {
      UsedUp(Free(definition, index, k, taken, probe), ports);
    }
  }

  /** One node: a management port and one port per forward, all new and different, each the first free one. It fails only
      when some port has no more free candidates than there are ports before it. */
  method AssignNode(definition: Definition, index: nat, taken: set<Port>, probe: Probe)
    returns (placed: Option<(Port, seq<Forward>)>, used: set<Port>)
    ensures placed.Some? ==>
              var (ssh, forwards) := placed.value;
              && SameRoutes(definition.forwards, forwards) && probe(LOOPBACK, ssh) && Probed(probe, forwards)
              && Assigned(definition, index, taken, probe, [ssh] + Hosts(forwards), used)
    ensures placed.None? ==> exists k: nat :: Scarce(definition, index, k, taken, probe, 0)
  {
    used := taken;
    var ssh := AssignPort(definition, index, taken, probe, [], used, 0);
    if ssh.None? {
      return None, used;
    }
    used := used + {ssh.value};
    var forwards: seq<Forward> := [];
    assert [ssh.value] + Hosts(forwards) == [] + [ssh.value];
    for i := 0 to |definition.forwards|
      invariant SameRoutes(definition.forwards[..i], forwards) && Probed(probe, forwards)
      invariant Assigned(definition, index, taken, probe, [ssh.value] + Hosts(forwards), used)
    {
      ghost var ports := [ssh.value] + Hosts(forwards);
      var port := AssignPort(definition, index, taken, probe, ports, used, i + 1);
      if port.None? {
        return None, used;
      }
      used := used + {port.value};
      forwards := forwards + [WithHost(definition.forwards[i], port.value)];
      assert [ssh.value] + Hosts(forwards) == ports + [port.value];
    }
    assert definition.forwards[..|definition.forwards|] == definition.forwards;
    return Some((ssh.value, forwards)), used;
  }

  /** A node after the assignment; created tells whether its ports are new. */
  datatype Placed = Placed(definition: Definition, ssh: Option<Port>, created: bool)

  function NewPorts(placed: seq<Placed>): seq<Port>
  {
    if placed == [] then []
    else
      var last := placed[|placed| - 1];
      NewPorts(placed[..|placed| - 1])
      + if last.created && last.ssh.Some? then [last.ssh.value] + Hosts(last.definition.forwards) else []
  }

  /** The committed ports: the recorded management port and the declared forwards of every node that stays. */
  function CommittedPorts(definitions: seq<Definition>, stored: map<string, Port>, creates: set<string>): set<Port>
  {
    if definitions == [] then {}
    else
      var last := definitions[|definitions| - 1];
      CommittedPorts(definitions[..|definitions| - 1], stored, creates)
      + if last.name !in creates && last.name in stored then {stored[last.name]} + HostSet(last.forwards) else {}
  }

  /** The committed ports are exactly the recorded management ports and the declared forwards of the nodes that stay. */
  lemma {:induction false} CommittedExactly(definitions: seq<Definition>, stored: map<string, Port>, creates: set<string>, port: Port)
    ensures port in CommittedPorts(definitions, stored, creates) <==> exists i :: 0 <= i < |definitions| && Commits(definitions[i], stored, creates, port)
  {
    if definitions != [] {
      CommittedExactly(definitions[..|definitions| - 1], stored, creates, port);
      var last := definitions[|definitions| - 1];
      assert port in CommittedPorts(definitions, stored, creates) <==>
             port in CommittedPorts(definitions[..|definitions| - 1], stored, creates) || Commits(last, stored, creates, port);
    }
  }

  predicate Commits(definition: Definition, stored: map<string, Port>, creates: set<string>, port: Port)
  {
    && definition.name !in creates && definition.name in stored
    && (port == stored[definition.name] || exists k :: 0 <= k < |definition.forwards| && definition.forwards[k].host == port)
  }

  function HostSet(forwards: seq<Forward>): set<Port>
  {
    set i | 0 <= i < |forwards| :: forwards[i].host
  }

  /** The outcome for one node: kept nodes are untouched and keep their recorded port. */
  predicate PlacedFrom(definition: Definition, stored: map<string, Port>, creates: set<string>, placed: Placed)
  {
    && placed.definition.name == definition.name && placed.created == (definition.name in creates)
    && if placed.created then placed.ssh.Some? && SameRoutes(definition.forwards, placed.definition.forwards)
       else && placed.definition == definition
            && placed.ssh == if definition.name in stored then Some(stored[definition.name]) else None
  }

  lemma NewPortsAppend(placed: seq<Placed>, last: Placed)
    ensures NewPorts(placed + [last]) ==
            NewPorts(placed) + if last.created && last.ssh.Some? then [last.ssh.value] + Hosts(last.definition.forwards) else []
  {
    assert (placed + [last])[..|placed|] == placed;
  }

  lemma DistinctAppend(ports: seq<Port>, more: seq<Port>, taken: set<Port>)
    requires Distinct(ports) && Distinct(more) && Outside(more, taken)
    requires forall i :: 0 <= i < |ports| ==> ports[i] in taken
    ensures Distinct(ports + more)
  {
  }

  method ReserveCommitted(definitions: seq<Definition>, creates: set<string>, reserved: set<Port>, stored: map<string, Port>) returns (taken: set<Port>)
    ensures taken == reserved + CommittedPorts(definitions, stored, creates)
  {
    taken := reserved;
    for i := 0 to |definitions|
      invariant taken == reserved + CommittedPorts(definitions[..i], stored, creates)
    {
      var definition := definitions[i];
      assert definitions[..i + 1][..i] == definitions[..i];
      if definition.name !in creates && definition.name in stored {
        taken := taken + {stored[definition.name]} + HostSet(definition.forwards);
      }
    }
    assert definitions[..|definitions|] == definitions;
  }

  lemma FreshAppend(ports: seq<Port>, more: seq<Port>, base: set<Port>, taken: set<Port>)
    requires Fresh(ports, base) && Fresh(more, taken) && base <= taken && forall i :: 0 <= i < |ports| ==> ports[i] in taken
    ensures Fresh(ports + more, base)
  {
    DistinctAppend(ports, more, taken);
  }

  /** How many new ports the first n nodes need. */
  function Needed(definitions: seq<Definition>, creates: set<string>, n: nat): nat
    requires n <= |definitions|
  {
    if n == 0 then 0
    else Needed(definitions, creates, n - 1) + if definitions[n - 1].name in creates then 1 + |definitions[n - 1].forwards| else 0
  }

  /** Some new port has no more free candidates than there are new ports before it. */
  predicate RunsShort(definitions: seq<Definition>, creates: set<string>, base: set<Port>, probe: Probe, i: nat, k: nat)
  {
    && i < |definitions| && definitions[i].name in creates
    && Scarce(definitions[i], i, k, base, probe, Needed(definitions, creates, i))
  }

  /** A node that finds too few ports beside the earlier new ones found too few in the first place. */
  lemma ScarceBelow(definitions: seq<Definition>, creates: set<string>, i: nat, base: set<Port>, ports: seq<Port>, taken: set<Port>, probe: Probe)
    requires i < |definitions| && definitions[i].name in creates && |ports| == Needed(definitions, creates, i)
    requires exists k: nat :: Scarce(definitions[i], i, k, taken, probe, 0)
    requires forall port :: port in taken ==> port in base || port in ports
    ensures exists k: nat :: RunsShort(definitions, creates, base, probe, i, k)
  {
    var definition, index := definitions[i], i;
    var k: nat :| Scarce(definition, index, k, taken, probe, 0);
    var free, left := Free(definition, index, k, base, probe), Free(definition, index, k, taken, probe);
    UsedUp(free - left, ports);
    assert free == (free * left) + (free - left);
    SubsetSize(free * left, left);
    assert RunsShort(definitions, creates, base, probe, i, k);
  }

  /** A new node gets, port by port, the first one that is free beside the given ones and the earlier new ones. */
  predicate PlacedInTurn(definition: Definition, index: nat, base: set<Port>, before: seq<Port>, probe: Probe, placed: Placed)
  {
    placed.created ==>
      placed.ssh.Some? && InTurn(definition, index, base, before, probe, [placed.ssh.value] + Hosts(placed.definition.forwards))
  }

  predicate AllInTurn(definitions: seq<Definition>, base: set<Port>, probe: Probe, placed: seq<Placed>)
  {
    |placed| <= |definitions| && forall i :: 0 <= i < |placed| ==> PlacedInTurn(definitions[i], i, base, NewPorts(placed[..i]), probe, placed[i])
  }

  lemma InTurnBelow(definition: Definition, index: nat, base: set<Port>, before: seq<Port>, taken: set<Port>, probe: Probe, ports: seq<Port>)
    requires InTurn(definition, index, taken, [], probe, ports) && forall port :: port in taken ==> port in base || port in before
    ensures InTurn(definition, index, base, before, probe, ports)
  {
    forall k | 0 <= k < |ports|
      ensures FirstFree(definition, index, k, base, before + ports[..k], probe, ports[k])
    {
      assert FirstFree(definition, index, k, taken, [] + ports[..k], probe, ports[k]);
    }
  }

  lemma AllInTurnAppend(definitions: seq<Definition>, base: set<Port>, probe: Probe, placed: seq<Placed>, next: Placed)
    requires AllInTurn(definitions, base, probe, placed) && |placed| < |definitions|
    requires PlacedInTurn(definitions[|placed|], |placed|, base, NewPorts(placed), probe, next)
    ensures AllInTurn(definitions, base, probe, placed + [next])
  {
    var all := placed + [next];
    assert all[..|placed|] == placed;
    forall i | 0 <= i < |all|
      ensures PlacedInTurn(definitions[i], i, base, NewPorts(all[..i]), probe, all[i])
    {
      assert all[..i] == placed[..i];
    }
  }

  /** The first nodes have their ports, and taken holds the ports given so far. */
  predicate Placing(definitions: seq<Definition>, creates: set<string>, base: set<Port>, stored: map<string, Port>, taken: set<Port>, probe: Probe, placed: seq<Placed>)
  {
    && |placed| <= |definitions| && (forall k :: 0 <= k < |placed| ==> PlacedFrom(definitions[k], stored, creates, placed[k]))
    && base <= taken && Fresh(NewPorts(placed), base)
    && (forall k :: 0 <= k < |NewPorts(placed)| ==> NewPorts(placed)[k] in taken)
    && (forall port :: port in taken ==> port in base || port in NewPorts(placed))
    && |NewPorts(placed)| == Needed(definitions, creates, |placed|)
    && AllInTurn(definitions, base, probe, placed)
  }

  lemma PlacingNew(definitions: seq<Definition>, creates: set<string>, base: set<Port>, stored: map<string, Port>, taken: set<Port>, probe: Probe,
                   placed: seq<Placed>, ssh: Port, forwards: seq<Forward>, used: set<Port>)
    requires Placing(definitions, creates, base, stored, taken, probe, placed) && |placed| < |definitions|
    requires var definition := definitions[|placed|];
             && definition.name in creates && SameRoutes(definition.forwards, forwards)
             && Assigned(definition, |placed|, taken, probe, [ssh] + Hosts(forwards), used)
    ensures Placing(definitions, creates, base, stored, used, probe,
                    placed + [Placed(Definition(definitions[|placed|].name, forwards), Some(ssh), true)])
  {
    var i, ports := |placed|, [ssh] + Hosts(forwards);
    var next := Placed(Definition(definitions[i].name, forwards), Some(ssh), true);
    FreshAppend(NewPorts(placed), ports, base, taken);
    InTurnBelow(definitions[i], i, base, NewPorts(placed), taken, probe, ports);
    NewPortsAppend(placed, next);
    AllInTurnAppend(definitions, base, probe, placed, next);
  }

  lemma PlacingKept(definitions: seq<Definition>, creates: set<string>, base: set<Port>, stored: map<string, Port>, taken: set<Port>, probe: Probe,
                    placed: seq<Placed>, next: Placed)
    requires Placing(definitions, creates, base, stored, taken, probe, placed) && |placed| < |definitions|
    requires definitions[|placed|].name !in creates && PlacedFrom(definitions[|placed|], stored, creates, next)
    ensures Placing(definitions, creates, base, stored, taken, probe, placed + [next])
  {
    NewPortsAppend(placed, next);
    AllInTurnAppend(definitions, base, probe, placed, next);
  }

  method PlaceNodes(definitions: seq<Definition>, creates: set<string>, base: set<Port>, stored: map<string, Port>, probe: Probe)
    returns (result: Option<seq<Placed>>)
    ensures result.Some? ==>
              && |result.value| == |definitions|
              && (forall i :: 0 <= i < |definitions| ==> PlacedFrom(definitions[i], stored, creates, result.value[i]))
              && Fresh(NewPorts(result.value), base) && AllInTurn(definitions, base, probe, result.value)
    ensures result.None? ==> exists i: nat, k: nat :: RunsShort(definitions, creates, base, probe, i, k)
  {
    var taken := base;
    var placed: seq<Placed> := [];
    for i := 0 to |definitions|
      invariant |placed| == i && Placing(definitions, creates, base, stored, taken, probe, placed)
    {
      var definition := definitions[i];
      var next := Placed(definition, if definition.name in stored then Some(stored[definition.name]) else None, false);
      if definition.name in creates {
        var ports, used := AssignNode(definition, i, taken, probe);
        if ports.None? {
          ScarceBelow(definitions, creates, i, base, NewPorts(placed), taken, probe);
          return None;
        }
        var (ssh, forwards) := ports.value;
        next := Placed(Definition(definition.name, forwards), Some(ssh), true);
        PlacingNew(definitions, creates, base, stored, taken, probe, placed, ssh, forwards, used);
        taken := used;
      } else {
        PlacingKept(definitions, creates, base, stored, taken, probe, placed, next);
      }
      placed := placed + [next];
    }
    return Some(placed);
  }

  /** Ports for the nodes to create: pairwise different, and different from every reserved and every committed port; each
      is the first free one in its turn; the other nodes keep what they have. With nothing named, every node is new. It fails only when some new port has
      no more free candidates than there are new ports before it. */
  method Materialize(definitions: seq<Definition>, createNames: set<string>, reserved: set<Port>, stored: map<string, Port>, probe: Probe)
    returns (result: Option<seq<Placed>>)
    ensures result.Some? ==>
              var creates := if createNames == {} then set i | 0 <= i < |definitions| :: definitions[i].name else createNames;
              && |result.value| == |definitions|
              && (forall i :: 0 <= i < |definitions| ==> PlacedFrom(definitions[i], stored, creates, result.value[i]))
              && Fresh(NewPorts(result.value), reserved + CommittedPorts(definitions, stored, creates))
              && AllInTurn(definitions, reserved + CommittedPorts(definitions, stored, creates), probe, result.value)
    ensures result.None? ==>
              var creates := if createNames == {} then set i | 0 <= i < |definitions| :: definitions[i].name else createNames;
              exists i: nat, k: nat :: RunsShort(definitions, creates, reserved + CommittedPorts(definitions, stored, creates), probe, i, k)
  {
    var creates := if createNames == {} then set i | 0 <= i < |definitions| :: definitions[i].name else createNames;
    var taken := ReserveCommitted(definitions, creates, reserved, stored);
    result := PlaceNodes(definitions, creates, taken, stored, probe);
  }
}
