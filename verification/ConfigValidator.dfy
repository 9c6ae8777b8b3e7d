/** File validation as one pass that accepts exactly what the all-pairs rules accept. */
module ConfigValidator {
  import opened Wrappers
  import opened Collections
  import opened Configuration
  import DeploymentStore

  // The pass fills sets of names, addresses and aliases and a list of the shares met so far.

  method CheckNames(nodes: seq<Node>) returns (names: Option<set<string>>)
    ensures names.Some? <==>
              Distinct(NamesOf(nodes)) && forall i :: 0 <= i < |nodes| ==> DeploymentStore.NodeName(nodes[i].name)
    ensures names.Some? ==> forall name :: name in names.value <==> name in NamesOf(nodes)
  {
    var seen: set<string> := {};
    for i := 0 to |nodes|
      invariant forall name :: name in seen <==> name in NamesOf(nodes)[..i]
      invariant forall j :: 0 <= j < i ==> DeploymentStore.NodeName(nodes[j].name)
      invariant Distinct(NamesOf(nodes)[..i])
    {
      var name := nodes[i].name;
      assert NamesOf(nodes)[i] == name;
      if !DeploymentStore.NodeName(name) {
        return None;
      }
      if name in seen {
        var k :| 0 <= k < i && NamesOf(nodes)[k] == name;
        return None;
      }
      seen := seen + {name};
    }
    assert NamesOf(nodes)[..|nodes|] == NamesOf(nodes);
    return Some(seen);
  }

  method CheckDisks(disks: seq<Disk>) returns (ok: bool)
    ensures ok == DisksOk(disks)
  {
    var names: set<string>, mounts: set<string> := {}, {};
    for i := 0 to |disks|
      invariant names == set j | 0 <= j < i :: disks[j].name
      invariant mounts == set j | 0 <= j < i :: disks[j].mount
      invariant DisksOk(disks[..i])
    {
      var disk := disks[i];
      assert disks[..i + 1][i] == disk;
      if !DiskName(disk.name) || disk.size <= 0 || !SafeMount(disk.mount) || disk.filesystem !in {"auto", "xfs", "ext4"} {
        return false;
      }
      if disk.name in names || disk.mount in mounts {
        return false;
      }
      names, mounts := names + {disk.name}, mounts + {disk.mount};
    }
    assert disks[..|disks|] == disks;
    return true;
  }

  /** Shares of one node, against its disks and against each other. */
  method CheckShares(node: Node, user: string) returns (ok: bool)
    ensures ok == SharesOk(node, user)
  {
    if |node.shares| > MAX_SHARES {
      return false;
    }
    for i := 0 to |node.shares|
      invariant forall j :: 0 <= j < i ==> ShareOk(node.shares[j], user, node.disks)
      invariant forall j, k :: 0 <= j < k < i ==> Apart(node.shares[j], node.shares[k])
    {
      var sound := CheckShare(node.shares[i], user, node.disks);
      if !sound {
        return false;
      }
      var apart := CheckApart(node.shares[..i], node.shares[i]);
      if !apart {
        return false;
      }
    }
    return true;
  }

  method CheckShare(share: Share, user: string, disks: seq<Disk>) returns (ok: bool)
    ensures ok == ShareOk(share, user, disks)
  {
    if !SafeShareHost(share.host) || !SafeShareGuest(share.guest) || Overlap(share.guest, SshDirectory(user)) {
      return false;
    }
    for d := 0 to |disks|
      invariant forall k :: 0 <= k < d ==> !Overlap(disks[k].mount, share.guest)
    {
      if Overlap(disks[d].mount, share.guest) {
        return false;
      }
    }
    return true;
  }

  method CheckApart(earlier: seq<Share>, share: Share) returns (ok: bool)
    ensures ok == forall k :: 0 <= k < |earlier| ==> Apart(earlier[k], share)
  {
    for j := 0 to |earlier|
      invariant forall k :: 0 <= k < j ==> Apart(earlier[k], share)
    {
      if Overlap(earlier[j].host, share.host) || Overlap(earlier[j].guest, share.guest) {
        return false;
      }
    }
    return true;
  }

  /** A share of an earlier node, with that node's name. */
  datatype Met = Met(share: Share, node: string)

  /** The shares of all the nodes, in order. */
  ghost predicate MetShares(met: seq<Met>, nodes: seq<Node>)
  {
    && (forall m :: 0 <= m < |met| ==> exists i :: 0 <= i < |nodes| && met[m].node == nodes[i].name && met[m].share in nodes[i].shares)
    && forall i, a :: 0 <= i < |nodes| && 0 <= a < |nodes[i].shares| ==> Met(nodes[i].shares[a], nodes[i].name) in met
  }

  /** The shares of one node against all shares met on other nodes. */
  method CheckCrossNode(node: Node, met: seq<Met>) returns (ok: bool)
    ensures ok == forall m, a :: 0 <= m < |met| && 0 <= a < |node.shares| && met[m].node != node.name ==> Tolerated(met[m].share, node.shares[a])
  {
    for a := 0 to |node.shares|
      invariant forall m, b :: 0 <= m < |met| && 0 <= b < a && met[m].node != node.name ==> Tolerated(met[m].share, node.shares[b])
    {
      for m := 0 to |met|
        invariant forall k :: 0 <= k < m && met[k].node != node.name ==> Tolerated(met[k].share, node.shares[a])
      {
        if met[m].node != node.name && Overlap(met[m].share.host, node.shares[a].host) && (!Readonly(met[m].share) || !Readonly(node.shares[a])) {
          assert !Tolerated(met[m].share, node.shares[a]);
          return false;
        }
      }
    }
    return true;
  }

  function SharesOf(node: Node): (met: seq<Met>)
    ensures |met| == |node.shares|
  {
    seq(|node.shares|, a requires 0 <= a < |node.shares| => Met(node.shares[a], node.name))
  }

  lemma MetSharesAppend(met: seq<Met>, nodes: seq<Node>, node: Node)
    requires MetShares(met, nodes)
    ensures MetShares(met + SharesOf(node), nodes + [node])
  {
    var longer, all := met + SharesOf(node), nodes + [node];
    forall m | 0 <= m < |longer|
      ensures exists i :: 0 <= i < |all| && longer[m].node == all[i].name && longer[m].share in all[i].shares
    {
      if m < |met| {
        var i :| 0 <= i < |nodes| && met[m].node == nodes[i].name && met[m].share in nodes[i].shares;
        assert all[i] == nodes[i];
      } else {
        assert all[|nodes|] == node && longer[m] == Met(node.shares[m - |met|], node.name);
      }
    }
    forall i, a | 0 <= i < |all| && 0 <= a < |all[i].shares|
      ensures Met(all[i].shares[a], all[i].name) in longer
    {
      if i < |nodes| {
        assert Met(nodes[i].shares[a], nodes[i].name) in met;
      } else {
        assert longer[|met| + a] == Met(node.shares[a], node.name);
      }
    }
  }

  method AddShares(node: Node, met: seq<Met>, ghost nodes: seq<Node>) returns (longer: seq<Met>)
    requires MetShares(met, nodes)
    ensures longer == met + SharesOf(node) && MetShares(longer, nodes + [node])
  {
    longer := met;
    ghost var goal := met + SharesOf(node);
    for a := 0 to |node.shares|
      invariant longer == goal[..|met| + a]
    {
      longer := longer + [Met(node.shares[a], node.name)];
    }
    MetSharesAppend(met, nodes, node);
  }

  /** The aliases of one node: well formed, new in the node and new in the deployment. */
  method CheckAliases(aliases: seq<string>, taken: set<string>) returns (all: Option<set<string>>)
    ensures all.Some? <==> NewAliases(aliases, taken)
    ensures all.Some? ==> forall alias :: alias in all.value <==> alias in taken || alias in aliases
  {
    var known := taken;
    for a := 0 to |aliases|
      invariant forall alias :: alias in known <==> alias in taken || alias in aliases[..a]
      invariant Distinct(aliases[..a]) && forall b :: 0 <= b < a ==> Alias(aliases[b]) && aliases[b] !in taken
    {
      var alias := aliases[a];
      if !Alias(alias) {
        return None;
      }
      if alias in known {
        if alias !in taken {
          var b :| 0 <= b < a && aliases[b] == alias;
        }
        return None;
      }
      known := known + {alias};
    }
    assert aliases[..|aliases|] == aliases;
    return Some(known);
  }

  /** Node n satisfies every rule together with the nodes before it. */
  ghost predicate Fits(env: Env, file: File, n: nat)
    requires n < |file.nodes| && env.layout(file.cidr).Some?
  {
    && NodeOk(env, file, env.layout(file.cidr).value, file.nodes[n])
    && (forall i :: 0 <= i < n ==> file.nodes[i].address != file.nodes[n].address)
    && (forall i :: 0 <= i < n ==> SharesAgree(file.nodes[i].shares, file.nodes[n].shares))
    && NodeAliasesOk(file, n)
    && forall i, alias :: 0 <= i < n && alias in file.nodes[i].aliases ==> alias !in file.nodes[n].aliases
  }

  /** The rules among the first n nodes; names are known to be distinct. */
  ghost predicate UpTo(env: Env, file: File, n: nat)
    requires n <= |file.nodes| && env.layout(file.cidr).Some?
  {
    forall i :: 0 <= i < n ==> Fits(env, file, i)
  }

  predicate NodeAliasesOk(file: File, i: nat)
    requires i < |file.nodes|
  {
    Distinct(file.nodes[i].aliases)
    && forall a :: 0 <= a < |file.nodes[i].aliases| ==> Alias(file.nodes[i].aliases[a]) && file.nodes[i].aliases[a] !in NamesOf(file.nodes)
  }

  /** The aliases and names known after n nodes. */
  ghost predicate KnownAliases(known: set<string>, file: File, n: nat)
    requires n <= |file.nodes|
  {
    forall alias :: alias in known <==> alias in NamesOf(file.nodes) || exists i :: 0 <= i < n && alias in file.nodes[i].aliases
  }

  /** The aliases are distinct, well formed, and none of them is taken. */
  predicate NewAliases(aliases: seq<string>, taken: set<string>)
  {
    Distinct(aliases) && forall a :: 0 <= a < |aliases| ==> Alias(aliases[a]) && aliases[a] !in taken
  }

  lemma AliasStep(file: File, n: nat, known: set<string>, grown: Option<set<string>>)
    requires n < |file.nodes| && KnownAliases(known, file, n)
    requires grown.Some? <==> NewAliases(file.nodes[n].aliases, known)
    requires grown.Some? ==> forall alias :: alias in grown.value <==> alias in known || alias in file.nodes[n].aliases
    ensures grown.Some? <==>
              NodeAliasesOk(file, n) && forall i, alias :: 0 <= i < n && alias in file.nodes[i].aliases ==> alias !in file.nodes[n].aliases
    ensures grown.Some? ==> KnownAliases(grown.value, file, n + 1)
  {
    var aliases := file.nodes[n].aliases;
    if grown.Some? {
      forall i, alias | 0 <= i < n && alias in file.nodes[i].aliases
        ensures alias !in aliases
      {
        assert alias in known;
      }
    } else if NodeAliasesOk(file, n) {
      var a :| 0 <= a < |aliases| && aliases[a] in known;
      var i :| 0 <= i < n && aliases[a] in file.nodes[i].aliases;
      assert aliases[a] in file.nodes[n].aliases;
    }
  }

  lemma ShareStep(file: File, n: nat, met: seq<Met>, ok: bool)
    requires n < |file.nodes| && Distinct(NamesOf(file.nodes)) && MetShares(met, file.nodes[..n])
    requires ok == forall m, a :: 0 <= m < |met| && 0 <= a < |file.nodes[n].shares| && met[m].node != file.nodes[n].name ==>
                     Tolerated(met[m].share, file.nodes[n].shares[a])
    ensures ok <==> forall i :: 0 <= i < n ==> SharesAgree(file.nodes[i].shares, file.nodes[n].shares)
  {
    var node, before := file.nodes[n], file.nodes[..n];
    forall i | 0 <= i < n
      ensures file.nodes[i].name != node.name && before[i] == file.nodes[i]
    {
      assert NamesOf(file.nodes)[i] != NamesOf(file.nodes)[n];
    }
    if ok {
      forall i, a, b | 0 <= i < n && 0 <= a < |file.nodes[i].shares| && 0 <= b < |node.shares|
        ensures Tolerated(file.nodes[i].shares[a], node.shares[b])
      {
        assert Met(before[i].shares[a], before[i].name) in met;
        var m :| 0 <= m < |met| && met[m] == Met(before[i].shares[a], before[i].name);
      }
    } else {
      var m, a :| 0 <= m < |met| && 0 <= a < |node.shares| && met[m].node != node.name && !Tolerated(met[m].share, node.shares[a]);
      var i :| 0 <= i < |before| && met[m].node == before[i].name && met[m].share in before[i].shares;
      var b :| 0 <= b < |before[i].shares| && before[i].shares[b] == met[m].share;
      assert !SharesAgree(file.nodes[i].shares, node.shares);
    }
  }

  method CheckNode(env: Env, file: File, layout: Layout, node: Node) returns (ok: bool)
    ensures ok == NodeOk(env, file, layout, node)
  {
    if !env.reference(node.image) {
      return false;
    }
    if node.cpus < 1 || node.cpus > MAX_CPUS || node.memory < MIN_MEMORY || node.rootDisk <= 0 || !layout.isStatic(node.address) {
      return false;
    }
    ok := CheckDisks(node.disks);
    if ok {
      ok := CheckShares(node, file.sshUser);
    }
  }

  method CheckNodes(env: Env, file: File, names: set<string>) returns (ok: bool)
    requires env.layout(file.cidr).Some? && Distinct(NamesOf(file.nodes))
    requires forall name :: name in names <==> name in NamesOf(file.nodes)
    ensures ok == UpTo(env, file, |file.nodes|)
  {
    var addresses: set<string> := {};
    var known := names;
    var met: seq<Met> := [];
    for i := 0 to |file.nodes|
      invariant UpTo(env, file, i) && Gathered(file, i, addresses, known, met)
    {
      ok, addresses, known, met := CheckNext(env, file, i, addresses, known, met);
      if !ok {
        return;
      }
    }
    return true;
  }

  /** The sets and the list hold what the first n nodes contributed. */
  ghost predicate Gathered(file: File, n: nat, addresses: set<string>, known: set<string>, met: seq<Met>)
    requires n <= |file.nodes|
  {
    && KnownAliases(known, file, n) && MetShares(met, file.nodes[..n])
    && forall address :: address in addresses <==> exists j :: 0 <= j < n && file.nodes[j].address == address
  }

  method CheckNext(env: Env, file: File, i: nat, addresses: set<string>, known: set<string>, met: seq<Met>)
    returns (ok: bool, addresses': set<string>, known': set<string>, met': seq<Met>)
    requires i < |file.nodes| && env.layout(file.cidr).Some? && Distinct(NamesOf(file.nodes))
    requires Gathered(file, i, addresses, known, met)
    ensures ok == Fits(env, file, i)
    ensures ok ==> Gathered(file, i + 1, addresses', known', met')
  {
    addresses', known', met' := addresses, known, met;
    var grown := CheckAgainst(env, file, i, addresses, known, met);
    if grown.None? {
      return false, addresses', known', met';
    }
    var node := file.nodes[i];
    met' := AddShares(node, met, file.nodes[..i]);
    assert file.nodes[..i + 1] == file.nodes[..i] + [node];
    return true, addresses + {node.address}, grown.value, met';
  }

  /** One node, by itself and against what the nodes before it left. */
  method CheckAgainst(env: Env, file: File, i: nat, addresses: set<string>, known: set<string>, met: seq<Met>) returns (grown: Option<set<string>>)
    requires i < |file.nodes| && env.layout(file.cidr).Some? && Distinct(NamesOf(file.nodes))
    requires KnownAliases(known, file, i) && MetShares(met, file.nodes[..i])
    requires forall address :: address in addresses <==> exists j :: 0 <= j < i && file.nodes[j].address == address
    ensures grown.Some? <==> Fits(env, file, i)
    ensures grown.Some? ==> KnownAliases(grown.value, file, i + 1)
  {
    var node := file.nodes[i];
    var sound := CheckNode(env, file, env.layout(file.cidr).value, node);
    if !sound || node.address in addresses {
      return None;
    }
    var aliases := CheckAliases(node.aliases, known);
    AliasStep(file, i, known, aliases);
    if aliases.None? {
      return None;
    }
    var tolerated := CheckCrossNode(node, met);
    ShareStep(file, i, met, tolerated);
    return if tolerated then aliases else None;
  }

  /** The all-pairs rules that concern the nodes, given distinct names. */
  predicate NodeRules(env: Env, file: File)
    requires env.layout(file.cidr).Some?
  {
    && (forall i :: 0 <= i < |file.nodes| ==> NodeOk(env, file, env.layout(file.cidr).value, file.nodes[i]))
    && Distinct(AddressesOf(file.nodes)) && AliasesOk(file.nodes)
    && forall i, j :: 0 <= i < j < |file.nodes| ==> SharesAgree(file.nodes[i].shares, file.nodes[j].shares)
  }

  lemma FitsGiveRules(env: Env, file: File)
    requires env.layout(file.cidr).Some? && UpTo(env, file, |file.nodes|)
    ensures NodeRules(env, file)
  {
    forall i | 0 <= i < |file.nodes|
      ensures NodeOk(env, file, env.layout(file.cidr).value, file.nodes[i]) && NodeAliasesOk(file, i)
    {
      assert Fits(env, file, i);
    }
    forall i, j | 0 <= i < j < |file.nodes|
      ensures AddressesOf(file.nodes)[i] != AddressesOf(file.nodes)[j]
      ensures SharesAgree(file.nodes[i].shares, file.nodes[j].shares)
      ensures forall alias :: alias in file.nodes[i].aliases ==> alias !in file.nodes[j].aliases
    {
      assert Fits(env, file, j);
    }
    AliasRulesAgree(file);
  }

  lemma RulesGiveFits(env: Env, file: File, j: nat)
    requires env.layout(file.cidr).Some? && NodeRules(env, file) && j < |file.nodes|
    ensures Fits(env, file, j)
  {
    AliasRulesAgree(file);
    assert NodeAliasesOk(file, j);
    forall i | 0 <= i < j
      ensures file.nodes[i].address != file.nodes[j].address
    {
      assert AddressesOf(file.nodes)[i] != AddressesOf(file.nodes)[j];
    }
  }

  /** The rules met node by node are the all-pairs rules. */
  lemma RulesAgree(env: Env, file: File)
    requires env.layout(file.cidr).Some?
    ensures UpTo(env, file, |file.nodes|) <==> NodeRules(env, file)
  {
    if UpTo(env, file, |file.nodes|) {
      FitsGiveRules(env, file);
    }
    if NodeRules(env, file) {
      forall j | 0 <= j < |file.nodes|
        ensures Fits(env, file, j)
      {
        RulesGiveFits(env, file, j);
      }
    }
  }

  lemma AliasRulesAgree(file: File)
    ensures (forall i :: 0 <= i < |file.nodes| ==> NodeAliasesOk(file, i)) <==>
              && (forall i, a :: 0 <= i < |file.nodes| && 0 <= a < |file.nodes[i].aliases| ==>
                    Alias(file.nodes[i].aliases[a]) && file.nodes[i].aliases[a] !in NamesOf(file.nodes))
              && forall i :: 0 <= i < |file.nodes| ==> Distinct(file.nodes[i].aliases)
  {
    if forall i :: 0 <= i < |file.nodes| ==> NodeAliasesOk(file, i) {
      forall i, a | 0 <= i < |file.nodes| && 0 <= a < |file.nodes[i].aliases|
        ensures Alias(file.nodes[i].aliases[a]) && file.nodes[i].aliases[a] !in NamesOf(file.nodes)
      {
        assert NodeAliasesOk(file, i);
      }
      forall i | 0 <= i < |file.nodes|
        ensures Distinct(file.nodes[i].aliases)
      {
        assert NodeAliasesOk(file, i);
      }
    }
  }

  function Count(flags: seq<bool>): nat
  {
    if flags == [] then 0 else Count(flags[..|flags| - 1]) + if flags[|flags| - 1] then 1 else 0
  }

  lemma {:induction false} CountMeans(flags: seq<bool>)
    ensures Count(flags) == 0 <==> forall i :: 0 <= i < |flags| ==> !flags[i]
    ensures Count(flags) <= 1 <==> forall i, j :: 0 <= i < j < |flags| ==> !(flags[i] && flags[j])
  {
    if flags != [] {
      CountMeans(flags[..|flags| - 1]);
    }
  }

  function Controls(nodes: seq<Node>): seq<bool>
  {
    seq(|nodes|, i requires 0 <= i < |nodes| => nodes[i].control)
  }

  function ResolvedControls(nodes: seq<ResolvedNode>): seq<bool>
  {
    seq(|nodes|, i requires 0 <= i < |nodes| => nodes[i].control)
  }

  method CountControls(nodes: seq<Node>) returns (controls: nat)
    ensures controls == Count(Controls(nodes))
    ensures controls == 0 <==> !HasControl(nodes)
    ensures controls <= 1 <==> forall i, j :: 0 <= i < j < |nodes| ==> !(nodes[i].control && nodes[j].control)
  {
    controls := 0;
    ghost var flags := Controls(nodes);
    for i := 0 to |nodes|
      invariant controls == Count(flags[..i])
    {
      assert flags[..i + 1][..i] == flags[..i];
      if nodes[i].control {
        controls := controls + 1;
      }
    }
    assert flags[..|nodes|] == flags;
    CountMeans(flags);
    assert forall i :: 0 <= i < |nodes| ==> flags[i] == nodes[i].control;
  }

  /** Validation of a file: it is accepted, completed with defaults and a control node, exactly when it satisfies the
      all-pairs rules. */
  method Validate(env: Env, file: File) returns (valid: Option<File>)
    ensures valid.Some? <==> FileOk(env, Defaults(env, file))
    ensures valid.Some? ==> valid.value == WithControl(Defaults(env, file))
  {
    var full := Defaults(env, file);
    if !HeadOk(env, full) {
      return None;
    }
    var names := CheckNames(full.nodes);
    if names.None? {
      return None;
    }
    RulesAgree(env, full);
    var sound := CheckNodes(env, full, names.value);
    if !sound {
      return None;
    }
    var controls := CountControls(full.nodes);
    if controls > 1 {
      return None;
    }
    if controls == 0 {
      full := full.(nodes := full.nodes[0 := full.nodes[0].(control := true)]);
    }
    return Some(full);
  }

  /** The checks of planning, in one pass over the resolved nodes. */
  method ValidateResolved(env: Env, value: ResolvedFile) returns (ok: bool)
    ensures ok == Plannable(env, value)
  {
    if value.schema != 1 || value.network != "private" || |value.nodes| < 1 || |value.nodes| > MAX_NODES || value.sshUser == "" {
      return false;
    }
    if value.arch !in {"", "amd64", "arm64"} || value.waitTimeout < 0 {
      return false;
    }
    var layout := env.layout(value.cidr);
    if layout.None? || value.hostAddress != layout.value.hostAddress || value.dhcpEnd != layout.value.dhcpEnd {
      return false;
    }
    ok := CheckResolvedNodes(layout.value, value.nodes);
  }

  /** The nodes are sound, and no two share a name or an address. */
  predicate ResolvedNodesOk(layout: Layout, nodes: seq<ResolvedNode>)
  {
    && (forall i :: 0 <= i < |nodes| ==> ResolvedNodeOk(layout, nodes[i]))
    && forall i, j :: 0 <= i < j < |nodes| ==> nodes[i].name != nodes[j].name && nodes[i].address != nodes[j].address
  }

  /** The sets hold the names and addresses of the first n nodes. */
  ghost predicate SeenResolved(nodes: seq<ResolvedNode>, n: nat, names: set<string>, addresses: set<string>)
    requires n <= |nodes|
  {
    && (forall name :: name in names <==> exists j :: 0 <= j < n && nodes[j].name == name)
    && forall address :: address in addresses <==> exists j :: 0 <= j < n && nodes[j].address == address
  }

  lemma ResolvedStep(layout: Layout, nodes: seq<ResolvedNode>, n: nat, names: set<string>, addresses: set<string>)
    requires n < |nodes| && SeenResolved(nodes, n, names, addresses) && ResolvedNodesOk(layout, nodes[..n])
    ensures ResolvedNodeOk(layout, nodes[n]) && nodes[n].name !in names && nodes[n].address !in addresses
            <==> ResolvedNodesOk(layout, nodes[..n + 1])
    ensures SeenResolved(nodes, n + 1, names + {nodes[n].name}, addresses + {nodes[n].address})
  {
    var before, after := nodes[..n], nodes[..n + 1];
    assert after == before + [nodes[n]];
    if ResolvedNodesOk(layout, after) {
      assert after[n] == nodes[n];
      forall j | 0 <= j < n
        ensures nodes[j].name != nodes[n].name && nodes[j].address != nodes[n].address
      {
        assert after[j].name != after[n].name && after[j].address != after[n].address;
      }
    }
  }

  method CheckResolvedNodes(layout: Layout, nodes: seq<ResolvedNode>) returns (ok: bool)
    ensures ok == (ResolvedNodesOk(layout, nodes) && OneControl(nodes))
  {
    var names: set<string>, addresses: set<string> := {}, {};
    var controls := 0;
    ghost var flags := ResolvedControls(nodes);
    for i := 0 to |nodes|
      invariant SeenResolved(nodes, i, names, addresses)
      invariant ResolvedNodesOk(layout, nodes[..i]) && controls == Count(flags[..i])
    {
      var node := nodes[i];
      ResolvedStep(layout, nodes, i, names, addresses);
      assert flags[..i + 1][..i] == flags[..i];
      if !ResolvedNodeOk(layout, node) || node.name in names || node.address in addresses {
        return false;
      }
      names, addresses := names + {node.name}, addresses + {node.address};
      if node.control {
        controls := controls + 1;
      }
    }
    assert nodes[..|nodes|] == nodes && flags[..|nodes|] == flags;
    CountMeans(flags);
    ControlsMean(nodes);
    return controls == 1;
  }

  lemma ControlsMean(nodes: seq<ResolvedNode>)
    ensures Count(ResolvedControls(nodes)) == 1 <==> OneControl(nodes)
  {
    var flags := ResolvedControls(nodes);
    CountMeans(flags);
    assert forall i :: 0 <= i < |nodes| ==> flags[i] == nodes[i].control;
  }

  /** Resolving a file: accepted files give the resolved form that planning accepts, unless the wait timeout is
      negative. */
  method Resolve(env: Env, file: File) returns (resolved: Option<ResolvedFile>)
    ensures resolved.Some? <==> FileOk(env, Defaults(env, file))
    ensures resolved.Some? ==> resolved.value == ResolvedFrom(WithControl(Defaults(env, file)))
    ensures resolved.Some? ==> OneControl(resolved.value.nodes) && (Plannable(env, resolved.value) <==> file.waitTimeout >= 0)
  {
    var valid := Validate(env, file);
    if valid.None? {
      return None;
    }
    ResolveMeetsPlanning(env, file);
    return Some(ResolvedFrom(valid.value));
  }
}
