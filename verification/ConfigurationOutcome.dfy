/** Which files are accepted, in terms of the paths that nodes mount and share, and what a resolved file takes from the
    file that was written. */
module ConfigurationOutcome {
  import opened Wrappers
  import opened Collections
  import opened Configuration
  import DeploymentStore

  // ---------------------------------------------------------------- paths

  predicate Under(path: string, directory: string)
  {
    path == directory || directory + "/" <= path
  }

  /** No path is under both. */
  ghost predicate Disjoint(first: string, second: string)
  {
    forall path :: !(Under(path, first) && Under(path, second))
  }

  /** Two directories overlap exactly when some path is under both. */
  lemma OverlapIsShared(first: string, second: string)
    ensures Overlap(first, second) <==> !Disjoint(first, second)
  {
    if Overlap(first, second) {
      assert Under(first, first) && Under(second, second);
      assert Under(first, second) || Under(second, first);
    }
    if path :| Under(path, first) && Under(path, second) {
      var longer := path + "/";
      assert first + "/" <= longer && second + "/" <= longer;
      if |first| < |second| {
        assert first + "/" == longer[..|first| + 1] == second[..|first| + 1];
      } else if |second| < |first| {
        assert second + "/" == longer[..|second| + 1] == first[..|second| + 1];
      } else {
        assert first == longer[..|first|] == second;
      }
    }
  }

  // ---------------------------------------------------------------- acceptance

  /** A clean path away from the root and from every directory of the system. */
  ghost predicate MountSound(path: string)
  {
    CleanAbsolute(path) && path != "/" && forall i :: 0 <= i < |RESERVED_MOUNTS| ==> Disjoint(path, RESERVED_MOUNTS[i])
  }

  ghost predicate DiskSound(disk: Disk)
  {
    && DiskName(disk.name) && disk.size > 0 && MountSound(disk.mount)
    && (disk.filesystem == "auto" || disk.filesystem == "xfs" || disk.filesystem == "ext4")
  }

  predicate GuestText(path: string)
  {
    |path| >= 2 && forall c :: c in path ==> LowerOrDigit(c) || 'A' <= c <= 'Z' || c in "._/-"
  }

  /** The guest sees the share away from the system, from its SSH keys, and from every mounted disk. */
  ghost predicate ShareSound(share: Share, user: string, disks: seq<Disk>)
  {
    && CleanAbsolute(share.host) && share.host != "/" && (forall c :: c in share.host ==> c != '\0' && c != '\r' && c != '\n')
    && GuestText(share.guest) && MountSound(share.guest) && Disjoint(share.guest, "/home/" + user + "/.ssh")
    && forall k :: 0 <= k < |disks| ==> Disjoint(disks[k].mount, share.guest)
  }

  ghost predicate NodeSound(env: Env, file: File, layout: Layout, node: Node)
  {
    && DeploymentStore.NodeName(node.name) && env.reference(node.image) && layout.isStatic(node.address)
    && 1 <= node.cpus <= 256 && node.memory >= 536870912 && node.rootDisk > 0
    && (forall k :: 0 <= k < |node.disks| ==> DiskSound(node.disks[k]))
    && (forall k, l :: 0 <= k < l < |node.disks| ==> node.disks[k].name != node.disks[l].name && node.disks[k].mount != node.disks[l].mount)
    && |node.shares| <= 8 && (forall k :: 0 <= k < |node.shares| ==> ShareSound(node.shares[k], file.sshUser, node.disks))
    && forall k, l :: 0 <= k < l < |node.shares| ==>
         Disjoint(node.shares[k].host, node.shares[l].host) && Disjoint(node.shares[k].guest, node.shares[l].guest)
  }

  /** The share says that it can be written. */
  predicate Writable(share: Share)
  {
    share.readonly == Some(false)
  }

  /** No host path that one node can write is seen by the other. */
  ghost predicate HostsApart(first: Node, second: Node)
  {
    forall k, l :: 0 <= k < |first.shares| && 0 <= l < |second.shares| ==>
      Disjoint(first.shares[k].host, second.shares[l].host) || (!Writable(first.shares[k]) && !Writable(second.shares[l]))
  }

  /** Two nodes have nothing in common that identifies them. */
  predicate NodesApart(first: Node, second: Node)
  {
    && first.name != second.name && first.address != second.address && !(first.control && second.control)
    && (forall alias :: alias in first.aliases ==> alias !in second.aliases && alias != second.name)
    && forall alias :: alias in second.aliases ==> alias != first.name
  }

  predicate AliasesSound(node: Node)
  {
    && (forall alias :: alias in node.aliases ==> Alias(alias) && alias != node.name)
    && forall a, b :: 0 <= a < b < |node.aliases| ==> node.aliases[a] != node.aliases[b]
  }

  predicate HeadSound(env: Env, file: File)
  {
    && file.version == 1 && DeploymentStore.NodeName(file.name) && SshUser(file.sshUser) && env.reference(file.image)
    && (file.arch == "native" || file.arch == "amd64" || file.arch == "arm64") && file.mode == "private"
    && 1 <= |file.nodes| <= 20 && env.layout(file.cidr).Some?
    && file.hostAddress == env.layout(file.cidr).value.hostAddress && file.dhcpEnd == env.layout(file.cidr).value.dhcpEnd
  }

  ghost predicate FileSound(env: Env, file: File)
  {
    && HeadSound(env, file)
    && (forall i :: 0 <= i < |file.nodes| ==> NodeSound(env, file, env.layout(file.cidr).value, file.nodes[i]) && AliasesSound(file.nodes[i]))
    && forall i, j :: 0 <= i < j < |file.nodes| ==> NodesApart(file.nodes[i], file.nodes[j]) && HostsApart(file.nodes[i], file.nodes[j])
  }

  lemma MountIsSound(path: string)
    ensures SafeMount(path) <==> MountSound(path)
  {
    forall i | 0 <= i < |RESERVED_MOUNTS|
      ensures Overlap(path, RESERVED_MOUNTS[i]) <==> !Disjoint(path, RESERVED_MOUNTS[i])
    {
      OverlapIsShared(path, RESERVED_MOUNTS[i]);
    }
  }

  lemma ShareIsSound(share: Share, user: string, disks: seq<Disk>)
    ensures ShareOk(share, user, disks) <==> ShareSound(share, user, disks)
  {
    MountIsSound(share.guest);
    OverlapIsShared(share.guest, SshDirectory(user));
    forall k | 0 <= k < |disks|
      ensures Overlap(disks[k].mount, share.guest) <==> !Disjoint(disks[k].mount, share.guest)
    {
      OverlapIsShared(disks[k].mount, share.guest);
    }
    assert SafeShareGuest(share.guest) <==> GuestText(share.guest) && SafeMount(share.guest) by {
      assert forall i :: 0 <= i < |share.guest| ==> share.guest[i] in share.guest;
    }
  }

  lemma DisksAreSound(disks: seq<Disk>)
    ensures DisksOk(disks) <==>
              && (forall k :: 0 <= k < |disks| ==> DiskSound(disks[k]))
              && forall k, l :: 0 <= k < l < |disks| ==> disks[k].name != disks[l].name && disks[k].mount != disks[l].mount
  {
    forall k | 0 <= k < |disks|
      ensures SafeMount(disks[k].mount) <==> MountSound(disks[k].mount)
    {
      MountIsSound(disks[k].mount);
    }
  }

  lemma SharesAreSound(node: Node, user: string)
    ensures SharesOk(node, user) <==>
              && |node.shares| <= 8 && (forall k :: 0 <= k < |node.shares| ==> ShareSound(node.shares[k], user, node.disks))
              && forall k, l :: 0 <= k < l < |node.shares| ==>
                   Disjoint(node.shares[k].host, node.shares[l].host) && Disjoint(node.shares[k].guest, node.shares[l].guest)
  {
    forall k | 0 <= k < |node.shares|
      ensures ShareOk(node.shares[k], user, node.disks) <==> ShareSound(node.shares[k], user, node.disks)
    {
      ShareIsSound(node.shares[k], user, node.disks);
    }
    forall k, l | 0 <= k < l < |node.shares|
      ensures Apart(node.shares[k], node.shares[l]) <==>
                Disjoint(node.shares[k].host, node.shares[l].host) && Disjoint(node.shares[k].guest, node.shares[l].guest)
    {
      OverlapIsShared(node.shares[k].host, node.shares[l].host);
      OverlapIsShared(node.shares[k].guest, node.shares[l].guest);
    }
  }

  lemma NodeIsSound(env: Env, file: File, layout: Layout, node: Node)
    ensures NodeSound(env, file, layout, node) <==> DeploymentStore.NodeName(node.name) && NodeOk(env, file, layout, node)
  {
    DisksAreSound(node.disks);
    SharesAreSound(node, file.sshUser);
  }

  lemma HostsAreApart(first: Node, second: Node)
    ensures SharesAgree(first.shares, second.shares) <==> HostsApart(first, second)
  {
    forall k, l | 0 <= k < |first.shares| && 0 <= l < |second.shares|
      ensures Tolerated(first.shares[k], second.shares[l]) <==>
                Disjoint(first.shares[k].host, second.shares[l].host) || (!Writable(first.shares[k]) && !Writable(second.shares[l]))
    {
      OverlapIsShared(first.shares[k].host, second.shares[l].host);
    }
  }

  predicate NamesDiffer(nodes: seq<Node>)
  {
    && Distinct(NamesOf(nodes)) && Distinct(AddressesOf(nodes)) && AliasesOk(nodes)
    && forall i, j :: 0 <= i < j < |nodes| ==> !(nodes[i].control && nodes[j].control)
  }

  predicate AllApart(nodes: seq<Node>)
  {
    && (forall i :: 0 <= i < |nodes| ==> AliasesSound(nodes[i]))
    && forall i, j :: 0 <= i < j < |nodes| ==> NodesApart(nodes[i], nodes[j])
  }

  lemma NamesAreApart(nodes: seq<Node>)
    ensures NamesDiffer(nodes) <==> AllApart(nodes)
  {
    if NamesDiffer(nodes) {
      AliasesAvoidNames(nodes);
      forall i, j | 0 <= i < j < |nodes|
        ensures NodesApart(nodes[i], nodes[j])
      {
        assert NamesOf(nodes)[i] != NamesOf(nodes)[j] && AddressesOf(nodes)[i] != AddressesOf(nodes)[j];
      }
    }
    if AllApart(nodes) {
      ApartNamesDiffer(nodes);
    }
  }

  lemma ApartNamesDiffer(nodes: seq<Node>)
    requires AllApart(nodes)
    ensures NamesDiffer(nodes)
  {
    forall i, j | 0 <= i < j < |nodes|
      ensures NamesOf(nodes)[i] != NamesOf(nodes)[j] && AddressesOf(nodes)[i] != AddressesOf(nodes)[j]
      ensures forall alias :: alias in nodes[i].aliases ==> alias !in nodes[j].aliases
    {
      assert NodesApart(nodes[i], nodes[j]);
    }
    forall i, a | 0 <= i < |nodes| && 0 <= a < |nodes[i].aliases|
      ensures Alias(nodes[i].aliases[a]) && nodes[i].aliases[a] !in NamesOf(nodes)
    {
      AliasAvoidsNames(nodes, i, nodes[i].aliases[a]);
    }
    forall i | 0 <= i < |nodes|
      ensures Distinct(nodes[i].aliases)
    {
      assert AliasesSound(nodes[i]);
    }
  }

  lemma AliasesAvoidNames(nodes: seq<Node>)
    requires AliasesOk(nodes)
    ensures forall i :: 0 <= i < |nodes| ==> AliasesSound(nodes[i])
    ensures forall i, j, alias :: 0 <= i < |nodes| && 0 <= j < |nodes| && alias in nodes[i].aliases ==> alias != nodes[j].name
  {
    forall i, j, alias | 0 <= i < |nodes| && 0 <= j < |nodes| && alias in nodes[i].aliases
      ensures alias != nodes[j].name && Alias(alias)
    {
      var a :| 0 <= a < |nodes[i].aliases| && nodes[i].aliases[a] == alias;
      assert NamesOf(nodes)[j] == nodes[j].name;
    }
  }

  lemma AliasAvoidsNames(nodes: seq<Node>, i: nat, alias: string)
    requires i < |nodes| && alias in nodes[i].aliases
    requires forall k :: 0 <= k < |nodes| ==> AliasesSound(nodes[k])
    requires forall k, l :: 0 <= k < l < |nodes| ==> NodesApart(nodes[k], nodes[l])
    ensures Alias(alias) && alias !in NamesOf(nodes)
  {
    assert AliasesSound(nodes[i]);
    forall j | 0 <= j < |nodes|
      ensures NamesOf(nodes)[j] != alias
    {
      if j < i {
        assert NodesApart(nodes[j], nodes[i]);
      } else if i < j {
        assert NodesApart(nodes[i], nodes[j]);
      }
    }
  }

  /** A file is accepted if and only if its head is sound, every node is sound by itself, and no two nodes have a name,
      an address, an alias, the control role, or a writable host path in common. */
  lemma AcceptanceIsExact(env: Env, file: File)
    ensures FileOk(env, file) <==> FileSound(env, file)
  {
    assert HeadOk(env, file) <==> HeadSound(env, file);
    if HeadOk(env, file) {
      NamesAreApart(file.nodes);
      forall i | 0 <= i < |file.nodes|
        ensures NodeSound(env, file, env.layout(file.cidr).value, file.nodes[i]) <==>
                  DeploymentStore.NodeName(file.nodes[i].name) && NodeOk(env, file, env.layout(file.cidr).value, file.nodes[i])
      {
        NodeIsSound(env, file, env.layout(file.cidr).value, file.nodes[i]);
      }
      forall i, j | 0 <= i < j < |file.nodes|
        ensures SharesAgree(file.nodes[i].shares, file.nodes[j].shares) <==> HostsApart(file.nodes[i], file.nodes[j])
      {
        HostsAreApart(file.nodes[i], file.nodes[j]);
      }
    }
  }

  // ---------------------------------------------------------------- the resolved form

  function FirstSet(own: int, common: int, standard: int): int
  {
    if own != 0 then own else if common != 0 then common else standard
  }

  function Given(text: string, standard: string): string
  {
    if text == "" then standard else text
  }

  predicate DiskMatches(written: Disk, resolved: ResolvedDisk)
  {
    && resolved.name == written.name && resolved.size == written.size && resolved.mount == written.mount
    && resolved.persistent == written.persistent
    && resolved.filesystem == if written.filesystem == "auto" then "" else written.filesystem
  }

  predicate ShareMatches(written: Share, resolved: ResolvedShare)
  {
    resolved.host == written.host && resolved.guest == written.guest && (resolved.readonly <==> !Writable(written))
  }

  /** The resolved node has what was written, and the common values where nothing was. */
  predicate NodeMatches(file: File, written: Node, resolved: ResolvedNode)
  {
    && resolved.name == written.name && resolved.address == written.address && resolved.aliases == written.aliases
    && resolved.cpus == FirstSet(written.cpus, file.cpus, 1)
    && resolved.memory == FirstSet(written.memory, file.memory, 2147483648)
    && resolved.rootDisk == FirstSet(written.rootDisk, file.rootDisk, 68719476736)
    && |resolved.disks| == |written.disks| && (forall k :: 0 <= k < |written.disks| ==> DiskMatches(written.disks[k], resolved.disks[k]))
    && |resolved.shares| == |written.shares| && forall k :: 0 <= k < |written.shares| ==> ShareMatches(written.shares[k], resolved.shares[k])
  }

  /** The node was given the control role, or it is the first one and none was. */
  predicate TakesControl(nodes: seq<Node>, i: nat)
    requires i < |nodes|
  {
    nodes[i].control || (i == 0 && forall j :: 0 <= j < |nodes| ==> !nodes[j].control)
  }

  /** The image that a reference stands for. */
  function ImageOf(env: Env, reference: string): string
  {
    match env.canonical(reference)
    case None => reference
    case Some(image) => image
  }

  /** The image of a resolved node, which leaves it out when it is the common one. */
  function EffectiveImage(resolved: ResolvedFile, i: nat): string
    requires i < |resolved.nodes|
  {
    Given(resolved.nodes[i].image, resolved.image)
  }

  predicate HeadMatches(env: Env, file: File, resolved: ResolvedFile)
  {
    && resolved.schema == 1 && resolved.name == file.name && resolved.network == "private"
    && resolved.arch == (if file.arch == "native" then "" else file.arch)
    && resolved.cidr == Given(file.cidr, env.defaultCidr) && resolved.sshUser == Given(file.sshUser, "dba")
    && env.layout(resolved.cidr).Some?
    && resolved.hostAddress == env.layout(resolved.cidr).value.hostAddress && resolved.dhcpEnd == env.layout(resolved.cidr).value.dhcpEnd
    && resolved.waitTimeout == FirstSet(file.waitTimeout, 180000000000, 0)
    && resolved.image == ImageOf(env, Given(file.image, env.defaultImage))
  }

  /** A node of the completed file is the written one with its defaults and its role. */
  lemma FinalNode(env: Env, file: File, i: nat)
    requires i < |file.nodes|
    ensures var final, head := WithControl(Defaults(env, file)), HeadDefaults(env, file);
            && |final.nodes| == |file.nodes| && final.image == head.image
            && final.nodes[i] == NodeDefaults(env, head, file.nodes[i]).(control := TakesControl(file.nodes, i))
  {
    var full := Defaults(env, file);
    assert forall j :: 0 <= j < |file.nodes| ==> full.nodes[j].control == file.nodes[j].control;
    assert HasControl(full.nodes) <==> exists j :: 0 <= j < |file.nodes| && file.nodes[j].control;
  }

  lemma NodeIsTaken(env: Env, file: File, final: File, written: Node, control: bool)
    requires final.image == HeadDefaults(env, file).image
    ensures var node := ResolvedNodeOf(final, NodeDefaults(env, HeadDefaults(env, file), written).(control := control));
            NodeMatches(file, written, node) && node.control == control
  {
    var full := NodeDefaults(env, HeadDefaults(env, file), written);
    forall k | 0 <= k < |written.disks|
      ensures DiskMatches(written.disks[k], ResolvedDisks(full.disks)[k])
    {
    }
  }

  lemma ImageIsTaken(env: Env, file: File, final: File, written: Node, control: bool)
    requires final.image == HeadDefaults(env, file).image
    requires NodeDefaults(env, HeadDefaults(env, file), written).image != ""
    ensures var node := ResolvedNodeOf(final, NodeDefaults(env, HeadDefaults(env, file), written).(control := control));
            Given(node.image, final.image) == ImageOf(env, Given(written.image, Given(file.image, env.defaultImage)))
  {
  }

  lemma HeadIsTaken(env: Env, file: File)
    requires file.nodes != [] && HeadOk(env, Defaults(env, file))
    ensures HeadMatches(env, file, ResolvedFrom(WithControl(Defaults(env, file))))
  {
    var head, full := HeadDefaults(env, file), Defaults(env, file);
    assert full == head.(nodes := full.nodes);
    assert WithControl(full) == head.(nodes := WithControl(full).nodes);
  }

  /** What an accepted file resolves to: every node as it was written, with the common values and the standard ones where
      it leaves something out; a share can be written only if the file says so; the first node takes the control role when
      no node has it. */
  lemma ResolvedIsTaken(env: Env, file: File)
    requires FileOk(env, Defaults(env, file)) && !env.reference("")
    ensures var resolved := ResolvedFrom(WithControl(Defaults(env, file)));
            && HeadMatches(env, file, resolved) && |resolved.nodes| == |file.nodes|
            && forall i :: 0 <= i < |file.nodes| ==>
                 && NodeMatches(file, file.nodes[i], resolved.nodes[i])
                 && (resolved.nodes[i].control <==> TakesControl(file.nodes, i))
                 && EffectiveImage(resolved, i) == ImageOf(env, Given(file.nodes[i].image, Given(file.image, env.defaultImage)))
  {
    HeadIsTaken(env, file);
    forall i | 0 <= i < |file.nodes|
      ensures var resolved := ResolvedFrom(WithControl(Defaults(env, file)));
              && |resolved.nodes| == |file.nodes| && NodeMatches(file, file.nodes[i], resolved.nodes[i])
              && (resolved.nodes[i].control <==> TakesControl(file.nodes, i))
              && EffectiveImage(resolved, i) == ImageOf(env, Given(file.nodes[i].image, Given(file.image, env.defaultImage)))
    {
      ResolvedNodeIsTaken(env, file, i);
    }
  }

  lemma ImageIsGiven(env: Env, file: File, i: nat)
    requires FileOk(env, Defaults(env, file)) && !env.reference("") && i < |file.nodes|
    ensures NodeDefaults(env, HeadDefaults(env, file), file.nodes[i]).image != ""
  {
    var full := Defaults(env, file);
    assert NodeOk(env, full, env.layout(full.cidr).value, full.nodes[i]);
  }

  lemma ResolvedNodeIsTaken(env: Env, file: File, i: nat)
    requires FileOk(env, Defaults(env, file)) && !env.reference("") && i < |file.nodes|
    ensures var resolved := ResolvedFrom(WithControl(Defaults(env, file)));
            && |resolved.nodes| == |file.nodes| && NodeMatches(file, file.nodes[i], resolved.nodes[i])
            && (resolved.nodes[i].control <==> TakesControl(file.nodes, i))
            && EffectiveImage(resolved, i) == ImageOf(env, Given(file.nodes[i].image, Given(file.image, env.defaultImage)))
  {
    var final := WithControl(Defaults(env, file));
    FinalNode(env, file, i);
    ImageIsGiven(env, file, i);
    NodeIsTaken(env, file, final, file.nodes[i], TakesControl(file.nodes, i));
    ImageIsTaken(env, file, final, file.nodes[i], TakesControl(file.nodes, i));
  }
}
