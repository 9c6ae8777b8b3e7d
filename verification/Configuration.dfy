/** The deployment configuration: what a file must satisfy, stated over all pairs of nodes, aliases, disks and shares,
    and the resolved form that planning accepts. */
module Configuration {
  import opened Wrappers
  import opened Texts
  import opened Collections
  import DeploymentStore

  const MAX_CPUS := 256
  const MAX_SHARES := 8
  const MAX_NODES := 20
  const GIB := 0x4000_0000
  const MIN_MEMORY := 0x2000_0000
  const RESERVED_MOUNTS := [
    "/bin", "/boot", "/dev", "/etc", "/lib", "/lib64", "/proc", "/root", "/run", "/sbin", "/sys", "/usr", "/var/lib/farrow"]

  datatype Disk = Disk(name: string, size: int, mount: string, filesystem: string, persistent: bool)

  /** A share is read-only unless it says otherwise. */
  datatype Share = Share(host: string, guest: string, readonly: Option<bool>)

  datatype Node = Node(
    name: string, control: bool, address: string, aliases: seq<string>, image: string,
    cpus: int, memory: int, rootDisk: int, disks: seq<Disk>, shares: seq<Share>)

  datatype File = File(
    version: int, name: string, arch: string, mode: string, cidr: string, hostAddress: string, dhcpEnd: string,
    image: string, cpus: int, memory: int, rootDisk: int, sshUser: string, waitTimeout: int, nodes: seq<Node>)

  /** The address layout of a subnet. */
  datatype Layout = Layout(hostAddress: string, dhcpEnd: string, isStatic: string -> bool)

  /** Image references and subnets are checked elsewhere. */
  datatype Env = Env(defaultImage: string, canonical: string -> Option<string>, reference: string -> bool,
                     defaultCidr: string, layout: string -> Option<Layout>)

  // ---------------------------------------------------------------- text rules

  predicate LowerOrDigit(c: char) { 'a' <= c <= 'z' || '0' <= c <= '9' }

  predicate SshUser(s: string)
  {
    && 1 <= |s| <= 32 && ('a' <= s[0] <= 'z' || s[0] == '_')
    && forall i :: 1 <= i < |s| ==> LowerOrDigit(s[i]) || s[i] == '_' || s[i] == '-'
  }

  predicate Alias(s: string)
  {
    && 1 <= |s| <= 253 && LowerOrDigit(s[0]) && LowerOrDigit(s[|s| - 1])
    && (forall i :: 0 <= i < |s| ==> LowerOrDigit(s[i]) || s[i] == '.' || s[i] == '-')
    && !Contains(s, "..")
  }

  predicate DiskName(s: string)
  {
    && 1 <= |s| <= 32 && 'a' <= s[0] <= 'z'
    && forall i :: 1 <= i < |s| ==> LowerOrDigit(s[i]) || s[i] == '-'
  }

  /** An absolute path that cleaning leaves as it is. */
  predicate CleanAbsolute(path: string)
  {
    path == "/"
    || (&& path != "" && path[0] == '/'
        && forall part :: part in Split(path[1..], '/') ==> part != "" && part != "." && part != "..")
  }

  /** One path is the other or lies below it. */
  predicate Overlap(first: string, second: string)
  {
    first == second || HasPrefix(first, second + "/") || HasPrefix(second, first + "/")
  }

  predicate SafeMount(path: string)
  {
    CleanAbsolute(path) && path != "/" && forall i :: 0 <= i < |RESERVED_MOUNTS| ==> !Overlap(path, RESERVED_MOUNTS[i])
  }

  predicate SafeShareHost(path: string)
  {
    CleanAbsolute(path) && path != "/" && '\0' !in path && '\r' !in path && '\n' !in path
  }

  predicate SafeShareGuest(path: string)
  {
    && |path| >= 2
    && (forall i :: 0 <= i < |path| ==>
          LowerOrDigit(path[i]) || 'A' <= path[i] <= 'Z' || path[i] == '.' || path[i] == '_' || path[i] == '/' || path[i] == '-')
    && SafeMount(path)
  }

  predicate Readonly(share: Share)
  {
    share.readonly.None? || share.readonly.value
  }

  // ---------------------------------------------------------------- defaults

  function Canonical(env: Env, reference: string): string
  {
    if env.canonical(reference).Some? then env.canonical(reference).value else reference
  }

  function DiskDefaults(disks: seq<Disk>): seq<Disk>
  {
    seq(|disks|, i requires 0 <= i < |disks| => if disks[i].filesystem == "" then disks[i].(filesystem := "auto") else disks[i])
  }

  function NodeDefaults(env: Env, file: File, node: Node): Node
  {
    node.(image := if node.image == "" then file.image else Canonical(env, node.image),
          cpus := if node.cpus == 0 then file.cpus else node.cpus,
          memory := if node.memory == 0 then file.memory else node.memory,
          rootDisk := if node.rootDisk == 0 then file.rootDisk else node.rootDisk,
          disks := DiskDefaults(node.disks))
  }

  function HeadDefaults(env: Env, file: File): File
  {
    var mode := if file.mode == "" then "private" else file.mode;
    var cidr := if mode == "private" && file.cidr == "" then env.defaultCidr else file.cidr;
    var layout := if mode == "private" then env.layout(cidr) else None;
    file.(arch := if file.arch == "" then "native" else file.arch,
          mode := mode, cidr := cidr,
          hostAddress := if layout.Some? && file.hostAddress == "" then layout.value.hostAddress else file.hostAddress,
          dhcpEnd := if layout.Some? && file.dhcpEnd == "" then layout.value.dhcpEnd else file.dhcpEnd,
          image := Canonical(env, if file.image == "" then env.defaultImage else file.image),
          cpus := if file.cpus == 0 then 1 else file.cpus,
          memory := if file.memory == 0 then 2 * GIB else file.memory,
          rootDisk := if file.rootDisk == 0 then 64 * GIB else file.rootDisk,
          sshUser := if file.sshUser == "" then "dba" else file.sshUser,
          waitTimeout := if file.waitTimeout == 0 then 180_000_000_000 else file.waitTimeout)
  }

  function Defaults(env: Env, file: File): File
  {
    var head := HeadDefaults(env, file);
    head.(nodes := seq(|file.nodes|, i requires 0 <= i < |file.nodes| => NodeDefaults(env, head, file.nodes[i])))
  }

  // ---------------------------------------------------------------- all-pairs rules

  function NamesOf(nodes: seq<Node>): seq<string>
  {
    seq(|nodes|, i requires 0 <= i < |nodes| => nodes[i].name)
  }

  function AddressesOf(nodes: seq<Node>): seq<string>
  {
    seq(|nodes|, i requires 0 <= i < |nodes| => nodes[i].address)
  }

  /** Every alias is well formed, unlike every node name and every other alias of the deployment. */
  predicate AliasesOk(nodes: seq<Node>)
  {
    && (forall i, a :: 0 <= i < |nodes| && 0 <= a < |nodes[i].aliases| ==>
          Alias(nodes[i].aliases[a]) && nodes[i].aliases[a] !in NamesOf(nodes))
    && (forall i :: 0 <= i < |nodes| ==> Distinct(nodes[i].aliases))
    && forall i, j, alias :: 0 <= i < j < |nodes| && alias in nodes[i].aliases ==> alias !in nodes[j].aliases
  }

  predicate DisksOk(disks: seq<Disk>)
  {
    && (forall i :: 0 <= i < |disks| ==>
          DiskName(disks[i].name) && disks[i].size > 0 && SafeMount(disks[i].mount) && disks[i].filesystem in {"auto", "xfs", "ext4"})
    && forall i, j :: 0 <= i < j < |disks| ==> disks[i].name != disks[j].name && disks[i].mount != disks[j].mount
  }

  function SshDirectory(user: string): string { "/home/" + user + "/.ssh" }

  predicate ShareOk(share: Share, user: string, disks: seq<Disk>)
  {
    && SafeShareHost(share.host) && SafeShareGuest(share.guest) && !Overlap(share.guest, SshDirectory(user))
    && forall i :: 0 <= i < |disks| ==> !Overlap(disks[i].mount, share.guest)
  }

  predicate Apart(first: Share, second: Share)
  {
    !Overlap(first.host, second.host) && !Overlap(first.guest, second.guest)
  }

  /** Two nodes may share host paths that overlap only if both only read them. */
  predicate Tolerated(first: Share, second: Share)
  {
    Overlap(first.host, second.host) ==> Readonly(first) && Readonly(second)
  }

  predicate SharesOk(node: Node, user: string)
  {
    && |node.shares| <= MAX_SHARES
    && (forall i :: 0 <= i < |node.shares| ==> ShareOk(node.shares[i], user, node.disks))
    && forall i, j :: 0 <= i < j < |node.shares| ==> Apart(node.shares[i], node.shares[j])
  }

  predicate SharesAgree(first: seq<Share>, second: seq<Share>)
  {
    forall a, b :: 0 <= a < |first| && 0 <= b < |second| ==> Tolerated(first[a], second[b])
  }

  predicate ResourcesOk(node: Node)
  {
    1 <= node.cpus <= MAX_CPUS && node.memory >= MIN_MEMORY && node.rootDisk > 0
  }

  predicate NodeOk(env: Env, file: File, layout: Layout, node: Node)
  {
    && env.reference(node.image) && ResourcesOk(node) && layout.isStatic(node.address)
    && DisksOk(node.disks) && SharesOk(node, file.sshUser)
  }

  predicate HeadOk(env: Env, file: File)
  {
    && file.version == 1 && DeploymentStore.NodeName(file.name) && file.arch in {"native", "amd64", "arm64"}
    && file.mode == "private" && SshUser(file.sshUser) && env.reference(file.image) && 1 <= |file.nodes| <= MAX_NODES
    && env.layout(file.cidr).Some? && file.hostAddress == env.layout(file.cidr).value.hostAddress
    && file.dhcpEnd == env.layout(file.cidr).value.dhcpEnd
  }

  /** Everything a file must satisfy once its defaults are filled in. */
  predicate FileOk(env: Env, file: File)
  {
    && HeadOk(env, file)
    && (forall i :: 0 <= i < |file.nodes| ==>
          DeploymentStore.NodeName(file.nodes[i].name) && NodeOk(env, file, env.layout(file.cidr).value, file.nodes[i]))
    && Distinct(NamesOf(file.nodes)) && Distinct(AddressesOf(file.nodes)) && AliasesOk(file.nodes)
    && (forall i, j :: 0 <= i < j < |file.nodes| ==> SharesAgree(file.nodes[i].shares, file.nodes[j].shares))
    && forall i, j :: 0 <= i < j < |file.nodes| ==> !(file.nodes[i].control && file.nodes[j].control)
  }

  predicate HasControl(nodes: seq<Node>)
  {
    exists i :: 0 <= i < |nodes| && nodes[i].control
  }

  /** Without a control node the first node becomes it. */
  function WithControl(file: File): File
    requires file.nodes != []
  {
    if HasControl(file.nodes) then file else file.(nodes := file.nodes[0 := file.nodes[0].(control := true)])
  }

  // ---------------------------------------------------------------- resolving

  datatype ResolvedDisk = ResolvedDisk(name: string, size: int, mount: string, filesystem: string, persistent: bool)

  datatype ResolvedShare = ResolvedShare(host: string, guest: string, readonly: bool)

  datatype ResolvedNode = ResolvedNode(
    name: string, control: bool, address: string, aliases: seq<string>, image: string,
    cpus: int, memory: int, rootDisk: int, disks: seq<ResolvedDisk>, shares: seq<ResolvedShare>)

  datatype ResolvedFile = ResolvedFile(
    schema: int, name: string, image: string, arch: string, network: string, cidr: string, hostAddress: string, dhcpEnd: string,
    sshUser: string, waitTimeout: int, nodes: seq<ResolvedNode>)

  function ResolvedDisks(disks: seq<Disk>): seq<ResolvedDisk>
  {
    seq(|disks|, i requires 0 <= i < |disks| =>
      ResolvedDisk(disks[i].name, disks[i].size, disks[i].mount, if disks[i].filesystem == "auto" then "" else disks[i].filesystem,
                   disks[i].persistent))
  }

  function ResolvedShares(shares: seq<Share>): seq<ResolvedShare>
  {
    seq(|shares|, i requires 0 <= i < |shares| => ResolvedShare(shares[i].host, shares[i].guest, Readonly(shares[i])))
  }

  function ResolvedNodeOf(file: File, node: Node): ResolvedNode
  {
    ResolvedNode(node.name, node.control, node.address, node.aliases, if node.image != file.image then node.image else "",
                 node.cpus, node.memory, node.rootDisk, ResolvedDisks(node.disks), ResolvedShares(node.shares))
  }

  function ResolvedFrom(file: File): ResolvedFile
  {
    ResolvedFile(1, file.name, file.image, if file.arch != "native" then file.arch else "", file.mode,
                 file.cidr, file.hostAddress, file.dhcpEnd, file.sshUser, file.waitTimeout,
                 seq(|file.nodes|, i requires 0 <= i < |file.nodes| => ResolvedNodeOf(file, file.nodes[i])))
  }

  /** The contract of planning. */
  predicate Plannable(env: Env, value: ResolvedFile)
  {
    && value.schema == 1 && value.network == "private" && 1 <= |value.nodes| <= MAX_NODES && value.sshUser != ""
    && value.arch in {"", "amd64", "arm64"} && value.waitTimeout >= 0
    && env.layout(value.cidr).Some? && value.hostAddress == env.layout(value.cidr).value.hostAddress
    && value.dhcpEnd == env.layout(value.cidr).value.dhcpEnd
    && (forall i :: 0 <= i < |value.nodes| ==> ResolvedNodeOk(env.layout(value.cidr).value, value.nodes[i]))
    && (forall i, j :: 0 <= i < j < |value.nodes| ==>
          value.nodes[i].name != value.nodes[j].name && value.nodes[i].address != value.nodes[j].address)
    && OneControl(value.nodes)
  }

  predicate ResolvedNodeOk(layout: Layout, node: ResolvedNode)
  {
    && DeploymentStore.NodeName(node.name) && layout.isStatic(node.address)
    && node.cpus >= 1 && node.memory >= MIN_MEMORY && node.rootDisk > 0
  }

  predicate OneControl(nodes: seq<ResolvedNode>)
  {
    && (exists i :: 0 <= i < |nodes| && nodes[i].control)
    && forall i, j :: 0 <= i < j < |nodes| ==> !(nodes[i].control && nodes[j].control)
  }

  lemma FinalHasOneControl(file: File)
    requires file.nodes != [] && forall i, j :: 0 <= i < j < |file.nodes| ==> !(file.nodes[i].control && file.nodes[j].control)
    ensures OneControl(ResolvedFrom(WithControl(file)).nodes)
  {
    var final, nodes := WithControl(file), ResolvedFrom(WithControl(file)).nodes;
    assert forall i :: 0 <= i < |nodes| ==> nodes[i].control == final.nodes[i].control;
    if HasControl(file.nodes) {
      var k :| 0 <= k < |file.nodes| && file.nodes[k].control;
      assert nodes[k].control;
    } else {
      assert nodes[0].control;
    }
  }

  lemma FinalNodesAreSound(env: Env, file: File, i: nat)
    requires FileOk(env, file) && i < |file.nodes|
    ensures var node := ResolvedFrom(WithControl(file)).nodes[i];
            && ResolvedNodeOk(env.layout(file.cidr).value, node)
            && node.name == file.nodes[i].name && node.address == file.nodes[i].address
  {
    assert NodeOk(env, file, env.layout(file.cidr).value, file.nodes[i]);
  }

  lemma FinalNodesDiffer(env: Env, file: File)
    requires FileOk(env, file)
    ensures var nodes := ResolvedFrom(WithControl(file)).nodes;
            && (forall i :: 0 <= i < |nodes| ==> ResolvedNodeOk(env.layout(file.cidr).value, nodes[i]))
            && forall i, j :: 0 <= i < j < |nodes| ==> nodes[i].name != nodes[j].name && nodes[i].address != nodes[j].address
  {
    var nodes := ResolvedFrom(WithControl(file)).nodes;
    forall i | 0 <= i < |nodes|
      ensures ResolvedNodeOk(env.layout(file.cidr).value, nodes[i])
      ensures nodes[i].name == NamesOf(file.nodes)[i] && nodes[i].address == AddressesOf(file.nodes)[i]
    {
      FinalNodesAreSound(env, file, i);
    }
    assert Distinct(NamesOf(file.nodes)) && Distinct(AddressesOf(file.nodes));
  }

  /** What an accepted file resolves to passes planning exactly when its wait timeout, which validation does not check,
      is not negative; either way it has exactly one control node. */
  lemma ResolveMeetsPlanning(env: Env, file: File)
    requires FileOk(env, Defaults(env, file))
    ensures var resolved := ResolvedFrom(WithControl(Defaults(env, file)));
            && OneControl(resolved.nodes)
            && (Plannable(env, resolved) <==> file.waitTimeout >= 0)
  {
    FinalHasOneControl(Defaults(env, file));
    FinalNodesDiffer(env, Defaults(env, file));
  }

  /** The wait timeout as it is read: an absent field is zero, and only positive durations are accepted. */
  function ReadTimeout(field: Option<string>, duration: string -> Option<int>): Option<int>
  {
    match field
    case None => Some(0)
    case Some(text) => if duration(text).None? || duration(text).value <= 0 then None else duration(text)
  }

  /** An accepted file whose timeout was read resolves to something that planning accepts. */
  lemma ReadFilesArePlannable(env: Env, file: File, field: Option<string>, duration: string -> Option<int>)
    requires FileOk(env, Defaults(env, file)) && ReadTimeout(field, duration) == Some(file.waitTimeout)
    ensures Plannable(env, ResolvedFrom(WithControl(Defaults(env, file))))
  {
    ResolveMeetsPlanning(env, file);
  }

  /** Filling in defaults twice changes nothing more, when canonical references are their own canonical form. */
  lemma DefaultsAreStable(env: Env, file: File)
    requires forall reference :: env.canonical(reference).Some? ==>
               env.canonical(env.canonical(reference).value) == env.canonical(reference) && env.canonical(reference).value != ""
    requires env.defaultImage != "" && env.defaultCidr != ""
    requires forall cidr :: env.layout(cidr).Some? ==> env.layout(cidr).value.hostAddress != "" && env.layout(cidr).value.dhcpEnd != ""
    ensures Defaults(env, Defaults(env, file)) == Defaults(env, file)
  {
    var once := Defaults(env, file);
    var head := HeadDefaults(env, file);
    assert HeadDefaults(env, once) == once;
    forall i | 0 <= i < |file.nodes|
      ensures NodeDefaults(env, once, once.nodes[i]) == once.nodes[i]
    {
      var node := NodeDefaults(env, head, file.nodes[i]);
      assert once.nodes[i] == node;
      assert DiskDefaults(node.disks) == node.disks;
    }
    assert Defaults(env, once).nodes == once.nodes;
  }
}
