/** Destroying nodes: everything is validated first; then phases are marked, persistent disks preserved, files
    removed, and the deployment state dropped or narrowed. */
module Destroy {
  import opened Wrappers
  import opened DeploymentStore
  import opened RetainedStore

  /** selection is empty for the whole deployment; live names nodes whose process or runtime is in use. */
  datatype Request = Request(selection: seq<Name>, allowPartial: bool, dropFromSpec: bool, live: set<Name>, now: nat)

  function Names(nodes: seq<NodeDef>): seq<Name>
  {
    seq(|nodes|, i requires 0 <= i < |nodes| => nodes[i].name)
  }

  /** Every node without a selection; otherwise the known, unrepeated names asked for. */
  function Selected(resolved: Resolved, selection: seq<Name>): Option<seq<Name>>
  {
    if selection == [] then Some(Names(resolved.nodes))
    else if (forall name :: name in selection ==> name in Names(resolved.nodes))
            && forall i, j :: 0 <= i < j < |selection| ==> selection[i] != selection[j]
    then Some(selection)
    else None
  }

  function IsPartial(resolved: Resolved, selected: seq<Name>): bool
  {
    |selected| != |resolved.nodes|
  }

  // ---------------------------------------------------------------- removal list of one node

  function ExpectedFiles(node: NodeState): set<Path>
  {
    {InNode(node.node, StateFile), node.rootDisk, node.seed,
     InNode(node.node, SerialLog), InNode(node.node, QemuLog), InNode(node.node, EventLog)}
    + (if node.nvram.Some? then {node.nvram.value} else {})
    + set i | 0 <= i < |node.dataDisks| && InsideNode(node.node, node.dataDisks[i].path) :: node.dataDisks[i].path
  }

  predicate InsideNode(node: Name, path: Path)
  {
    path.InNode? && path.node == node
  }

  function RemovableData(disks: seq<DataDisk>): seq<Path>
  {
    if disks == [] then []
    else (if disks[0].persistent then [] else [disks[0].path]) + RemovableData(disks[1..])
  }

  function NodeTargets(disk: Disk, node: NodeState): Option<seq<Path>>
  {
    var name := node.node;
    if exists i :: 0 <= i < |node.dataDisks| && !InsideNode(name, node.dataDisks[i].path) && !node.dataDisks[i].persistent
    then None
    else if name !in disk.nodes then None
    else if exists base :: base in Entries(disk.nodes[name]) && InNode(name, base) !in ExpectedFiles(node) then None
    else
      Some([node.rootDisk] + RemovableData(node.dataDisks) + [node.seed]
           + (if node.nvram.Some? then [node.nvram.value] else [])
           + [InNode(name, SerialLog), InNode(name, QemuLog), InNode(name, EventLog), InNode(name, StateFile)])
  }

  // ---------------------------------------------------------------- validation

  function IdentitiesOf(node: Name, disks: seq<DiskDef>): seq<Identity>
  {
    if disks == [] then []
    else (if disks[0].persistent then [Identity(node, disks[0].name, disks[0].size, disks[0].mount)] else [])
         + IdentitiesOf(node, disks[1..])
  }

  function Identities(nodes: seq<NodeDef>): seq<Identity>
  {
    if nodes == [] then [] else IdentitiesOf(nodes[0].name, nodes[0].disks) + Identities(nodes[1..])
  }

  /** Every persistent disk that a state records is at its recorded path and declared with the same contract. */
  predicate RecordedDisksOk(disk: Disk, desired: seq<Identity>, nodes: seq<NodeState>)
  {
    forall i, k :: 0 <= i < |nodes| && 0 <= k < |nodes[i].dataDisks| && nodes[i].dataDisks[k].persistent ==>
      var data := nodes[i].dataDisks[k];
      SourceOk(disk, data.path) && Identity(nodes[i].node, data.name, data.size, data.mount) in desired
  }

  /** Retained disks of nodes that were removed from the configuration are kept, not questioned. */
  predicate PersistentOk(disk: Disk, resolved: Resolved, nodes: seq<NodeState>)
  {
    var desired := Identities(resolved.nodes);
    && InventoryOk(disk)
    && DistinctKeys(desired)
    && (forall key :: key in Records(disk) && key.0 in Names(resolved.nodes) ==> Records(disk)[key] in desired)
    && RecordedDisksOk(disk, desired, nodes)
  }

  /** The states of the nodes a plan destroys, in configuration order. */
  function States(disk: Disk, names: seq<Name>): seq<NodeState>
  {
    if names == [] then []
    else (if ReadNode(disk, names[0]).Some? then [ReadNode(disk, names[0]).value] else []) + States(disk, names[1..])
  }

  function Kept(names: seq<Name>, selected: seq<Name>): seq<Name>
  {
    if names == [] then []
    else (if names[0] in selected then [names[0]] else []) + Kept(names[1..], selected)
  }

  predicate Destroyable(disk: Disk, request: Request, node: NodeState)
  {
    (node.phase == Stopped || node.phase == Prepared) && node.node !in request.live && NodeTargets(disk, node).Some?
  }

  /** The nodes to destroy, or nothing when validation refuses. */
  function PlanDestroy(disk: Disk, resolved: Resolved, selected: seq<Name>, request: Request): Option<seq<NodeState>>
  {
    var names := Names(resolved.nodes);
    var nodes := States(disk, Kept(names, selected));
    if (forall i :: 0 <= i < |nodes| ==> Destroyable(disk, request, nodes[i]))
       && PersistentOk(disk, resolved, States(disk, names))
    then Some(nodes)
    else None
  }

  // ---------------------------------------------------------------- execution

  /** Rewriting the phase of each node in turn. */
  function MarkAll(s: Sys, faults: Faults, nodes: seq<NodeState>, phase: Phase, now: nat): (Sys, bool)
    decreases |nodes|
  {
    if nodes == [] then (s, true)
    else
      var (s1, ok) := WriteNode(s, faults, nodes[0].(phase := phase, updatedAt := now));
      if ok then MarkAll(s1, faults, nodes[1..], phase, now) else (s1, false)
  }

  function SourceFor(disks: seq<DataDisk>, name: string): Option<Path>
  {
    if disks == [] then None
    else if disks[0].name == name then Some(disks[0].path)
    else SourceFor(disks[1..], name)
  }

  function PreserveAll(s: Sys, faults: Faults, node: NodeState, identities: seq<Identity>): (Sys, bool)
    decreases |identities|
  {
    if identities == [] then (s, true)
    else if identities[0].node != node.node then PreserveAll(s, faults, node, identities[1..])
    else
      match SourceFor(node.dataDisks, identities[0].name)
      case None => (s, false)
      case Some(source) =>
        var (s1, ok) := Preserve(s, faults, identities[0], source);
        if ok then PreserveAll(s1, faults, node, identities[1..]) else (s1, false)
  }

  function RemoveTarget(s: Sys, faults: Faults, node: Name, path: Path): (Sys, bool)
  {
    if !InsideNode(node, path) then (s, false)
    else if !Exists(s.disk, path) then Tick(s, faults)
    else RemoveFile(s, faults, node, path.base)
  }

  function RemoveTargets(s: Sys, faults: Faults, node: Name, targets: seq<Path>): (Sys, bool)
    decreases |targets|
  {
    if targets == [] then (s, true)
    else
      var (s1, ok) := RemoveTarget(s, faults, node, targets[0]);
      if ok then RemoveTargets(s1, faults, node, targets[1..]) else (s1, false)
  }

  function DestroyOne(s: Sys, faults: Faults, node: NodeState, targets: seq<Path>, identities: seq<Identity>): (Sys, bool)
  {
    var (s1, preserved) := PreserveAll(s, faults, node, identities);
    if !preserved then (s1, false)
    else
      var (s2, removed) := RemoveTargets(s1, faults, node.node, targets);
      if !removed then (s2, false)
      else
        var (s3, cleaned) := Tick(s2, faults);
        if !cleaned then (s3, false) else RemoveNodeDir(s3, faults, node.node)
  }

  /** The targets were listed during validation, before anything changed. */
  function DestroyEach(s: Sys, faults: Faults, validated: Disk, nodes: seq<NodeState>, identities: seq<Identity>): (Sys, bool)
    requires forall i :: 0 <= i < |nodes| ==> NodeTargets(validated, nodes[i]).Some?
    decreases |nodes|
  {
    if nodes == [] then (s, true)
    else
      var (s1, ok) := DestroyOne(s, faults, nodes[0], NodeTargets(validated, nodes[0]).value, identities);
      if ok then DestroyEach(s1, faults, validated, nodes[1..], identities) else (s1, false)
  }

  function Remaining(nodes: seq<NodeDef>, selected: seq<Name>): seq<NodeDef>
  {
    if nodes == [] then []
    else (if nodes[0].name in selected then [] else [nodes[0]]) + Remaining(nodes[1..], selected)
  }

  /** After the nodes: forget their host keys, then drop or narrow the deployment state. */
  function Conclude(s: Sys, faults: Faults, resolved: Resolved, selected: seq<Name>, dropFromSpec: bool): (Sys, bool)
  {
    var (s1, forgotten) := Tick(s, faults);
    if !forgotten then (s1, false)
    else if !IsPartial(resolved, selected) then Apply(s1, faults, s1.disk.(deployment := None))
    else if dropFromSpec then WriteDeployment(s1, faults, resolved.(nodes := Remaining(resolved.nodes, selected)))
    else (s1, true)
  }

  function Execute(s: Sys, faults: Faults, resolved: Resolved, selected: seq<Name>, nodes: seq<NodeState>, request: Request): (Sys, bool)
    requires forall i :: 0 <= i < |nodes| ==> NodeTargets(s.disk, nodes[i]).Some?
  {
    var (s1, marked) := MarkAll(s, faults, nodes, Destroying, request.now);
    if !marked then (s1, false)
    else
      var (s2, destroyed) := DestroyEach(s1, faults, s.disk, nodes, Identities(resolved.nodes));
      if destroyed then Conclude(s2, faults, resolved, selected, request.dropFromSpec) else (s2, false)
  }

  /** What a stop records first: a node that may run is Stopping, and a prepared one is Stopped. */
  function StopMark(node: NodeState, now: nat): NodeState
  {
    match node.phase
    case Running => node.(phase := Stopping, updatedAt := now)
    case Starting => node.(phase := Stopping, updatedAt := now)
    case Stopping => node.(phase := Stopping, updatedAt := now)
    case Prepared => node.(phase := Stopped, updatedAt := now)
    case _ => node
  }

  function StopMarks(nodes: seq<NodeState>, now: nat): (marks: seq<NodeState>)
    ensures |marks| == |nodes| && forall i :: 0 <= i < |nodes| ==> marks[i] == StopMark(nodes[i], now)
  {
    seq(|nodes|, i requires 0 <= i < |nodes| => StopMark(nodes[i], now))
  }

  /** Writing the records in turn. */
  function WriteEach(s: Sys, faults: Faults, records: seq<NodeState>): (Sys, bool)
    decreases |records|
  {
    if records == [] then (s, true)
    else
      var (s1, ok) := WriteNode(s, faults, records[0]);
      if ok then WriteEach(s1, faults, records[1..]) else (s1, false)
  }

  /** The nodes that are Stopping are stopped side by side: one that fails does not hold up the others. */
  function FinishStops(s: Sys, faults: Faults, marks: seq<NodeState>, now: nat): (Sys, bool)
    decreases |marks|
  {
    if marks == [] then (s, true)
    else if marks[0].phase != Stopping then FinishStops(s, faults, marks[1..], now)
    else
      var (s1, ok) := WriteNode(s, faults, marks[0].(phase := Stopped, updatedAt := now));
      var (s2, rest) := FinishStops(s1, faults, marks[1..], now);
      (s2, ok && rest)
  }

  function StopMarked(s: Sys, faults: Faults, marks: seq<NodeState>, now: nat): (Sys, bool)
  {
    var (s1, marked) := WriteEach(s, faults, marks);
    if marked then FinishStops(s1, faults, marks, now) else (s1, false)
  }

  /** Stopping the selected nodes, when any of them runs or is merely prepared: a node in another phase refuses,
      and nodes that do not run are left as they are. */
  function StopFirst(s: Sys, faults: Faults, nodes: seq<NodeState>, now: nat): (Sys, bool)
  {
    if forall i :: 0 <= i < |nodes| ==> nodes[i].phase != Running && nodes[i].phase != Prepared then (s, true)
    else if exists i :: 0 <= i < |nodes| && nodes[i].phase !in {Running, Starting, Stopping, Stopped, Prepared} then (s, false)
    else if forall i :: 0 <= i < |nodes| ==> nodes[i].phase in {Stopped, Prepared} then (s, true)
    else
      StopMarked(s, faults, StopMarks(nodes, now), now)
  }

  function DestroySelected(s: Sys, faults: Faults, request: Request): (Sys, bool)
  {
    match s.disk.deployment
    case None => (s, false)
    case Some(resolved) =>
      match Selected(resolved, request.selection)
      case None => (s, false)
      case Some(selected) =>
        if IsPartial(resolved, selected) && !request.allowPartial then (s, false)
        else
          var (s1, stopped) := StopFirst(s, faults, States(s.disk, Kept(Names(resolved.nodes), selected)), request.now);
          if !stopped then (s1, false)
          else
            match PlanDestroy(s1.disk, resolved, selected, request)
            case None => (s1, false)
            case Some(nodes) => Execute(s1, faults, resolved, selected, nodes, request)
  }
}
