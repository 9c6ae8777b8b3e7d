/** What a destroy does, in terms of the names that were asked for. */
module DestroyOutcome {
  import opened Wrappers
  import opened Collections
  import opened DeploymentStore
  import opened Destroy
  import opened HashInvariant
  import opened Conservation
  import opened DestroyLaws
  import opened DestroyRestart
  import DeploymentRuns

  /** Without names, every node is asked for. */
  predicate Asked(request: Request, name: Name)
  {
    request.selection == [] || name in request.selection
  }

  predicate Defines(resolved: Resolved, name: Name)
  {
    exists i :: 0 <= i < |resolved.nodes| && resolved.nodes[i].name == name
  }

  /** Every name that was asked for is defined, and none is repeated. */
  predicate Sensible(resolved: Resolved, request: Request)
  {
    && (forall name :: name in request.selection ==> Defines(resolved, name))
    && Distinct(request.selection)
  }

  predicate AsksForAll(resolved: Resolved, request: Request)
  {
    forall i :: 0 <= i < |resolved.nodes| ==> Asked(request, resolved.nodes[i].name)
  }

  lemma NamesAreDefined(resolved: Resolved, name: Name)
    ensures name in Names(resolved.nodes) <==> Defines(resolved, name)
  {
    if Defines(resolved, name) {
      var i :| 0 <= i < |resolved.nodes| && resolved.nodes[i].name == name;
      assert Names(resolved.nodes)[i] == name;
    }
  }

  /** Distinct names cover all the nodes exactly when there are as many. */
  lemma CountingNames(resolved: Resolved, names: seq<Name>)
    requires UniqueNames(resolved.nodes) && Distinct(names) && forall name :: name in names ==> Defines(resolved, name)
    ensures |names| == |resolved.nodes| <==> forall i :: 0 <= i < |resolved.nodes| ==> resolved.nodes[i].name in names
  {
    var all := Names(resolved.nodes);
    var every, chosen := set n | n in all, set n | n in names;
    UniqueSet(all);
    UniqueSet(names);
    forall name
      ensures name in all <==> Defines(resolved, name)
    {
      NamesAreDefined(resolved, name);
    }
    assert chosen <= every;
    if |names| == |resolved.nodes| {
      if chosen != every {
        Smaller(chosen, every);
      }
      forall i | 0 <= i < |resolved.nodes|
        ensures resolved.nodes[i].name in names
      {
        assert all[i] in every;
      }
    }
    if forall i :: 0 <= i < |resolved.nodes| ==> resolved.nodes[i].name in names {
      forall name | name in every
        ensures name in chosen
      {
        assert Defines(resolved, name);
      }
      assert every == chosen;
    }
  }

  /** The selection is what was asked for, or nothing when the request makes no sense. */
  lemma SelectionIsAsked(resolved: Resolved, request: Request)
    requires UniqueNames(resolved.nodes)
    ensures Selected(resolved, request.selection).Some? <==> Sensible(resolved, request)
    ensures Sensible(resolved, request) ==>
              var selected := Selected(resolved, request.selection).value;
              && (forall name :: name in selected <==> Defines(resolved, name) && Asked(request, name))
              && (IsPartial(resolved, selected) <==> !AsksForAll(resolved, request))
  {
    forall name
      ensures name in Names(resolved.nodes) <==> Defines(resolved, name)
    {
      NamesAreDefined(resolved, name);
    }
    if Sensible(resolved, request) && request.selection != [] {
      CountingNames(resolved, request.selection);
    }
  }

  // ---------------------------------------------------------------- refusals and peers

  /** Without a deployment, for a name that is not defined or repeated, or for some of the nodes without permission, a
      destroy is refused and has no effect. */
  lemma SenselessRequestsAreRefused(s: Sys, faults: Faults, request: Request)
    requires Consistent(s.disk)
    requires s.disk.deployment.Some? && Sensible(s.disk.deployment.value, request) ==>
               !AsksForAll(s.disk.deployment.value, request) && !request.allowPartial
    ensures DestroySelected(s, faults, request) == (s, false)
  {
    if s.disk.deployment.Some? {
      SelectionIsAsked(s.disk.deployment.value, request);
    }
  }

  /** Whatever happens and wherever it stops, a destroy leaves the directory of a node that was not asked for exactly as
      it was. */
  lemma UnaskedNodesAreUntouched(s: Sys, faults: Faults, request: Request, peer: Name)
    requires Consistent(s.disk) && RecordsOk(s.disk) && !Asked(request, peer)
    ensures SameDir(s.disk, DestroySelected(s, faults, request).0.disk, peer)
  {
    if s.disk.deployment.Some? {
      SelectionIsAsked(s.disk.deployment.value, request);
      PeersAreUntouched(s, faults, request, peer);
    }
  }

  // ---------------------------------------------------------------- success

  /** The definitions that were not asked for, in their order. */
  ghost predicate IsRest(nodes: seq<NodeDef>, request: Request, rest: seq<NodeDef>)
  {
    && (forall node :: node in rest <==> node in nodes && !Asked(request, node.name))
    && Ordered(nodes, rest)
  }

  ghost predicate InOrder(nodes: seq<NodeDef>, first: NodeDef, second: NodeDef)
  {
    exists a, b :: 0 <= a < b < |nodes| && nodes[a] == first && nodes[b] == second
  }

  ghost predicate Ordered(nodes: seq<NodeDef>, some: seq<NodeDef>)
  {
    forall i, j :: 0 <= i < j < |some| ==> InOrder(nodes, some[i], some[j])
  }

  lemma InOrderBehind(head: NodeDef, tail: seq<NodeDef>, first: NodeDef, second: NodeDef)
    requires InOrder(tail, first, second)
    ensures InOrder([head] + tail, first, second)
  {
    var a, b :| 0 <= a < b < |tail| && tail[a] == first && tail[b] == second;
    assert ([head] + tail)[a + 1] == first && ([head] + tail)[b + 1] == second;
  }

  lemma OrderedBehind(head: NodeDef, tail: seq<NodeDef>, some: seq<NodeDef>)
    requires Ordered(tail, some)
    ensures Ordered([head] + tail, some)
  {
    forall i, j | 0 <= i < j < |some|
      ensures InOrder([head] + tail, some[i], some[j])
    {
      InOrderBehind(head, tail, some[i], some[j]);
    }
  }

  lemma OrderedFrom(head: NodeDef, tail: seq<NodeDef>, some: seq<NodeDef>)
    requires Ordered(tail, some) && forall node :: node in some ==> node in tail
    ensures Ordered([head] + tail, [head] + some)
  {
    var nodes, all := [head] + tail, [head] + some;
    OrderedBehind(head, tail, some);
    forall i, j | 0 <= i < j < |all|
      ensures InOrder(nodes, all[i], all[j])
    {
      if i > 0 {
        assert InOrder(nodes, some[i - 1], some[j - 1]);
      } else {
        assert some[j - 1] in tail;
        var b :| 0 <= b < |tail| && tail[b] == some[j - 1];
        assert nodes[0] == all[0] && nodes[b + 1] == all[j];
      }
    }
  }

  lemma {:induction false} RemainingIsOrdered(nodes: seq<NodeDef>, selected: seq<Name>)
    ensures Ordered(nodes, Remaining(nodes, selected))
  {
    if nodes != [] {
      var head, tail := nodes[0], nodes[1..];
      assert nodes == [head] + tail;
      RemainingIsOrdered(tail, selected);
      RemainingFrom(tail, selected);
      if head.name in selected {
        OrderedBehind(head, tail, Remaining(tail, selected));
        assert Remaining(nodes, selected) == Remaining(tail, selected);
      } else {
        OrderedFrom(head, tail, Remaining(tail, selected));
        assert Remaining(nodes, selected) == [head] + Remaining(tail, selected);
      }
    }
  }

  lemma {:induction false} RemainingMembers(nodes: seq<NodeDef>, selected: seq<Name>)
    ensures forall node :: node in Remaining(nodes, selected) <==> node in nodes && node.name !in selected
  {
    if nodes != [] {
      RemainingMembers(nodes[1..], selected);
      assert nodes == [nodes[0]] + nodes[1..];
    }
  }

  lemma RemainingIsRest(nodes: seq<NodeDef>, selected: seq<Name>, request: Request)
    requires forall i :: 0 <= i < |nodes| ==> (nodes[i].name in selected <==> Asked(request, nodes[i].name))
    ensures IsRest(nodes, request, Remaining(nodes, selected))
  {
    RemainingMembers(nodes, selected);
    RemainingIsOrdered(nodes, selected);
  }

  /** The deployment state that a destroy leaves once the nodes are gone. */
  ghost predicate LeavesDeployment(resolved: Resolved, request: Request, after: Option<Resolved>)
  {
    if AsksForAll(resolved, request) then after == None
    else if !request.dropFromSpec then after == Some(resolved)
    else after.Some? && after.value.envelope == resolved.envelope && IsRest(resolved.nodes, request, after.value.nodes)
  }

  lemma ExecuteEmpties(s: Sys, faults: Faults, resolved: Resolved, selected: seq<Name>, request: Request, name: Name)
    requires Consistent(s.disk) && s.disk.deployment == Some(resolved) && name in selected && ReadNode(s.disk, name).Some?
    requires PlanDestroy(s.disk, resolved, selected, request).Some?
    ensures var nodes := PlanDestroy(s.disk, resolved, selected, request).value;
            var (s1, ok) := Execute(s, faults, resolved, selected, nodes, request);
            ok ==> name !in s1.disk.nodes
  {
    var names := Names(resolved.nodes);
    var nodes := PlanDestroy(s.disk, resolved, selected, request).value;
    var d := FoundIsListed(resolved.nodes, name);
    assert names[d] == name;
    KeptCovers(names, selected, name);
    StatesCover(s.disk, Kept(names, selected), name);
    var i :| 0 <= i < |nodes| && nodes[i] == ReadNode(s.disk, name).value;
    StatesAreRecorded(s.disk, Kept(names, selected));
    StagesSettle(s, faults, resolved, nodes, request);
    var (s1, marked) := Marked(s, faults, nodes, request);
    if marked {
      var (s2, destroyed) := DestroyEach(s1, faults, s.disk, nodes, Identities(resolved.nodes));
      if destroyed {
        ConcludeKeepsDirs(s2, faults, resolved, selected, request.dropFromSpec);
      }
    }
  }

  /** Stopping first leaves the same nodes with a state. */
  lemma StopKeepsStates(s: Sys, faults: Faults, resolved: Resolved, selected: seq<Name>, now: nat)
    requires Consistent(s.disk) && s.disk.deployment == Some(resolved)
    ensures var s1 := StopFirst(s, faults, States(s.disk, Kept(Names(resolved.nodes), selected)), now).0;
            && Consistent(s1.disk) && s1.disk.deployment == s.disk.deployment
            && forall name :: ReadNode(s1.disk, name).Some? == ReadNode(s.disk, name).Some?
  {
    var kept := Kept(Names(resolved.nodes), selected);
    StatesAreRecorded(s.disk, kept);
    StopFirstRelabels(s, faults, States(s.disk, kept), now);
    ShrinksKeepsConsistent(s.disk, StopFirst(s, faults, States(s.disk, kept), now).0.disk);
  }

  lemma SuccessIsExecuted(s: Sys, faults: Faults, request: Request, resolved: Resolved, selected: seq<Name>)
    requires s.disk.deployment == Some(resolved) && Selected(resolved, request.selection) == Some(selected)
    requires DestroySelected(s, faults, request).1
    ensures var s1 := StopFirst(s, faults, States(s.disk, Kept(Names(resolved.nodes), selected)), request.now).0;
            var planned := PlanDestroy(s1.disk, resolved, selected, request);
            planned.Some? && DestroySelected(s, faults, request) == Execute(s1, faults, resolved, selected, planned.value, request)
  {
  }

  lemma SuccessEmpties(s: Sys, faults: Faults, request: Request, name: Name)
    requires Consistent(s.disk) && s.disk.deployment.Some? && Asked(request, name) && ReadNode(s.disk, name).Some?
    requires DestroySelected(s, faults, request).1
    ensures name !in DestroySelected(s, faults, request).0.disk.nodes
  {
    var resolved := s.disk.deployment.value;
    SelectionIsAsked(resolved, request);
    var d := FoundIsListed(resolved.nodes, name);
    var selected := Selected(resolved, request.selection).value;
    StopKeepsStates(s, faults, resolved, selected, request.now);
    SuccessIsExecuted(s, faults, request, resolved, selected);
    var s1 := StopFirst(s, faults, States(s.disk, Kept(Names(resolved.nodes), selected)), request.now).0;
    ExecuteEmpties(s1, faults, resolved, selected, request, name);
  }

  /** A destroy that succeeds was sensible and permitted; exactly the nodes that were asked for are gone, directory and
      all; and the deployment state is dropped when all were asked for, narrowed to exactly the others on removal, and
      as it was otherwise. */
  lemma SuccessIsAsAsked(s: Sys, faults: Faults, request: Request)
    requires Consistent(s.disk) && RecordsOk(s.disk) && DestroySelected(s, faults, request).1
    ensures var after := DestroySelected(s, faults, request).0.disk;
            && s.disk.deployment.Some? && Sensible(s.disk.deployment.value, request)
            && (AsksForAll(s.disk.deployment.value, request) || request.allowPartial)
            && (forall name :: ReadNode(after, name).Some? <==> ReadNode(s.disk, name).Some? && !Asked(request, name))
            && (forall name :: Asked(request, name) && ReadNode(s.disk, name).Some? ==> name !in after.nodes)
            && LeavesDeployment(s.disk.deployment.value, request, after.deployment)
  {
    var resolved := s.disk.deployment.value;
    var after := DestroySelected(s, faults, request).0.disk;
    SelectionIsAsked(resolved, request);
    DestroySucceeds(s, faults, request);
    var selected := Selected(resolved, request.selection).value;
    forall name
      ensures ReadNode(after, name).Some? <==> ReadNode(s.disk, name).Some? && !Asked(request, name)
    {
      if !Asked(request, name) {
        UnaskedNodesAreUntouched(s, faults, request, name);
      } else {
        NoStateAppears(s, faults, request, name);
      }
    }
    forall name | Asked(request, name) && ReadNode(s.disk, name).Some?
      ensures name !in after.nodes
    {
      SuccessEmpties(s, faults, request, name);
    }
    forall i | 0 <= i < |resolved.nodes|
      ensures resolved.nodes[i].name in selected <==> Asked(request, resolved.nodes[i].name)
    {
      assert Defines(resolved, resolved.nodes[i].name);
    }
    RemainingIsRest(resolved.nodes, selected, request);
  }

  /** A successful destroy leaves no state of a node that was asked for. */
  lemma NoStateAppears(s: Sys, faults: Faults, request: Request, name: Name)
    requires Consistent(s.disk) && DestroySelected(s, faults, request).1 && Asked(request, name)
    ensures ReadNode(DestroySelected(s, faults, request).0.disk, name).None?
  {
    var resolved := s.disk.deployment.value;
    SelectionIsAsked(resolved, request);
    DestroySucceeds(s, faults, request);
    DeploymentRuns.DestroyNoNewStates(s, faults, request);
    if ReadNode(s.disk, name).Some? {
      var i := FoundIsListed(resolved.nodes, name);
      assert name in Selected(resolved, request.selection).value;
    }
  }

  // ---------------------------------------------------------------- the deployment state

  lemma ConcludeLeaves(s: Sys, faults: Faults, resolved: Resolved, selected: seq<Name>, dropFromSpec: bool)
    requires s.disk.deployment == Some(resolved) && Gone(s.disk, selected)
    ensures var after := Conclude(s, faults, resolved, selected, dropFromSpec).0.disk;
            Gone(after, selected) && (after.deployment == Some(resolved) || after.deployment == Left(resolved, selected, dropFromSpec))
  {
    var after := Conclude(s, faults, resolved, selected, dropFromSpec).0.disk;
    ConcludeKeepsDirs(s, faults, resolved, selected, dropFromSpec);
    assert forall name :: ReadNode(after, name) == ReadNode(s.disk, name);
  }

  lemma StagesKeepDeployment(s: Sys, faults: Faults, resolved: Resolved, nodes: seq<NodeState>, request: Request)
    requires Consistent(s.disk) && Recorded(s.disk, nodes) && forall i :: 0 <= i < |nodes| ==> NodeTargets(s.disk, nodes[i]).Some?
    ensures var s1 := Marked(s, faults, nodes, request).0;
            && s1.disk.deployment == s.disk.deployment
            && DestroyEach(s1, faults, s.disk, nodes, Identities(resolved.nodes)).0.disk.deployment == s.disk.deployment
  {
    MarkAllRelabels(s, faults, nodes, Destroying, request.now);
    DestroyEachSettles(Marked(s, faults, nodes, request).0, faults, s.disk, nodes, Identities(resolved.nodes));
  }

  /** The deployment state changes last, and only to what a success leaves. */
  lemma ExecuteConcludes(s: Sys, faults: Faults, resolved: Resolved, selected: seq<Name>, request: Request)
    requires Consistent(s.disk) && s.disk.deployment == Some(resolved)
    requires PlanDestroy(s.disk, resolved, selected, request).Some?
    ensures var after := Execute(s, faults, resolved, selected, PlanDestroy(s.disk, resolved, selected, request).value, request).0.disk;
            after.deployment == s.disk.deployment
            || (after.deployment == Left(resolved, selected, request.dropFromSpec) && Gone(after, selected))
  {
    var nodes := PlanDestroy(s.disk, resolved, selected, request).value;
    StatesAreRecorded(s.disk, Kept(Names(resolved.nodes), selected));
    StagesKeepDeployment(s, faults, resolved, nodes, request);
    StagesSettle(s, faults, resolved, nodes, request);
    var (s1, marked) := Marked(s, faults, nodes, request);
    if marked {
      var (s2, destroyed) := DestroyEach(s1, faults, s.disk, nodes, Identities(resolved.nodes));
      if destroyed {
        SelectedAreGone(s.disk, resolved, selected, s2.disk);
        ConcludeLeaves(s2, faults, resolved, selected, request.dropFromSpec);
      }
    }
  }

  /** At every crash point the deployment state is as it was, or no node that was asked for has a state any more and it
      is what a success leaves. */
  lemma DeploymentChangesLast(s: Sys, faults: Faults, request: Request)
    requires Consistent(s.disk) && s.disk.deployment.Some?
    ensures var after := DestroySelected(s, faults, request).0.disk;
            after.deployment == s.disk.deployment
            || (&& LeavesDeployment(s.disk.deployment.value, request, after.deployment)
                && forall i :: 0 <= i < |s.disk.deployment.value.nodes| && Asked(request, s.disk.deployment.value.nodes[i].name) ==>
                     ReadNode(after, s.disk.deployment.value.nodes[i].name).None?)
  {
    var resolved := s.disk.deployment.value;
    SelectionIsAsked(resolved, request);
    if Sensible(resolved, request) {
      var selected := Selected(resolved, request.selection).value;
      StopKeepsStates(s, faults, resolved, selected, request.now);
      var (s1, stopped) := StopFirst(s, faults, States(s.disk, Kept(Names(resolved.nodes), selected)), request.now);
      if stopped && PlanDestroy(s1.disk, resolved, selected, request).Some? {
        ExecuteConcludes(s1, faults, resolved, selected, request);
      }
      forall i | 0 <= i < |resolved.nodes|
        ensures resolved.nodes[i].name in selected <==> Asked(request, resolved.nodes[i].name)
      {
        assert Defines(resolved, resolved.nodes[i].name);
      }
      RemainingIsRest(resolved.nodes, selected, request);
    }
  }

  // ---------------------------------------------------------------- phases

  /** Every recorded node is recorded as before, or in one of the phases. */
  ghost predicate Rephased(before: Disk, after: Disk, phases: set<Phase>)
  {
    forall name :: ReadNode(after, name) == ReadNode(before, name) || (ReadNode(after, name).Some? && ReadNode(after, name).value.phase in phases)
  }

  lemma {:induction false} MarkAllRephases(s: Sys, faults: Faults, nodes: seq<NodeState>, phase: Phase, now: nat)
    ensures var (s1, ok) := MarkAll(s, faults, nodes, phase, now);
            && Rephased(s.disk, s1.disk, {phase})
            && (ok ==> forall i :: 0 <= i < |nodes| ==>
                  ReadNode(s1.disk, nodes[i].node).Some? && ReadNode(s1.disk, nodes[i].node).value.phase == phase)
    decreases |nodes|
  {
    if nodes != [] {
      var (s1, ok) := WriteNode(s, faults, nodes[0].(phase := phase, updatedAt := now));
      assert Rephased(s.disk, s1.disk, {phase});
      if ok {
        MarkAllRephases(s1, faults, nodes[1..], phase, now);
        var (s2, done) := MarkAll(s1, faults, nodes[1..], phase, now);
        if done {
          forall i | 0 <= i < |nodes|
            ensures ReadNode(s2.disk, nodes[i].node).Some? && ReadNode(s2.disk, nodes[i].node).value.phase == phase
          {
            assert i > 0 ==> nodes[1..][i - 1] == nodes[i];
          }
        }
      }
    }
  }

  const STOPS: set<Phase> := {Stopping, Stopped}

  lemma {:induction false} WriteEachRephases(s: Sys, faults: Faults, records: seq<NodeState>)
    requires forall i :: 0 <= i < |records| ==> records[i].phase in STOPS
    ensures Rephased(s.disk, WriteEach(s, faults, records).0.disk, STOPS)
    decreases |records|
  {
    if records != [] {
      var (s1, ok) := WriteNode(s, faults, records[0]);
      assert Rephased(s.disk, s1.disk, STOPS);
      if ok {
        WriteEachRephases(s1, faults, records[1..]);
      }
    }
  }

  lemma {:induction false} FinishStopsRephases(s: Sys, faults: Faults, marks: seq<NodeState>, now: nat)
    ensures Rephased(s.disk, FinishStops(s, faults, marks, now).0.disk, STOPS)
    decreases |marks|
  {
    if marks != [] {
      var s1 := if marks[0].phase == Stopping then WriteNode(s, faults, marks[0].(phase := Stopped, updatedAt := now)).0 else s;
      assert Rephased(s.disk, s1.disk, STOPS);
      FinishStopsRephases(s1, faults, marks[1..], now);
    }
  }

  lemma StopFirstRephases(s: Sys, faults: Faults, nodes: seq<NodeState>, now: nat)
    ensures Rephased(s.disk, StopFirst(s, faults, nodes, now).0.disk, STOPS)
  {
    if forall i :: 0 <= i < |nodes| ==> nodes[i].phase in {Running, Starting, Stopping, Stopped, Prepared} {
      var marks := StopMarks(nodes, now);
      WriteEachRephases(s, faults, marks);
      FinishStopsRephases(WriteEach(s, faults, marks).0, faults, marks, now);
    }
  }

  /** A recorded node is being destroyed, or still has every file. */
  ghost predicate MarkedOrWhole(before: Disk, after: Disk, name: Name)
  {
    ReadNode(after, name).Some? ==>
      || ReadNode(after, name).value.phase == Destroying
      || (name in before.nodes && after.nodes[name].files == before.nodes[name].files)
  }

  /** A recorded node is recorded as before, or in one of the phases. */
  predicate RephasedNode(before: Disk, after: Disk, phases: set<Phase>, name: Name)
  {
    ReadNode(after, name).Some? ==> ReadNode(after, name) == ReadNode(before, name) || ReadNode(after, name).value.phase in phases
  }

  /** Preserving and removing touch marked nodes only. */
  lemma RemovalsFollowMarks(s: Sys, faults: Faults, validated: Disk, nodes: seq<NodeState>, identities: seq<Identity>, name: Name)
    requires forall i :: 0 <= i < |nodes| ==> NodeTargets(validated, nodes[i]).Some? && RecordOk(nodes[i])
    requires forall i :: 0 <= i < |nodes| ==> ReadNode(s.disk, nodes[i].node).Some? && ReadNode(s.disk, nodes[i].node).value.phase == Destroying
    ensures var after := DestroyEach(s, faults, validated, nodes, identities).0.disk;
            MarkedOrWhole(s.disk, after, name) && (ReadNode(after, name).Some? ==> ReadNode(after, name) == ReadNode(s.disk, name))
  {
    DestroyEachSettles(s, faults, validated, nodes, identities);
    if Excludes(nodes, name) {
      DestroyEachSparesPeer(s, faults, validated, nodes, identities, name);
    } else {
      var node :| node in nodes && node.node == name;
      assert ReadNode(s.disk, name).value.phase == Destroying;
    }
  }

  lemma ExecuteMarksFirst(s: Sys, faults: Faults, resolved: Resolved, selected: seq<Name>, nodes: seq<NodeState>, request: Request, name: Name)
    requires Recorded(s.disk, nodes)
    requires forall i :: 0 <= i < |nodes| ==> NodeTargets(s.disk, nodes[i]).Some? && RecordOk(nodes[i])
    ensures var after := Execute(s, faults, resolved, selected, nodes, request).0.disk;
            MarkedOrWhole(s.disk, after, name) && RephasedNode(s.disk, after, {Destroying}, name)
  {
    var (s1, marked) := Marked(s, faults, nodes, request);
    assert Relabels(s.disk, s1.disk) by {
      MarkAllRelabels(s, faults, nodes, Destroying, request.now);
    }
    MarkAllRephases(s, faults, nodes, Destroying, request.now);
    assert ReadNode(s1.disk, name).Some? ==> name in s.disk.nodes && s1.disk.nodes[name].files == s.disk.nodes[name].files;
    if marked {
      RemovalsFollowMarks(s1, faults, s.disk, nodes, Identities(resolved.nodes), name);
      var (s2, destroyed) := DestroyEach(s1, faults, s.disk, nodes, Identities(resolved.nodes));
      if destroyed {
        ConcludeKeepsDirs(s2, faults, resolved, selected, request.dropFromSpec);
      }
    }
  }

  lemma PlannedMarksFirst(s: Sys, faults: Faults, resolved: Resolved, selected: seq<Name>, request: Request, name: Name)
    requires Consistent(s.disk) && RecordsOk(s.disk) && s.disk.deployment == Some(resolved)
    requires PlanDestroy(s.disk, resolved, selected, request).Some?
    ensures var nodes := PlanDestroy(s.disk, resolved, selected, request).value;
            var after := Execute(s, faults, resolved, selected, nodes, request).0.disk;
            MarkedOrWhole(s.disk, after, name) && RephasedNode(s.disk, after, {Destroying}, name)
  {
    PlanFacts(s.disk, resolved, selected, request);
    ExecuteMarksFirst(s, faults, resolved, selected, PlanDestroy(s.disk, resolved, selected, request).value, request, name);
  }

  lemma StopIsWhole(s: Sys, faults: Faults, resolved: Resolved, selected: seq<Name>, now: nat)
    requires Consistent(s.disk) && RecordsOk(s.disk) && s.disk.deployment == Some(resolved)
    ensures var s1 := StopFirst(s, faults, States(s.disk, Kept(Names(resolved.nodes), selected)), now).0;
            && Consistent(s1.disk) && RecordsOk(s1.disk) && Relabels(s.disk, s1.disk) && Rephased(s.disk, s1.disk, STOPS)
  {
    var kept := Kept(Names(resolved.nodes), selected);
    StatesAreRecorded(s.disk, kept);
    StopFirstRelabels(s, faults, States(s.disk, kept), now);
    StopFirstRephases(s, faults, States(s.disk, kept), now);
    var s1 := StopFirst(s, faults, States(s.disk, kept), now).0;
    ShrinksKeepsConsistent(s.disk, s1.disk);
    RelabelsKeepsRecordsOk(s.disk, s1.disk);
  }

  /** At every crash point of a destroy: a node is recorded as before, or as stopping, stopped or being destroyed, and it
      has lost no file before it is recorded as being destroyed. */
  lemma FilesGoFromMarkedNodes(s: Sys, faults: Faults, request: Request, name: Name)
    requires Consistent(s.disk) && RecordsOk(s.disk)
    ensures var after := DestroySelected(s, faults, request).0.disk;
            MarkedOrWhole(s.disk, after, name) && RephasedNode(s.disk, after, {Stopping, Stopped, Destroying}, name)
  {
    if s.disk.deployment.Some? && Selected(s.disk.deployment.value, request.selection).Some? {
      var resolved := s.disk.deployment.value;
      var selected := Selected(resolved, request.selection).value;
      StopIsWhole(s, faults, resolved, selected, request.now);
      var (s1, stopped) := StopFirst(s, faults, States(s.disk, Kept(Names(resolved.nodes), selected)), request.now);
      if stopped && PlanDestroy(s1.disk, resolved, selected, request).Some? {
        PlannedMarksFirst(s1, faults, resolved, selected, request, name);
      }
    }
  }

  // ---------------------------------------------------------------- when a destroy succeeds

  /** The phases of the nodes that were asked for: all stopped, or one of them runs or is prepared and none is in a phase
      that a stop refuses. */
  ghost predicate AskedStoppable(disk: Disk, request: Request)
  {
    || (forall name :: Asked(request, name) && ReadNode(disk, name).Some? ==> ReadNode(disk, name).value.phase == Stopped)
    || (&& (exists name :: Asked(request, name) && ReadNode(disk, name).Some? && ReadNode(disk, name).value.phase in {Running, Prepared})
        && forall name :: Asked(request, name) && ReadNode(disk, name).Some? ==>
             ReadNode(disk, name).value.phase in {Running, Starting, Stopping, Stopped, Prepared})
  }

  /** A file that a destroy expects in the directory of a node. */
  predicate Expected(node: NodeState, base: Base)
  {
    || base in {StateFile, RootImage, SeedImage, SerialLog, QemuLog, EventLog}
    || (base == NvramImage && node.nvram.Some?)
    || exists k :: 0 <= k < |node.dataDisks| && node.dataDisks[k].path == InNode(node.node, base)
  }

  /** The nodes that were asked for are idle, and their directories hold only expected files. */
  ghost predicate AskedAreClean(disk: Disk, request: Request)
  {
    forall name, base :: Asked(request, name) && ReadNode(disk, name).Some? ==>
      name !in request.live && (base in Entries(disk.nodes[name]) ==> Expected(ReadNode(disk, name).value, base))
  }

  lemma ExpectedIsKnown(node: NodeState, base: Base)
    requires RecordOk(node)
    ensures InNode(node.node, base) in ExpectedFiles(node) <==> Expected(node, base)
  {
  }

  lemma CleanIsKnown(disk: Disk, request: Request, selected: seq<Name>)
    requires Consistent(disk) && RecordsOk(disk)
    requires forall name :: ReadNode(disk, name).Some? ==> (name in selected <==> Asked(request, name))
    ensures SelectedAreClean(disk, selected, request) <==> AskedAreClean(disk, request)
  {
    forall name, base | ReadNode(disk, name).Some?
      ensures InNode(name, base) in ExpectedFiles(ReadNode(disk, name).value) <==> Expected(ReadNode(disk, name).value, base)
    {
      ExpectedIsKnown(ReadNode(disk, name).value, base);
    }
    forall name | ReadNode(disk, name).Some?
      ensures IdleAndClean(disk, request, ReadNode(disk, name).value) <==>
                name !in request.live
                && forall base :: base in Entries(disk.nodes[name]) ==> Expected(ReadNode(disk, name).value, base)
    {
    }
  }

  /** A destroy that nothing disturbs succeeds if and only if the request is sensible and permitted, the store agrees with
      the configuration, every recorded persistent disk is at its recorded path, and the nodes that were asked for can
      be stopped, are idle and hold only expected files. */
  lemma AskedDestroySucceeds(s: Sys, request: Request)
    requires Consistent(s.disk) && RecordsOk(s.disk) && Single(s.disk)
    ensures DestroySelected(s, NO_FAULTS, request).1 <==>
              && s.disk.deployment.Some?
              && Sensible(s.disk.deployment.value, request)
              && (AsksForAll(s.disk.deployment.value, request) || request.allowPartial)
              && StoreAgrees(s.disk, s.disk.deployment.value) && AllInPlace(s.disk)
              && AskedStoppable(s.disk, request) && AskedAreClean(s.disk, request)
  {
    DestroyIsExact(s, request);
    if s.disk.deployment.Some? {
      var resolved := s.disk.deployment.value;
      SelectionIsAsked(resolved, request);
      if Sensible(resolved, request) {
        var selected := Selected(resolved, request.selection).value;
        forall name | ReadNode(s.disk, name).Some?
          ensures name in selected <==> Asked(request, name)
        {
          var i := FoundIsListed(resolved.nodes, name);
        }
        CleanIsKnown(s.disk, request, selected);
      }
    }
  }
}
