/** Status convergence: only a proven death makes a recorded phase Stopped, and an interrupted start is adopted. */
module Convergence {
  import opened Wrappers
  import opened RuntimeAudit

  datatype Verdict = Keep | Converge(record: Record) | Fail

  /** Removing the socket and the pidfile of a dead runtime. */
  function Cleaned(host: Host): Host
  {
    host.(qmp := NoSocket, pidfile := NoFile)
  }

  function AsStopped(record: Record, now: nat): Record
  {
    record.(phase := Stopped, process := NO_PROCESS, updatedAt := now)
  }

  predicate Transitional(phase: Phase)
  {
    phase == Starting || phase == Stopping || phase == Destroying
  }

  predicate Mismatched(host: Host, record: Record)
  {
    host.qmp.Answers? && host.qmp.uuid.Some? && !Identified(host, record)
  }

  /** What status decides for one node; cleanable tells whether the runtime residue can be removed. */
  function Decide(host: Host, record: Record, cleanable: bool, now: nat): Verdict
  {
    if record.phase == Running then
      var processMatches := MatchesLive(host, record);
      if Identified(host, record) && processMatches then Keep
      else if Identified(host, record) || Mismatched(host, record) || processMatches then Fail
      else if !record.runtimePaths || !CompleteProcess(record.process) || Alive(host, record.process.pid) then Fail
      else if Audit(host, record).None? || Audit(host, record).value.live || !cleanable then Fail
      else Converge(AsStopped(record, now))
    else if Transitional(record.phase) then
      var observation := Audit(host, record);
      if observation.None? then Fail
      else if observation.value.live && record.phase == Starting && !CompleteProcess(record.process) then
        if observation.value.authority != ByQmp || CaptureProcess(host, record).None? then Fail
        else Converge(record.(process := CaptureProcess(host, record).value, phase := Running, updatedAt := now))
      else if observation.value.live then Keep
      else if record.runtimePaths && !cleanable then Fail
      else Converge(AsStopped(record, now))
    else Keep
  }

  /** The host after a status: converging to Stopped removes the residue. */
  function HostAfter(host: Host, verdict: Verdict): Host
  {
    if verdict.Converge? && verdict.record.phase == Stopped then Cleaned(host) else host
  }

  // ---------------------------------------------------------------- laws of one status

  /** Stopped is recorded only when no visible QEMU is live. */
  lemma StoppedMeansDead(host: Host, record: Record, qemu: Option<Pid>, cleanable: bool, now: nat)
    requires Visible(host, record, qemu)
    ensures var verdict := Decide(host, record, cleanable, now);
            verdict.Converge? && verdict.record.phase == Stopped ==> qemu == None
  {
    if Audit(host, record).Some? {
      VerdictIsSound(host, record, qemu);
    }
  }

  /** After a clean status a transition phase is still there only if the audit found the node live; otherwise the node
      is stopped, or running as an adopted start. */
  lemma TransitionsConverge(host: Host, record: Record, cleanable: bool, now: nat)
    requires Transitional(record.phase) && Decide(host, record, cleanable, now) != Fail
    ensures Audit(host, record).Some?
    ensures Decide(host, record, cleanable, now) == Keep ==>
              Audit(host, record).value.live && !(record.phase == Starting && !CompleteProcess(record.process))
    ensures Decide(host, record, cleanable, now).Converge? ==>
              var next := Decide(host, record, cleanable, now).record;
              if Audit(host, record).value.live then
                next.phase == Running && CaptureProcess(host, record) == Some(next.process)
              else next.phase == Stopped && next.process == NO_PROCESS
  {
  }

  /** A second status with nothing happening in between has nothing to write. */
  lemma SecondStatusIsQuiet(host: Host, record: Record, cleanable: bool, again: bool, now: nat, later: nat)
    requires Decide(host, record, cleanable, now) != Fail
    ensures var verdict := Decide(host, record, cleanable, now);
            var next := if verdict.Converge? then verdict.record else record;
            Decide(HostAfter(host, verdict), next, if verdict.Converge? then again else cleanable, later) == Keep
  {
  }

  // ---------------------------------------------------------------- whole runs

  /** The record, the facts on the host, and the truth: the node's own live QEMU. */
  datatype World = World(record: Record, host: Host, qemu: Option<Pid>)

  datatype Event =
    | BeginStart(now: nat)
    | Spawn(pid: Pid, host: Host)
    | RecordRunning(now: nat)
    | BeginStop(now: nat)
    | BeginDestroy(now: nat)
    | FinishStop(cleanable: bool, now: nat)
    | Happens(qemu: Option<Pid>, host: Host)
    | Status(cleanable: bool, now: nat, written: bool)

  /** Starting is the only phase in which a QEMU appears; anything else on the host, the guest's own halt and the
      loss of a QEMU included, may happen at any time, as long as a live QEMU stays visible. */
  predicate Legal(world: World, event: Event)
  {
    match event
    case Spawn(pid, host) => world.record.phase == Starting && world.qemu == None && Visible(host, world.record, Some(pid))
    case Happens(qemu, host) => (qemu == None || qemu == world.qemu) && Visible(host, world.record, qemu)
    case RecordRunning(_) => Visible(world.host, Recorded(world, 0).record, world.qemu)
    case _ => true
  }

  /** The start's last write: the captured identity and the running phase. */
  function Recorded(world: World, now: nat): World
  {
    if world.record.phase != Starting || CaptureProcess(world.host, world.record).None? then world
    else world.(record := world.record.(phase := Running, process := CaptureProcess(world.host, world.record).value, updatedAt := now))
  }

  function Marked(world: World, phase: Phase, now: nat): World
  {
    world.(record := world.record.(phase := phase, updatedAt := now))
  }

  function Step(world: World, event: Event): World
  {
    var record := world.record;
    match event
    case BeginStart(now) => if record.phase == Stopped || record.phase == Prepared then Marked(world, Starting, now) else world
    case Spawn(pid, host) => world.(host := host, qemu := Some(pid))
    case RecordRunning(now) => Recorded(world, now)
    case BeginStop(now) => if record.phase == Running || record.phase == Starting then Marked(world, Stopping, now) else world
    case BeginDestroy(now) => if record.phase == Stopped || record.phase == Prepared then Marked(world, Destroying, now) else world
    case FinishStop(cleanable, now) =>
      if record.phase == Stopping && Audit(world.host, record).Some? && !Audit(world.host, record).value.live && cleanable
      then world.(record := AsStopped(record, now), host := Cleaned(world.host))
      else world
    case Happens(qemu, host) => world.(qemu := qemu, host := host)
    case Status(cleanable, now, written) =>
      var verdict := Decide(world.host, record, cleanable, now);
      world.(record := if verdict.Converge? && written then verdict.record else record, host := HostAfter(world.host, verdict))
  }

  function Run(world: World, events: seq<Event>): World
    decreases |events|
  {
    if events == [] then world else Run(Step(world, events[0]), events[1..])
  }

  predicate LegalRun(world: World, events: seq<Event>)
    decreases |events|
  {
    events == [] || (Legal(world, events[0]) && LegalRun(Step(world, events[0]), events[1..]))
  }

  /** A live QEMU is visible, and a stopped or merely prepared node has none. */
  predicate Safe(world: World)
  {
    && Visible(world.host, world.record, world.qemu)
    && (world.record.phase == Stopped || world.record.phase == Prepared || world.record.phase == Destroying ==> world.qemu == None)
  }

  lemma StepIsSafe(world: World, event: Event)
    requires Safe(world) && Legal(world, event)
    ensures Safe(Step(world, event))
  {
    if Audit(world.host, world.record).Some? {
      VerdictIsSound(world.host, world.record, world.qemu);
    }
    if event.Status? {
      StatusIsSafe(world, event.cleanable, event.now, event.written);
    }
  }

  lemma StatusIsSafe(world: World, cleanable: bool, now: nat, written: bool)
    requires Safe(world)
    ensures Safe(Step(world, Status(cleanable, now, written)))
  {
    StoppedMeansDead(world.host, world.record, world.qemu, cleanable, now);
    var verdict := Decide(world.host, world.record, cleanable, now);
    if verdict.Converge? && verdict.record.phase == Running && world.qemu.Some? {
      assert Identified(world.host, verdict.record) by {
        assert Audit(world.host, world.record).value.authority == ByQmp;
      }
    }
  }

  /** Over every run of starts, stops, crashes, guest halts, lost writes and statuses, a node recorded as Stopped has
      no live QEMU. */
  lemma {:induction false} StoppedNodesAreDead(world: World, events: seq<Event>)
    requires Safe(world) && LegalRun(world, events)
    ensures Safe(Run(world, events))
    ensures Run(world, events).record.phase == Stopped ==> Run(world, events).qemu == None
    decreases |events|
  {
    if events != [] {
      StepIsSafe(world, events[0]);
      StoppedNodesAreDead(Step(world, events[0]), events[1..]);
    }
  }

  // ---------------------------------------------------------------- the loop over nodes

  /** The facts a status sees: the host around each node, and which residues and records can be written. */
  datatype View = View(host: string -> Host, cleanable: string -> bool, writable: string -> bool, now: nat)

  function Judge(records: map<string, Record>, view: View, name: string): Verdict
  {
    if name in records then Decide(view.host(name), records[name], view.cleanable(name), view.now) else Keep
  }

  /** The records to write, in selection order. */
  function Candidates(records: map<string, Record>, view: View, selected: seq<string>): seq<(string, Record)>
  {
    if selected == [] then []
    else
      var name := selected[|selected| - 1];
      var verdict := Judge(records, view, name);
      Candidates(records, view, selected[..|selected| - 1]) + if verdict.Converge? then [(name, verdict.record)] else []
  }

  function WriteAll(records: map<string, Record>, view: View, candidates: seq<(string, Record)>): map<string, Record>
  {
    if candidates == [] then records
    else
      var (name, record) := candidates[|candidates| - 1];
      var front := WriteAll(records, view, candidates[..|candidates| - 1]);
      if view.writable(name) then front[name := record] else front
  }

  lemma {:induction false} CandidatesAreJudged(records: map<string, Record>, view: View, selected: seq<string>)
    ensures forall k :: 0 <= k < |Candidates(records, view, selected)| ==>
              var (name, record) := Candidates(records, view, selected)[k];
              name in selected && name in records && Judge(records, view, name) == Converge(record)
    ensures forall name :: name in selected && Judge(records, view, name).Converge? ==>
              (name, Judge(records, view, name).record) in Candidates(records, view, selected)
  {
    if selected != [] {
      CandidatesAreJudged(records, view, selected[..|selected| - 1]);
    }
  }

  lemma {:induction false} WritesAreCandidates(records: map<string, Record>, view: View, candidates: seq<(string, Record)>, verdicts: map<string, Record>)
    requires forall k :: 0 <= k < |candidates| ==>
               candidates[k].0 in records && candidates[k].0 in verdicts && candidates[k].1 == verdicts[candidates[k].0]
    ensures var after := WriteAll(records, view, candidates);
            && after.Keys == records.Keys
            && forall name :: name in records ==>
                 after[name] == if view.writable(name) && name in verdicts && (name, verdicts[name]) in candidates then verdicts[name] else records[name]
  {
    if candidates != [] {
      WritesAreCandidates(records, view, candidates[..|candidates| - 1], verdicts);
    }
  }

  /** A status over several nodes gives each selected node the record that its own verdict asks for, if it can be
      written, and touches no other node. */
  lemma StatusWritesVerdicts(records: map<string, Record>, view: View, selected: seq<string>)
    ensures var after := WriteAll(records, view, Candidates(records, view, selected));
            && after.Keys == records.Keys
            && forall name :: name in records ==>
                 var verdict := Judge(records, view, name);
                 after[name] == if name in selected && verdict.Converge? && view.writable(name) then verdict.record else records[name]
  {
    var candidates := Candidates(records, view, selected);
    CandidatesAreJudged(records, view, selected);
    var verdicts := map name | name in records && Judge(records, view, name).Converge? :: Judge(records, view, name).record;
    forall k | 0 <= k < |candidates|
      ensures candidates[k].0 in records && candidates[k].0 in verdicts && candidates[k].1 == verdicts[candidates[k].0]
    {
      var (name, record) := candidates[k];
    }
    WritesAreCandidates(records, view, candidates, verdicts);
    forall name | name in records && name in verdicts && (name, verdicts[name]) in candidates
      ensures name in selected
    {
      var k :| 0 <= k < |candidates| && candidates[k] == (name, verdicts[name]);
    }
  }

  /** The status of the node is an error: it has no verdict, or its record cannot be written. */
  predicate Unsettled(records: map<string, Record>, view: View, name: string)
  {
    var verdict := Judge(records, view, name);
    verdict == Fail || (verdict.Converge? && !view.writable(name))
  }

  /** The node failed in the decisions, or when one of the candidates was written. */
  predicate FailsIn(records: map<string, Record>, view: View, selected: seq<string>, candidates: seq<(string, Record)>, name: string)
  {
    || (name in selected && Judge(records, view, name) == Fail)
    || (!view.writable(name) && exists k :: 0 <= k < |candidates| && candidates[k].0 == name)
  }

  lemma FailuresAreUnsettled(records: map<string, Record>, view: View, selected: seq<string>)
    ensures forall name :: FailsIn(records, view, selected, Candidates(records, view, selected), name)
                           <==> name in selected && Unsettled(records, view, name)
  {
    CandidatesAreJudged(records, view, selected);
    var candidates := Candidates(records, view, selected);
    forall name
      ensures (exists k :: 0 <= k < |candidates| && candidates[k].0 == name) <==> name in selected && Judge(records, view, name).Converge?
    {
      if k :| 0 <= k < |candidates| && candidates[k].0 == name {
        assert candidates[k] == (name, candidates[k].1);
      }
    }
  }

  /** Status over the selected nodes: every decision is taken first, then the converged records are written. */
  class Manager {
    var records: map<string, Record>

    constructor (records: map<string, Record>)
      ensures this.records == records
    {
      this.records := records;
    }

    method StatusAll(selected: seq<string>, view: View) returns (failed: set<string>)
      modifies this
      ensures records == WriteAll(old(records), view, Candidates(old(records), view, selected))
      ensures forall name :: name in failed <==> name in selected && Unsettled(old(records), view, name)
    {
      failed := {};
      var candidates: seq<(string, Record)> := [];
      for i := 0 to |selected|
        invariant records == old(records) && candidates == Candidates(records, view, selected[..i])
        invariant forall name :: name in failed <==> name in selected[..i] && Judge(records, view, name) == Fail
      {
        assert selected[..i + 1][..i] == selected[..i];
        var name := selected[i];
        var verdict := Judge(records, view, name);
        match verdict {
          case Keep =>
          case Fail => failed := failed + {name};
          case Converge(record) => candidates := candidates + [(name, record)];
        }
      }
      assert selected[..|selected|] == selected;
      for k := 0 to |candidates|
        invariant records == WriteAll(old(records), view, candidates[..k])
        invariant forall name :: name in failed <==> FailsIn(old(records), view, selected, candidates[..k], name)
      {
        assert candidates[..k + 1][..k] == candidates[..k];
        var (name, record) := candidates[k];
        if view.writable(name) {
          records := records[name := record];
        } else {
          failed := failed + {name};
        }
      }
      assert candidates[..|candidates|] == candidates;
      FailuresAreUnsettled(old(records), view, selected);
    }
  }
}
