/** What a status does to each node, in terms of what the host shows and of what the runtime audit can exclude. */
module StatusOutcome {
  import opened Wrappers
  import opened RuntimeAudit
  import opened Convergence

  /** The node is in a phase that a dead QEMU ends. */
  predicate Ends(record: Record)
  {
    || record.phase == Starting || record.phase == Stopping || record.phase == Destroying
    || (record.phase == Running && record.runtimePaths && CompleteProcess(record.process))
  }

  /** The node is to be recorded as stopped: no host that looks like this one has a live QEMU of it, and what the runtime
      left can be removed. */
  ghost predicate IsOver(host: Host, record: Record, cleanable: bool)
  {
    Ends(record) && !MayBeLive(host, record) && (record.runtimePaths ==> cleanable)
  }

  /** The pidfile holds a live process that runs the persisted invocation. */
  predicate Captured(host: Host, record: Record, process: Process)
  {
    && process.pid > 0 && host.pidfile == Holds(process.pid)
    && Alive(host, process.pid) && host.processes[process.pid] == process && process.argvHash == record.argvHash
  }

  /** An interrupted start is to be adopted: its QEMU answers, was never recorded, and is found by its pidfile. */
  predicate IsAdopted(host: Host, record: Record, process: Process)
  {
    && record.phase == Starting && !CompleteProcess(record.process)
    && record.runtimePaths && Identified(host, record) && Captured(host, record, process)
  }

  /** The node can stay as it is: nothing ever ran, or what runs is what the record says. */
  predicate Stays(host: Host, record: Record)
  {
    match record.phase
    case Prepared => true
    case Stopped => true
    case Running => Identified(host, record) && MatchesLive(host, record)
    case _ => record.runtimePaths && NamesQemu(host, record) && (record.phase == Starting ==> CompleteProcess(record.process))
  }

  function Over(record: Record, now: nat): Record
  {
    Record(record.name, record.uuid, Stopped, Process(0, "", "", ""), record.runtimePaths, record.argvHash, now)
  }

  function Adopted(record: Record, process: Process, now: nat): Record
  {
    Record(record.name, record.uuid, Running, process, record.runtimePaths, record.argvHash, now)
  }

  lemma CaptureFindsProcess(host: Host, record: Record, process: Process)
    requires record.runtimePaths
    ensures CaptureProcess(host, record) == Some(process) <==> Captured(host, record, process)
  {
  }

  /** The verdict on a node is decided by four conditions of which at most one holds: it stays, it is over, it is
      adopted, or the status fails for it. */
  lemma VerdictIsExact(host: Host, record: Record, cleanable: bool, now: nat)
    ensures Decide(host, record, cleanable, now) == Keep <==> Stays(host, record)
    ensures Decide(host, record, cleanable, now) == Converge(Over(record, now)) <==> IsOver(host, record, cleanable)
    ensures forall process ::
              Decide(host, record, cleanable, now) == Converge(Adopted(record, process, now)) <==> IsAdopted(host, record, process)
    ensures Decide(host, record, cleanable, now) == Fail <==>
              !Stays(host, record) && !IsOver(host, record, cleanable) && forall process :: !IsAdopted(host, record, process)
  {
    AmbiguityIsAnError(host, record);
    if record.runtimePaths {
      forall process
        ensures CaptureProcess(host, record) == Some(process) <==> Captured(host, record, process)
      {
        CaptureFindsProcess(host, record, process);
      }
      if CaptureProcess(host, record).Some? {
        var process := CaptureProcess(host, record).value;
        assert IsAdopted(host, record, process) <==>
               record.phase == Starting && !CompleteProcess(record.process) && Identified(host, record);
      }
    }
  }

  // ---------------------------------------------------------------- a status over several nodes

  ghost predicate Fails(records: map<string, Record>, view: View, name: string)
  {
    name in records
    && var host, record := view.host(name), records[name];
    && !Stays(host, record)
    && (IsOver(host, record, view.cleanable(name)) || (exists process :: IsAdopted(host, record, process)) ==> !view.writable(name))
  }

  /** The record of one node after a status that includes it. */
  ghost predicate Settles(records: map<string, Record>, after: map<string, Record>, view: View, name: string)
    requires name in records && name in after
  {
    var host, record := view.host(name), records[name];
    && (IsOver(host, record, view.cleanable(name)) && view.writable(name) ==> after[name] == Over(record, view.now))
    && (forall process :: IsAdopted(host, record, process) && view.writable(name) ==> after[name] == Adopted(record, process, view.now))
    && (Stays(host, record) || Fails(records, view, name) ==> after[name] == record)
  }

  lemma FailureIsExact(records: map<string, Record>, view: View, name: string)
    ensures Unsettled(records, view, name) <==> Fails(records, view, name)
  {
    if name in records {
      var host, record := view.host(name), records[name];
      VerdictIsExact(host, record, view.cleanable(name), view.now);
      var verdict := Decide(host, record, view.cleanable(name), view.now);
      if verdict.Converge? && verdict.record.phase == Running {
        assert verdict == Converge(Adopted(record, verdict.record.process, view.now));
      }
    }
  }

  /** A status records exactly what the evidence shows. Of the selected nodes, one whose QEMU cannot be live is stopped and
      has no process, an interrupted start that answers is running with its captured process, and every other record
      stays; a status fails for exactly the nodes that it can neither leave nor settle. No other node is touched. */
  lemma StatusIsExact(records: map<string, Record>, view: View, selected: seq<string>)
    ensures var after := WriteAll(records, view, Candidates(records, view, selected));
            && after.Keys == records.Keys
            && (forall name :: name in records && name in selected ==> Settles(records, after, view, name))
            && (forall name :: name in records && name !in selected ==> after[name] == records[name])
            && (forall name :: Unsettled(records, view, name) <==> Fails(records, view, name))
  {
    StatusWritesVerdicts(records, view, selected);
    forall name
      ensures Unsettled(records, view, name) <==> Fails(records, view, name)
    {
      FailureIsExact(records, view, name);
    }
    var after := WriteAll(records, view, Candidates(records, view, selected));
    forall name | name in records && name in selected
      ensures Settles(records, after, view, name)
    {
      VerdictIsExact(view.host(name), records[name], view.cleanable(name), view.now);
    }
  }

  /** A guest that halted itself: a status stops its record. */
  lemma HaltedNodeIsStopped(records: map<string, Record>, view: View, selected: seq<string>, name: string)
    requires name in records && name in selected && records[name].phase == Running
    requires records[name].runtimePaths && CompleteProcess(records[name].process) && !MayBeLive(view.host(name), records[name])
    requires view.cleanable(name) && view.writable(name)
    ensures var after := WriteAll(records, view, Candidates(records, view, selected));
            name in after && after[name].phase == Stopped && after[name].process == NO_PROCESS && !Unsettled(records, view, name)
  {
    StatusIsExact(records, view, selected);
    var after := WriteAll(records, view, Candidates(records, view, selected));
    assert Settles(records, after, view, name);
    assert IsOver(view.host(name), records[name], view.cleanable(name));
  }
}
