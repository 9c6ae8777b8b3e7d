/** The runtime audit: a recorded QEMU is live or dead, and ambiguity is an error, never a guess. */
module RuntimeAudit {
  import opened Wrappers

  type Pid = nat

  /** A process identity; a pid of zero and empty texts are absent. */
  datatype Process = Process(pid: Pid, executable: string, started: string, argvHash: string)

  const NO_PROCESS := Process(0, "", "", "")

  datatype Phase = Prepared | Starting | Running | Stopping | Stopped | Destroying

  /** What the store records of one node; argvHash is the hash of the persisted invocation. */
  datatype Record = Record(name: string, uuid: string, phase: Phase, process: Process, runtimePaths: bool, argvHash: string, updatedAt: nat)

  /** What the QMP socket of the node looks like, and how it answers. */
  datatype Qmp = NoSocket | NotASocket | Unreadable | Silent | Answers(name: string, uuid: Option<string>)

  datatype PidFile = NoFile | UnsafeFile | UnreadableFile | Malformed | Holds(pid: Pid)

  /** The facts on the host: the live processes, the node's socket and its pidfile. */
  datatype Host = Host(processes: map<Pid, Process>, qmp: Qmp, pidfile: PidFile)

  datatype Authority = ByQmp | ByProcess | Dead

  datatype Observation = Observation(live: bool, authority: Authority)

  predicate CompleteProcess(process: Process)
  {
    process.pid > 0 && process.executable != "" && process.started != "" && process.argvHash != ""
  }

  predicate Alive(host: Host, pid: Pid)
  {
    pid in host.processes
  }

  /** The recorded identity is that of a live process that runs the persisted invocation. */
  predicate MatchesLive(host: Host, record: Record)
  {
    && Alive(host, record.process.pid) && host.processes[record.process.pid] == record.process
    && record.process.argvHash == record.argvHash
  }

  function Lower(c: char): char
  {
    if 'A' <= c <= 'Z' then (c as int + 32) as char else c
  }

  function Folded(s: string): string
  {
    seq(|s|, i requires 0 <= i < |s| => Lower(s[i]))
  }

  /** QMP answers with the node's name and the machine's identity. */
  predicate Identified(host: Host, record: Record)
  {
    && host.qmp.Answers? && host.qmp.name == record.name
    && host.qmp.uuid.Some? && Folded(host.qmp.uuid.value) == Folded(record.uuid)
  }

  function Audit(host: Host, record: Record): Option<Observation>
  {
    if !record.runtimePaths then Some(Observation(false, Dead))
    else if host.qmp.NotASocket? || host.qmp.Unreadable? then None
    else if host.qmp.Answers? then
      if Identified(host, record) then Some(Observation(true, ByQmp)) else None
    else if CompleteProcess(record.process) && MatchesLive(host, record) then Some(Observation(true, ByProcess))
    else if record.process.pid > 0 && Alive(host, record.process.pid) then None
    else
      match host.pidfile
      case NoFile => Some(Observation(false, Dead))
      case Holds(pid) => if pid == 0 || Alive(host, pid) then None else Some(Observation(false, Dead))
      case _ => None
  }

  /** The identity behind the pidfile, when it is live and runs the persisted invocation. */
  function CaptureProcess(host: Host, record: Record): Option<Process>
  {
    if !record.runtimePaths || !host.pidfile.Holds? || host.pidfile.pid == 0 || !Alive(host, host.pidfile.pid) then None
    else
      var captured := host.processes[host.pidfile.pid];
      if captured.pid != host.pidfile.pid || captured.argvHash != record.argvHash then None else Some(captured)
  }

  // ---------------------------------------------------------------- what a verdict means

  /** The node's live QEMU can be seen: it answers QMP, or its pid is recorded or in the pidfile. */
  predicate Visible(host: Host, record: Record, qemu: Option<Pid>)
  {
    qemu.Some? ==>
      && qemu.value > 0 && Alive(host, qemu.value) && record.runtimePaths
      && (Identified(host, record) || record.process.pid == qemu.value || host.pidfile == Holds(qemu.value))
  }

  /** A dead verdict is never wrong about a visible QEMU, and a live one always rests on QMP or on a live process with
      the recorded identity. */
  lemma VerdictIsSound(host: Host, record: Record, qemu: Option<Pid>)
    requires Visible(host, record, qemu) && Audit(host, record).Some?
    ensures !Audit(host, record).value.live ==> qemu == None && Audit(host, record).value.authority == Dead
    ensures Audit(host, record).value.live ==> Identified(host, record) || MatchesLive(host, record)
  {
  }

  /** The node's socket tells nothing about the node: it cannot be read, or something else answers on it. */
  predicate Obscured(host: Host, record: Record)
  {
    host.qmp.NotASocket? || host.qmp.Unreadable? || (host.qmp.Answers? && !Identified(host, record))
  }

  predicate PidFileObscured(host: Host)
  {
    host.pidfile.UnsafeFile? || host.pidfile.UnreadableFile? || host.pidfile.Malformed? || host.pidfile == Holds(0)
  }

  /** The audit cannot tell the hosts apart: it sees a socket and a pidfile only when they are not obscured, and of the
      processes only the recorded one and the one in the pidfile. */
  predicate LooksLike(host: Host, other: Host, record: Record)
  {
    && (other.qmp == host.qmp || Obscured(host, record))
    && (other.pidfile == host.pidfile || PidFileObscured(host))
    && Alive(other, record.process.pid) == Alive(host, record.process.pid)
    && (host.pidfile.Holds? ==> Alive(other, host.pidfile.pid) == Alive(host, host.pidfile.pid))
  }

  /** A live QEMU of this node is compatible with everything that the audit sees. */
  ghost predicate MayBeLive(host: Host, record: Record)
  {
    exists other, pid :: LooksLike(host, other, record) && Visible(other, record, Some(pid))
  }

  /** The evidence names the recorded QEMU, and nothing speaks against it. */
  predicate NamesQemu(host: Host, record: Record)
  {
    Identified(host, record) || (!Obscured(host, record) && CompleteProcess(record.process) && MatchesLive(host, record))
  }

  lemma ObscuredMayBeLive(host: Host, record: Record)
    requires record.runtimePaths && (Obscured(host, record) || PidFileObscured(host) || Identified(host, record))
    ensures MayBeLive(host, record)
  {
    var pid := record.process.pid + 1 + if host.pidfile.Holds? then host.pidfile.pid else 0;
    var running := host.(processes := host.processes[pid := NO_PROCESS]);
    var other := if Identified(host, record) then running
                 else if Obscured(host, record) then running.(qmp := Answers(record.name, Some(record.uuid)))
                 else running.(pidfile := Holds(pid));
    assert LooksLike(host, other, record) && Visible(other, record, Some(pid));
  }

  lemma NamedPidMayBeLive(host: Host, record: Record, pid: Pid)
    requires record.runtimePaths && pid > 0 && Alive(host, pid) && (record.process.pid == pid || host.pidfile == Holds(pid))
    ensures MayBeLive(host, record)
  {
    assert LooksLike(host, host, record) && Visible(host, record, Some(pid));
  }

  /** A node is declared dead if and only if no host that looks like this one has a live QEMU of it; it is declared live
      if and only if the evidence names its QEMU; and the audit is an error exactly in between. */
  lemma AmbiguityIsAnError(host: Host, record: Record)
    ensures Audit(host, record) == Some(Observation(false, Dead)) <==> !MayBeLive(host, record)
    ensures Audit(host, record).Some? && Audit(host, record).value.live <==> record.runtimePaths && NamesQemu(host, record)
    ensures Audit(host, record).None? <==> MayBeLive(host, record) && !NamesQemu(host, record)
  {
    if record.runtimePaths {
      if Obscured(host, record) || PidFileObscured(host) || Identified(host, record) {
        ObscuredMayBeLive(host, record);
      } else if record.process.pid > 0 && Alive(host, record.process.pid) {
        NamedPidMayBeLive(host, record, record.process.pid);
      } else if host.pidfile.Holds? && Alive(host, host.pidfile.pid) {
        NamedPidMayBeLive(host, record, host.pidfile.pid);
      }
    }
  }
}
