/** When a rollback goes ahead and what it reports, in terms of the arguments that the journal recorded and of the files
    that exist. */
module RollbackOutcome {
  import opened Wrappers
  import opened Texts
  import opened DeploymentStore
  import opened Rollback

  // ---------------------------------------------------------------- runtime files

  predicate LastAt(args: seq<string>, flag: string, i: nat)
  {
    i < |args| && args[i] == flag && forall j :: i < j < |args| ==> args[j] != flag
  }

  /** Every QMP argument is followed by a socket, and every pidfile argument by a path. */
  predicate WellFormed(args: seq<string>)
  {
    forall i :: 0 <= i < |args| && (args[i] == "-qmp" || args[i] == "-pidfile") ==>
      i + 1 < |args| && (args[i] == "-qmp" ==> "unix:" <= args[i + 1])
  }

  /** The socket is the text before the first comma. */
  predicate FirstField(text: string, field: string)
  {
    ',' !in field && (text == field || field + "," <= text)
  }

  predicate NamesSocket(args: seq<string>, socket: string)
  {
    exists i :: 0 <= i && i + 1 < |args| && LastAt(args, "-qmp", i) && "unix:" <= args[i + 1] && FirstField(args[i + 1][5..], socket)
  }

  predicate NamesPidfile(args: seq<string>, pidfile: string)
  {
    exists i :: 0 <= i && i + 1 < |args| && LastAt(args, "-pidfile", i) && args[i + 1] == pidfile
  }

  /** The socket that the arguments name last, or the given one when they name none. */
  predicate SocketOf(args: seq<string>, default: string, socket: string)
  {
    if "-qmp" in args then NamesSocket(args, socket) else socket == default
  }

  predicate PidfileOf(args: seq<string>, default: string, pidfile: string)
  {
    if "-pidfile" in args then NamesPidfile(args, pidfile) else pidfile == default
  }

  lemma {:induction false} SplitFirst(text: string)
    ensures FirstField(text, Split(text, ',')[0])
  {
    if text != "" && text[0] != ',' {
      SplitFirst(text[1..]);
      assert text == [text[0]] + text[1..];
    }
  }

  lemma WellFormedFrom(args: seq<string>)
    requires args != []
    ensures WellFormed(args) <==>
              && WellFormed(args[1..])
              && (args[0] == "-qmp" || args[0] == "-pidfile" ==> |args| > 1 && (args[0] == "-qmp" ==> "unix:" <= args[1]))
  {
    var rest := args[1..];
    assert forall i :: 0 <= i < |rest| ==> rest[i] == args[i + 1];
    if WellFormed(args) {
      forall i | 0 <= i < |rest| && (rest[i] == "-qmp" || rest[i] == "-pidfile")
        ensures i + 1 < |rest| && (rest[i] == "-qmp" ==> "unix:" <= rest[i + 1])
      {
        assert args[i + 1] == rest[i];
      }
    }
    if WellFormed(rest) {
      forall i | 0 < i < |args| && (args[i] == "-qmp" || args[i] == "-pidfile")
        ensures i + 1 < |args| && (args[i] == "-qmp" ==> "unix:" <= args[i + 1])
      {
        assert rest[i - 1] == args[i];
      }
    }
  }

  lemma LastInRest(args: seq<string>, flag: string, i: nat)
    requires args != [] && LastAt(args[1..], flag, i)
    ensures LastAt(args, flag, i + 1)
  {
    forall j | i + 1 < j < |args|
      ensures args[j] != flag
    {
      assert args[j] == args[1..][j - 1];
    }
  }

  lemma SocketFrom(args: seq<string>, default: string, socket: string)
    requires args != [] && WellFormed(args)
    requires SocketOf(args[1..], if args[0] == "-qmp" then Split(args[1][5..], ',')[0] else default, socket)
    ensures SocketOf(args, default, socket)
  {
    var rest := args[1..];
    assert args == [args[0]] + rest;
    if "-qmp" in rest {
      var i :| 0 <= i && i + 1 < |rest| && LastAt(rest, "-qmp", i) && "unix:" <= rest[i + 1] && FirstField(rest[i + 1][5..], socket);
      LastInRest(args, "-qmp", i);
      assert args[i + 2] == rest[i + 1];
    } else if args[0] == "-qmp" {
      SplitFirst(args[1][5..]);
      assert LastAt(args, "-qmp", 0);
    }
  }

  lemma PidfileFrom(args: seq<string>, default: string, pidfile: string)
    requires args != [] && WellFormed(args)
    requires PidfileOf(args[1..], if args[0] == "-pidfile" then args[1] else default, pidfile)
    ensures PidfileOf(args, default, pidfile)
  {
    var rest := args[1..];
    assert args == [args[0]] + rest;
    if "-pidfile" in rest {
      var i :| 0 <= i && i + 1 < |rest| && LastAt(rest, "-pidfile", i) && rest[i + 1] == pidfile;
      LastInRest(args, "-pidfile", i);
      assert args[i + 2] == rest[i + 1];
    } else if args[0] == "-pidfile" {
      assert LastAt(args, "-pidfile", 0);
    }
  }

  /** Scanning well-formed arguments finds the socket and the pidfile that they name last; other arguments are refused. */
  lemma {:induction false} ScanFindsLast(args: seq<string>, socket: string, pidfile: string)
    ensures ScanRuntime(args, socket, pidfile).Some? <==> WellFormed(args)
    ensures ScanRuntime(args, socket, pidfile).Some? ==>
              var (lastSocket, lastPidfile) := ScanRuntime(args, socket, pidfile).value;
              SocketOf(args, socket, lastSocket) && PidfileOf(args, pidfile, lastPidfile)
    decreases |args|
  {
    if args != [] {
      WellFormedFrom(args);
      assert "-qmp" != "-pidfile";
      var nextSocket := if args[0] == "-qmp" && |args| > 1 && HasPrefix(args[1], "unix:") then Split(args[1][5..], ',')[0] else socket;
      var nextPidfile := if args[0] == "-pidfile" && |args| > 1 then args[1] else pidfile;
      ScanFindsLast(args[1..], nextSocket, nextPidfile);
      if WellFormed(args) {
        var (lastSocket, lastPidfile) := ScanRuntime(args, socket, pidfile).value;
        SocketFrom(args, socket, lastSocket);
        PidfileFrom(args, pidfile, lastPidfile);
      }
    }
  }

  /** The file is at the directory itself, which ends with the last separator of its path. */
  predicate LiesIn(path: string, directory: string)
  {
    && directory <= path && directory != "" && directory[|directory| - 1] == '/'
    && '/' !in path[|directory|..]
  }

  ghost predicate SideBySide(first: string, second: string)
  {
    exists directory :: LiesIn(first, directory) && LiesIn(second, directory)
  }

  lemma {:induction false} DirectoryIsLast(path: string, directory: string)
    requires "/" <= path
    ensures LiesIn(path, directory) <==> Directory(path) == directory
  {
    if path[|path| - 1] == '/' {
      assert LiesIn(path, directory) ==> |directory| == |path|;
    } else {
      var front := path[..|path| - 1];
      assert path == front + [path[|path| - 1]];
      assert path[0] == '/' && front[0] == '/';
      DirectoryIsLast(front, directory);
      if LiesIn(path, directory) {
        assert directory != path;
        assert path[|directory|..] == front[|directory|..] + [path[|path| - 1]];
        assert LiesIn(front, directory);
      }
      if LiesIn(front, directory) {
        assert path[|directory|..] == front[|directory|..] + [path[|path| - 1]];
      }
    }
  }

  // ---------------------------------------------------------------- the checks

  /** The node's QEMU left neither its socket nor its pidfile; a finished prepare named both, in one directory. */
  ghost predicate RuntimeIsGone(journal: Journal, runtime: set<string>, socket: string, pidfile: string)
  {
    && SocketOf(journal.invocation.args, "", socket) && PidfileOf(journal.invocation.args, "", pidfile)
    && (journal.prepared ==> "/" <= socket && "/" <= pidfile && SideBySide(socket, pidfile))
    && (socket != "" ==> socket !in runtime) && (pidfile != "" ==> pidfile !in runtime)
  }

  /** An uncommitted prepare of this node, of which nothing runs, and a directory with nothing else in it. */
  ghost predicate Permits(disk: Disk, runtime: set<string>, node: Name)
  {
    && ReadJournal(disk, node).Some? && ReadNode(disk, node).None?
    && var journal := ReadJournal(disk, node).value;
    && journal.node == node && !journal.committed && WellFormed(journal.invocation.args)
    && (exists socket, pidfile :: RuntimeIsGone(journal, runtime, socket, pidfile))
    && forall base :: base in Entries(disk.nodes[node]) ==>
         base == JournalFile || exists i :: 0 <= i < |journal.completed| && journal.completed[i].path == InNode(node, base)
  }

  lemma SocketIsOne(args: seq<string>, default: string, first: string, second: string)
    requires SocketOf(args, default, first) && SocketOf(args, default, second)
    ensures first == second
  {
    if "-qmp" in args {
      var i :| 0 <= i && i + 1 < |args| && LastAt(args, "-qmp", i) && "unix:" <= args[i + 1] && FirstField(args[i + 1][5..], first);
      var j :| 0 <= j && j + 1 < |args| && LastAt(args, "-qmp", j) && "unix:" <= args[j + 1] && FirstField(args[j + 1][5..], second);
      assert i == j;
      FieldIsOne(args[i + 1][5..], first, second);
    }
  }

  lemma FieldIsOne(text: string, first: string, second: string)
    requires FirstField(text, first) && FirstField(text, second)
    ensures first == second
  {
    FieldIsNoLonger(text, first, second);
    FieldIsNoLonger(text, second, first);
    assert first == text[..|first|] && second == text[..|second|];
  }

  lemma FieldIsNoLonger(text: string, first: string, second: string)
    requires FirstField(text, first) && FirstField(text, second)
    ensures |second| <= |first|
  {
    if first + "," <= text && second <= text {
      assert text[|first|] == (first + ",")[|first|];
    }
  }

  lemma PidfileIsOne(args: seq<string>, default: string, first: string, second: string)
    requires PidfileOf(args, default, first) && PidfileOf(args, default, second)
    ensures first == second
  {
  }

  lemma RuntimeChecksAreExact(journal: Journal, runtime: set<string>)
    ensures var paths := InvocationRuntime(journal);
            && paths.Some? && (paths.value.0 == "" || paths.value.0 !in runtime) && (paths.value.1 == "" || paths.value.1 !in runtime)
            <==> WellFormed(journal.invocation.args) && exists socket, pidfile :: RuntimeIsGone(journal, runtime, socket, pidfile)
  {
    var args := journal.invocation.args;
    ScanFindsLast(args, "", "");
    if WellFormed(args) {
      var (socket, pidfile) := ScanRuntime(args, "", "").value;
      forall other, another | SocketOf(args, "", other) && PidfileOf(args, "", another)
        ensures other == socket && another == pidfile
      {
        SocketIsOne(args, "", other, socket);
        PidfileIsOne(args, "", another, pidfile);
      }
      if "/" <= socket && "/" <= pidfile {
        DirectoriesAgree(socket, pidfile);
      }
      assert RuntimeIsGone(journal, runtime, socket, pidfile) <==>
             && (journal.prepared ==> "/" <= socket && "/" <= pidfile && SideBySide(socket, pidfile))
             && (socket != "" ==> socket !in runtime) && (pidfile != "" ==> pidfile !in runtime);
    }
  }

  lemma DirectoriesAgree(first: string, second: string)
    requires "/" <= first && "/" <= second
    ensures SideBySide(first, second) <==> Directory(first) == Directory(second)
  {
    DirectoryIsLast(first, Directory(first));
    if directory :| LiesIn(first, directory) && LiesIn(second, directory) {
      DirectoryIsLast(first, directory);
      DirectoryIsLast(second, directory);
    }
    if Directory(first) == Directory(second) {
      DirectoryIsLast(second, Directory(first));
    }
  }

  lemma ChecksAreExact(disk: Disk, runtime: set<string>, node: Name)
    ensures Allowed(disk, runtime, node) <==> Permits(disk, runtime, node)
  {
    if ReadJournal(disk, node).Some? {
      var journal := ReadJournal(disk, node).value;
      RuntimeChecksAreExact(journal, runtime);
      forall base
        ensures base in ArtifactBases(journal.completed)
                <==> exists i :: 0 <= i < |journal.completed| && journal.completed[i].path == InNode(node, base)
      {
        BasesAreOwn(node, journal, base);
      }
    }
  }

  lemma BasesAreOwn(node: Name, journal: Journal, base: Base)
    requires ValidJournal(node, journal)
    ensures base in ArtifactBases(journal.completed)
            <==> exists i :: 0 <= i < |journal.completed| && journal.completed[i].path == InNode(node, base)
  {
    if base in ArtifactBases(journal.completed) {
      var i :| 0 <= i < |journal.completed| && journal.completed[i].path.InNode? && journal.completed[i].path.base == base;
      assert journal.completed[i].path == InNode(node, base);
    }
  }

  // ---------------------------------------------------------------- what is reported

  /** The artifacts that exist, from the last to the first. */
  function Present(disk: Disk, completed: seq<Artifact>): seq<Path>
  {
    if completed == [] then []
    else
      var last := completed[|completed| - 1].path;
      (if Exists(disk, last) then [last] else []) + Present(disk, completed[..|completed| - 1])
  }

  predicate DistinctPaths(completed: seq<Artifact>)
  {
    forall i, j :: 0 <= i < j < |completed| ==> completed[i].path != completed[j].path
  }

  lemma {:induction false} PresentElsewhere(disk: Disk, after: Disk, completed: seq<Artifact>)
    requires forall i :: 0 <= i < |completed| ==> Exists(after, completed[i].path) == Exists(disk, completed[i].path)
    ensures Present(after, completed) == Present(disk, completed)
  {
    if completed != [] {
      PresentElsewhere(disk, after, completed[..|completed| - 1]);
    }
  }

  lemma {:induction false} DryDeleteReports(s: Sys, faults: Faults, node: Name, completed: seq<Artifact>, actions: seq<Path>)
    ensures DeleteArtifacts(s, faults, node, completed, false, actions).1 == RollbackResult(actions + Present(s.disk, completed), true)
    decreases |completed|
  {
    if completed == [] {
      assert actions + [] == actions;
    } else {
      var path, rest := completed[|completed| - 1].path, completed[..|completed| - 1];
      if Exists(s.disk, path) {
        DryDeleteReports(s, faults, node, rest, actions + [path]);
        assert actions + [path] + Present(s.disk, rest) == actions + Present(s.disk, completed);
      } else {
        DryDeleteReports(s, faults, node, rest, actions);
        assert Present(s.disk, completed) == Present(s.disk, rest);
      }
    }
  }

  lemma {:induction false} DeleteReports(s: Sys, node: Name, completed: seq<Artifact>, actions: seq<Path>)
    requires OwnArtifacts(node, completed) && DistinctPaths(completed)
    ensures DeleteArtifacts(s, NO_FAULTS, node, completed, true, actions).1 == RollbackResult(actions + Present(s.disk, completed), true)
    decreases |completed|
  {
    if completed == [] {
      assert actions + [] == actions;
    } else {
      var path, rest := completed[|completed| - 1].path, completed[..|completed| - 1];
      if Exists(s.disk, path) {
        var s1 := RemoveFile(s, NO_FAULTS, node, path.base).0;
        RemovedElsewhere(s, node, completed);
        PresentElsewhere(s.disk, s1.disk, rest);
        DeleteReports(s1, node, rest, actions + [path]);
        assert actions + [path] + Present(s.disk, rest) == actions + Present(s.disk, completed);
      } else {
        DeleteReports(s, node, rest, actions);
        assert Present(s.disk, completed) == Present(s.disk, rest);
      }
    }
  }

  lemma RemovedElsewhere(s: Sys, node: Name, completed: seq<Artifact>)
    requires OwnArtifacts(node, completed) && DistinctPaths(completed) && completed != [] && node in s.disk.nodes
    ensures var s1 := RemoveFile(s, NO_FAULTS, node, completed[|completed| - 1].path.base).0;
            forall i :: 0 <= i < |completed| - 1 ==> Exists(s1.disk, completed[i].path) == Exists(s.disk, completed[i].path)
  {
    var last := completed[|completed| - 1].path;
    var s1 := RemoveFile(s, NO_FAULTS, node, last.base).0;
    forall i | 0 <= i < |completed| - 1
      ensures Exists(s1.disk, completed[i].path) == Exists(s.disk, completed[i].path)
    {
      assert completed[i].path != last && completed[i].path == InNode(node, completed[i].path.base);
    }
  }

  /** A rollback that nothing disturbs goes ahead if and only if it is permitted, and a dry run foretells it: both report
      the artifacts that exist, from the last to the first, and the journal. A rollback that is not permitted has no
      effect, whatever the faults. */
  lemma RollbackIsExact(s: Sys, faults: Faults, runtime: set<string>, node: Name, apply: bool)
    ensures !Permits(s.disk, runtime, node) ==> RollbackPrepared(s, faults, runtime, node, apply) == (s, RollbackResult([], false))
    ensures Permits(s.disk, runtime, node) ==>
              RollbackPrepared(s, NO_FAULTS, runtime, node, apply).1
              == RollbackResult(Present(s.disk, ReadJournal(s.disk, node).value.completed) + [InNode(node, JournalFile)], true)
  {
    ChecksAreExact(s.disk, runtime, node);
    if Permits(s.disk, runtime, node) {
      var completed := ReadJournal(s.disk, node).value.completed;
      assert [] + Present(s.disk, completed) == Present(s.disk, completed);
      if apply {
        CleanRollback(s, runtime, node);
        DeleteReports(s, node, completed, []);
      } else {
        DryDeleteReports(s, NO_FAULTS, node, completed, []);
        DryDelete(s, NO_FAULTS, node, completed, []);
      }
    }
  }
}
