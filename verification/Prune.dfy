/** Pruning the image cache: staging files and unreferenced images go, referenced images stay, and a dry run lists
    exactly what an undisturbed run would delete. */
module Prune {
  import Versions

  datatype Kind = Image | Staging | Unmanaged

  /** One file of the cache: fit is whether its type, permissions and image format pass the checks of its kind. */
  datatype Cached = Cached(kind: Kind, fit: bool, digest: string, size: nat)

  datatype Item = Item(kind: Kind, path: string, size: nat, applied: bool)

  datatype Report = Report(items: seq<Item>, ok: bool)

  predicate Disposable(file: Cached, referenced: set<string>)
  {
    file.fit && (file.kind == Staging || (file.kind == Image && file.digest !in referenced))
  }

  /** Paths in ascending order. */
  predicate Ascending(paths: seq<string>)
  {
    forall i, j :: 0 <= i < j < |paths| ==> Versions.Less(paths[i], paths[j])
  }

  method InsertPath(sorted: seq<string>, path: string) returns (longer: seq<string>)
    requires Ascending(sorted) && path !in sorted
    ensures Ascending(longer) && forall other :: other in longer <==> other in sorted || other == path
  {
    var place := 0;
    while place < |sorted| && Versions.Less(sorted[place], path)
      invariant 0 <= place <= |sorted| && forall i :: 0 <= i < place ==> Versions.Less(sorted[i], path)
    {
      place := place + 1;
    }
    longer := sorted[..place] + [path] + sorted[place..];
    forall j | place <= j < |sorted|
      ensures Versions.Less(path, sorted[j])
    {
      Versions.LessIsTotal(path, sorted[place]);
      if j > place {
        Versions.LessIsTransitive(path, sorted[place], sorted[j]);
      }
    }
  }

  /** The managed files, sorted by path. */
  method Candidates(files: map<string, Cached>) returns (paths: seq<string>)
    ensures Ascending(paths) && forall path :: path in paths <==> path in files && files[path].kind != Unmanaged
  {
    paths := [];
    var left := files.Keys;
    while left != {}
      invariant left <= files.Keys && Ascending(paths)
      invariant forall path :: path in paths <==> path in files && path !in left && files[path].kind != Unmanaged
    {
      var path :| path in left;
      if files[path].kind != Unmanaged {
        paths := InsertPath(paths, path);
      }
      left := left - {path};
    }
  }

  // ---------------------------------------------------------------- what a scan does

  /** The scan stops at the first file that is not fit, and at the first removal that fails. */
  function Scan(files: map<string, Cached>, paths: seq<string>, referenced: set<string>, apply: bool, removable: string -> bool): (map<string, Cached>, Report)
    requires forall i :: 0 <= i < |paths| ==> paths[i] in files
    requires forall i, j :: 0 <= i < j < |paths| ==> paths[i] != paths[j]
    decreases |paths|
  {
    if paths == [] then (files, Report([], true))
    else
      var path, rest := paths[0], paths[1..];
      var file := files[path];
      if !file.fit then (files, Report([], false))
      else if file.kind == Image && file.digest in referenced then Scan(files, rest, referenced, apply, removable)
      else if apply && !removable(path) then (files, Report([], false))
      else
        var next := if apply then files - {path} else files;
        var (after, report) := Scan(next, rest, referenced, apply, removable);
        (after, Report([Item(file.kind, path, file.size, apply)] + report.items, report.ok))
  }

  /** Only disposable files go, and a successful run leaves none of them. */
  lemma {:induction false} ScanRemoves(files: map<string, Cached>, paths: seq<string>, referenced: set<string>, removable: string -> bool)
    requires forall i :: 0 <= i < |paths| ==> paths[i] in files && files[paths[i]].kind != Unmanaged
    requires forall i, j :: 0 <= i < j < |paths| ==> paths[i] != paths[j]
    ensures var (after, report) := Scan(files, paths, referenced, true, removable);
            && (forall path :: path in after ==> path in files && after[path] == files[path])
            && (forall path :: path in files && path !in after ==> path in paths && Disposable(files[path], referenced))
            && (report.ok ==> forall path :: path in paths && Disposable(files[path], referenced) ==> path !in after)
    decreases |paths|
  {
    if paths != [] {
      var path, rest := paths[0], paths[1..];
      var file := files[path];
      if file.fit {
        if file.kind == Image && file.digest in referenced {
          ScanRemoves(files, rest, referenced, removable);
        } else if removable(path) {
          ScanRemoves(files - {path}, rest, referenced, removable);
        }
      }
    }
  }

  function AsApplied(items: seq<Item>): seq<Item>
  {
    seq(|items|, i requires 0 <= i < |items| => items[i].(applied := true))
  }

  /** A dry run changes nothing and reports what a run without failing removals reports. */
  lemma {:induction false} DryRunIsFaithful(files: map<string, Cached>, now: map<string, Cached>, paths: seq<string>, referenced: set<string>, removable: string -> bool)
    requires forall i :: 0 <= i < |paths| ==> paths[i] in files && paths[i] in now && now[paths[i]] == files[paths[i]]
    requires forall i, j :: 0 <= i < j < |paths| ==> paths[i] != paths[j]
    requires forall path :: removable(path)
    ensures var (after, dry) := Scan(files, paths, referenced, false, removable);
            var report := Scan(now, paths, referenced, true, removable).1;
            after == files && report.ok == dry.ok && report.items == AsApplied(dry.items)
    decreases |paths|
  {
    if paths != [] {
      var path, rest := paths[0], paths[1..];
      var file := files[path];
      if file.fit {
        if file.kind == Image && file.digest in referenced {
          DryRunIsFaithful(files, now, rest, referenced, removable);
        } else {
          DryRunIsFaithful(files, now - {path}, rest, referenced, removable);
        }
      }
    }
  }

  /** The managed files of the cache, in ascending order. */
  ghost predicate Managed(files: map<string, Cached>, paths: seq<string>)
  {
    && Ascending(paths) && (forall i, j :: 0 <= i < j < |paths| ==> paths[i] != paths[j])
    && forall path :: path in paths <==> path in files && files[path].kind != Unmanaged
  }

  ghost predicate ScansTo(files: map<string, Cached>, referenced: set<string>, apply: bool, removable: string -> bool,
                          after: map<string, Cached>, report: Report)
  {
    exists paths :: Managed(files, paths) && Scan(files, paths, referenced, apply, removable) == (after, report)
  }

  /** The paths name different managed files. */
  ghost predicate Listed(files: map<string, Cached>, paths: seq<string>)
  {
    && (forall i :: 0 <= i < |paths| ==> paths[i] in files && files[paths[i]].kind != Unmanaged)
    && forall i, j :: 0 <= i < j < |paths| ==> paths[i] != paths[j]
  }

  /** The disposable files among the paths, in order. */
  function Disposables(files: map<string, Cached>, paths: seq<string>, referenced: set<string>, apply: bool): seq<Item>
    requires forall i :: 0 <= i < |paths| ==> paths[i] in files
  {
    if paths == [] then []
    else
      var file := files[paths[0]];
      (if Disposable(file, referenced) then [Item(file.kind, paths[0], file.size, apply)] else [])
      + Disposables(files, paths[1..], referenced, apply)
  }

  lemma {:induction false} DisposablesElsewhere(files: map<string, Cached>, path: string, paths: seq<string>, referenced: set<string>, apply: bool)
    requires forall i :: 0 <= i < |paths| ==> paths[i] in files && paths[i] != path
    ensures Disposables(files - {path}, paths, referenced, apply) == Disposables(files, paths, referenced, apply)
    decreases |paths|
  {
    if paths != [] {
      DisposablesElsewhere(files, path, paths[1..], referenced, apply);
    }
  }

  /** A scan succeeds if and only if every managed file is fit and, when it deletes, every disposable one can be removed.
      It reports exactly the disposable files, in order, and the first of them when it stops early. */
  lemma {:induction false} ScanReports(files: map<string, Cached>, paths: seq<string>, referenced: set<string>, apply: bool, removable: string -> bool)
    requires Listed(files, paths)
    ensures var report := Scan(files, paths, referenced, apply, removable).1;
            && (report.ok <==> forall i :: 0 <= i < |paths| ==>
                                 files[paths[i]].fit && (apply && Disposable(files[paths[i]], referenced) ==> removable(paths[i])))
            && report.items <= Disposables(files, paths, referenced, apply)
            && (report.ok ==> report.items == Disposables(files, paths, referenced, apply))
    decreases |paths|
  {
    if paths != [] {
      var path, rest := paths[0], paths[1..];
      var file := files[path];
      assert forall i :: 0 < i < |paths| ==> paths[i] == rest[i - 1];
      if file.fit {
        if file.kind == Image && file.digest in referenced {
          ScanReports(files, rest, referenced, apply, removable);
        } else if !apply || removable(path) {
          var next := if apply then files - {path} else files;
          ScanReports(next, rest, referenced, apply, removable);
          DisposablesElsewhere(files, path, rest, referenced, apply);
        }
      }
    }
  }

  /** What a scan of the rest gives, after the items met so far. */
  ghost function Joined(items: seq<Item>, files: map<string, Cached>, rest: seq<string>, referenced: set<string>, apply: bool, removable: string -> bool): (map<string, Cached>, Report)
    requires Listed(files, rest)
  {
    var (after, report) := Scan(files, rest, referenced, apply, removable);
    (after, Report(items + report.items, report.ok))
  }

  /** One file of the scan. */
  lemma JoinedStep(items: seq<Item>, files: map<string, Cached>, rest: seq<string>, referenced: set<string>, apply: bool, removable: string -> bool)
    requires Listed(files, rest) && rest != []
    ensures var path, file := rest[0], files[rest[0]];
            var next := if apply then files - {path} else files;
            && Listed(files, rest[1..]) && Listed(next, rest[1..])
            && Joined(items, files, rest, referenced, apply, removable) ==
               if !file.fit then (files, Report(items, false))
               else if file.kind == Image && file.digest in referenced then Joined(items, files, rest[1..], referenced, apply, removable)
               else if apply && !removable(path) then (files, Report(items, false))
               else Joined(items + [Item(file.kind, path, file.size, apply)], next, rest[1..], referenced, apply, removable)
  {
    var file := files[rest[0]];
    var next := if apply then files - {rest[0]} else files;
    var report := Scan(next, rest[1..], referenced, apply, removable).1;
    assert items + [] == items;
    assert items + ([Item(file.kind, rest[0], file.size, apply)] + report.items)
           == items + [Item(file.kind, rest[0], file.size, apply)] + report.items;
  }

  lemma {:induction false} DryRunKeepsFiles(files: map<string, Cached>, paths: seq<string>, referenced: set<string>, removable: string -> bool)
    requires Listed(files, paths)
    ensures Scan(files, paths, referenced, false, removable).0 == files
    decreases |paths|
  {
    if paths != [] {
      DryRunKeepsFiles(files, paths[1..], referenced, removable);
    }
  }

  class Cache {
    var files: map<string, Cached>

    constructor (files: map<string, Cached>)
      ensures this.files == files
    {
      this.files := files;
    }

    /** The loop over the sorted files. */
    method ScanPaths(paths: seq<string>, referenced: set<string>, apply: bool, removable: string -> bool) returns (report: Report)
      requires Listed(files, paths)
      modifies this
      ensures (files, report) == Scan(old(files), paths, referenced, apply, removable)
    {
      ghost var goal := Scan(files, paths, referenced, apply, removable);
      var items: seq<Item> := [];
      assert [] + goal.1.items == goal.1.items && paths[0..] == paths;
      for i := 0 to |paths|
        invariant Listed(files, paths[i..]) && goal == Joined(items, files, paths[i..], referenced, apply, removable)
      {
        var path := paths[i];
        assert paths[i..][0] == path && paths[i..][1..] == paths[i + 1..];
        JoinedStep(items, files, paths[i..], referenced, apply, removable);
        var file := files[path];
        if !file.fit {
          return Report(items, false);
        }
        if file.kind == Staging || file.digest !in referenced {
          if apply {
            if !removable(path) {
              return Report(items, false);
            }
            files := files - {path};
          }
          items := items + [Item(file.kind, path, file.size, apply)];
        }
      }
      assert items + [] == items;
      return Report(items, true);
    }

    /** Pruning under the images lock, with the references resolved before anything is deleted. */
    method PruneImages(referenced: set<string>, apply: bool, removable: string -> bool) returns (report: Report)
      modifies this
      ensures ScansTo(old(files), referenced, apply, removable, files, report)
      ensures forall path :: path in files ==> path in old(files) && files[path] == old(files)[path]
      ensures forall path :: path in old(files) && path !in files ==> apply && Disposable(old(files)[path], referenced)
      ensures apply && report.ok ==> forall path :: path in old(files) && Disposable(old(files)[path], referenced) ==> path !in files
      ensures !apply ==> files == old(files)
    {
      var paths := Candidates(files);
      PathsDiffer(paths);
      assert Managed(files, paths);
      if apply {
        ScanRemoves(files, paths, referenced, removable);
      } else {
        DryRunKeepsFiles(files, paths, referenced, removable);
      }
      report := ScanPaths(paths, referenced, apply, removable);
    }
  }

  lemma PathsDiffer(paths: seq<string>)
    requires Ascending(paths)
    ensures forall i, j :: 0 <= i < j < |paths| ==> paths[i] != paths[j]
  {
    forall i, j | 0 <= i < j < |paths|
      ensures paths[i] != paths[j]
    {
      Versions.LessIsTotal(paths[i], paths[j]);
    }
  }
}
