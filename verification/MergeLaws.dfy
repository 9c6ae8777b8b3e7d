/** Merge resolution agrees with a simple recursive lookup and fails exactly on a bad merge path. */
module MergeLaws {
  import opened Wrappers
  import opened Collections
  import opened YamlGraph

  // ---------------------------------------------------------------- the simple lookup

  /** Explicit keys first, then the merge sources from the first to the last. */
  function Find(doc: Doc, id: Id, key: string, fuel: nat): Option<Id>
    requires id in doc
    decreases fuel, 0
  {
    if fuel == 0 || !Proper(doc, id) then None
    else if Get(Own(doc, id), key).Some? then Get(Own(doc, id), key)
    else FindFirst(doc, Sources(doc, id), key, fuel - 1)
  }

  function FindFirst(doc: Doc, sources: seq<Id>, key: string, fuel: nat): Option<Id>
    requires forall i :: 0 <= i < |sources| ==> sources[i] in doc
    decreases fuel, 1 + |sources|
  {
    if sources == [] then None
    else if Find(doc, sources[0], key, fuel).Some? then Find(doc, sources[0], key, fuel)
    else FindFirst(doc, sources[1..], key, fuel)
  }

  lemma {:induction false} GetIsMembership(entries: seq<Entry>, key: string)
    ensures Get(entries, key).Some? <==> HasKey(entries, key)
  {
    if entries != [] {
      GetIsMembership(entries[1..], key);
      if HasKey(entries, key) && entries[0].key != key {
        var i :| 0 <= i < |entries| && entries[i].key == key;
        assert entries[1..][i - 1].key == key;
      }
      if HasKey(entries[1..], key) {
        var i :| 0 <= i < |entries[1..]| && entries[1..][i].key == key;
        assert entries[i + 1].key == key;
      }
    }
  }

  lemma {:induction false} GetAppended(entries: seq<Entry>, last: Entry, key: string)
    ensures Get(entries + [last], key) ==
            if Get(entries, key).Some? then Get(entries, key) else if last.key == key then Some(last.value) else None
  {
    if entries != [] {
      assert (entries + [last])[1..] == entries[1..] + [last];
      GetAppended(entries[1..], last, key);
    }
  }

  lemma {:induction false} GetExtended(entries: seq<Entry>, merged: seq<Entry>, key: string)
    ensures Get(Extend(entries, merged), key) == if Get(entries, key).Some? then Get(entries, key) else Get(merged, key)
    decreases |merged|
  {
    if merged != [] {
      var next := if HasKey(entries, merged[0].key) then entries else entries + [merged[0]];
      GetAppended(entries, merged[0], key);
      GetIsMembership(entries, merged[0].key);
      GetExtended(next, merged[1..], key);
    }
  }

  predicate EachKeyOnce(entries: seq<Entry>)
  {
    forall i, j :: 0 <= i < j < |entries| ==> entries[i].key != entries[j].key
  }

  lemma {:induction false} ExtendedKeysOnce(entries: seq<Entry>, merged: seq<Entry>)
    requires EachKeyOnce(entries)
    ensures EachKeyOnce(Extend(entries, merged))
    decreases |merged|
  {
    if merged != [] {
      ExtendedKeysOnce(if HasKey(entries, merged[0].key) then entries else entries + [merged[0]], merged[1..]);
    }
  }

  lemma {:induction false} ExplicitKeysOnce(doc: Doc, pairs: seq<Pair>)
    requires forall i :: 0 <= i < |pairs| ==> PairIn(doc, pairs[i])
    requires Explicit(doc, pairs).Some?
    ensures EachKeyOnce(Explicit(doc, pairs).value)
  {
    if pairs != [] {
      assert PairIn(doc, pairs[|pairs| - 1]);
      ExplicitKeysOnce(doc, pairs[..|pairs| - 1]);
    }
  }

  lemma {:induction false} EffectiveIsFind(doc: Doc, id: Id, visiting: set<Id>, key: string, fuel: nat)
    requires id in doc && Effective(doc, id, visiting).Some? && fuel >= |doc.Keys - visiting|
    ensures EachKeyOnce(Effective(doc, id, visiting).value)
    ensures Get(Effective(doc, id, visiting).value, key) == Find(doc, id, key, fuel)
    decreases |doc.Keys - visiting|, 0
  {
    if !Blank(doc[id]) {
      var inner := visiting + {id};
      assert doc.Keys - inner < doc.Keys - visiting;
      Smaller(doc.Keys - inner, doc.Keys - visiting);
      ExplicitKeysOnce(doc, PairsOf(doc, id));
      MergeAllIsFind(doc, Own(doc, id), Sources(doc, id), inner, key, fuel - 1);
    }
  }

  lemma {:induction false} MergeAllIsFind(doc: Doc, entries: seq<Entry>, sources: seq<Id>, visiting: set<Id>, key: string, fuel: nat)
    requires forall i :: 0 <= i < |sources| ==> sources[i] in doc
    requires MergeAll(doc, entries, sources, visiting).Some? && fuel >= |doc.Keys - visiting| && EachKeyOnce(entries)
    ensures EachKeyOnce(MergeAll(doc, entries, sources, visiting).value)
    ensures Get(MergeAll(doc, entries, sources, visiting).value, key) ==
            if Get(entries, key).Some? then Get(entries, key) else FindFirst(doc, sources, key, fuel)
    decreases |doc.Keys - visiting|, 1 + |sources|
  {
    if sources != [] {
      var merged := Effective(doc, sources[0], visiting).value;
      EffectiveIsFind(doc, sources[0], visiting, key, fuel);
      GetExtended(entries, merged, key);
      ExtendedKeysOnce(entries, merged);
      MergeAllIsFind(doc, Extend(entries, merged), sources[1..], visiting, key, fuel);
    }
  }

  /** What merge resolution returns: each key once, and for every key the value of the simple lookup. */
  lemma EntriesAreLookup(doc: Doc, id: Id, key: string)
    requires id in doc && Effective(doc, id, {}).Some?
    ensures var entries := Effective(doc, id, {}).value;
            EachKeyOnce(entries) && Get(entries, key) == Find(doc, id, key, |doc|)
  {
    assert doc.Keys - {} == doc.Keys;
    EffectiveIsFind(doc, id, {}, key, |doc|);
  }

  // ---------------------------------------------------------------- when it fails

  /** A node that merge resolution cannot accept. */
  predicate Malformed(doc: Doc, id: Id)
    requires id in doc
  {
    !Blank(doc[id]) && !Proper(doc, id)
  }

  /** Each node after the first is a merge source of the one before it. */
  predicate MergePath(doc: Doc, path: seq<Id>)
  {
    && path != [] && (forall i :: 0 <= i < |path| ==> path[i] in doc)
    && forall i :: 0 <= i < |path| - 1 ==> Proper(doc, path[i]) && path[i + 1] in Sources(doc, path[i])
  }

  /** The path ends at a malformed node, or at one of the nodes that block. */
  predicate Stops(doc: Doc, path: seq<Id>, blocked: set<Id>)
    requires MergePath(doc, path)
  {
    var last := path[|path| - 1];
    Malformed(doc, last) || (!Blank(doc[last]) && (last in blocked || last in path[..|path| - 1]))
  }

  lemma MergePathStep(doc: Doc, id: Id, path: seq<Id>)
    requires id in doc && Proper(doc, id) && MergePath(doc, path) && path[0] in Sources(doc, id)
    ensures MergePath(doc, [id] + path)
  {
    var longer := [id] + path;
    forall i | 0 <= i < |longer| - 1
      ensures Proper(doc, longer[i]) && longer[i + 1] in Sources(doc, longer[i])
    {
      if i > 0 {
        assert longer[i] == path[i - 1] && longer[i + 1] == path[i];
      }
    }
  }

  lemma StopsLonger(doc: Doc, id: Id, rest: seq<Id>, blocked: set<Id>)
    requires MergePath(doc, rest) && MergePath(doc, [id] + rest) && Stops(doc, rest, blocked + {id})
    ensures Stops(doc, [id] + rest, blocked)
  {
    var path := [id] + rest;
    assert path[|path| - 1] == rest[|rest| - 1];
    assert path[..|path| - 1] == [id] + rest[..|rest| - 1];
  }

  lemma {:induction false} FailureHasPath(doc: Doc, id: Id, visiting: set<Id>) returns (path: seq<Id>)
    requires id in doc && Effective(doc, id, visiting).None?
    ensures MergePath(doc, path) && path[0] == id && Stops(doc, path, visiting)
    decreases |doc.Keys - visiting|, 0
  {
    if id in visiting || !Proper(doc, id) {
      path := [id];
    } else {
      var inner := visiting + {id};
      assert doc.Keys - inner < doc.Keys - visiting;
      Smaller(doc.Keys - inner, doc.Keys - visiting);
      var source, rest := SourceFails(doc, Own(doc, id), Sources(doc, id), inner);
      MergePathStep(doc, id, rest);
      path := [id] + rest;
      StopsLonger(doc, id, rest, visiting);
    }
  }

  lemma {:induction false} SourceFails(doc: Doc, entries: seq<Entry>, sources: seq<Id>, visiting: set<Id>) returns (source: Id, path: seq<Id>)
    requires forall i :: 0 <= i < |sources| ==> sources[i] in doc
    requires MergeAll(doc, entries, sources, visiting).None?
    ensures source in sources && MergePath(doc, path) && path[0] == source && Stops(doc, path, visiting)
    decreases |doc.Keys - visiting|, 1 + |sources|
  {
    if Effective(doc, sources[0], visiting).None? {
      source := sources[0];
      path := FailureHasPath(doc, sources[0], visiting);
    } else {
      source, path := SourceFails(doc, Extend(entries, Effective(doc, sources[0], visiting).value), sources[1..], visiting);
    }
  }

  lemma {:induction false} SourceSucceeds(doc: Doc, entries: seq<Entry>, sources: seq<Id>, visiting: set<Id>, source: Id)
    requires forall i :: 0 <= i < |sources| ==> sources[i] in doc
    requires MergeAll(doc, entries, sources, visiting).Some? && source in sources
    ensures Effective(doc, source, visiting).Some?
    decreases |sources|
  {
    if source != sources[0] {
      SourceSucceeds(doc, Extend(entries, Effective(doc, sources[0], visiting).value), sources[1..], visiting, source);
    }
  }

  lemma {:induction false} SuccessHasNoPath(doc: Doc, id: Id, visiting: set<Id>, path: seq<Id>)
    requires id in doc && Effective(doc, id, visiting).Some? && MergePath(doc, path) && path[0] == id
    ensures !Stops(doc, path, visiting)
    ensures forall i :: 0 <= i < |path| && path[i] in visiting ==> Blank(doc[path[i]])
    decreases |path|
  {
    if |path| > 1 {
      var rest := path[1..];
      assert MergePath(doc, rest) by {
        assert forall i :: 0 <= i < |rest| ==> rest[i] == path[i + 1];
      }
      SourceSucceeds(doc, Own(doc, id), Sources(doc, id), visiting + {id}, path[1]);
      SuccessHasNoPath(doc, path[1], visiting + {id}, rest);
      var last := path[|path| - 1];
      assert rest[|rest| - 1] == last;
      forall i | 0 <= i < |path| && path[i] in visiting
        ensures Blank(doc[path[i]])
      {
        if i > 0 {
          assert rest[i - 1] == path[i];
        }
      }
      assert path[..|path| - 1] == [id] + rest[..|rest| - 1];
    }
  }

  /** Merge resolution fails exactly when some merge path from the node ends at a malformed mapping or returns to a
      node of the path: every cycle it can reach is an error, and shared sources that do not cycle are not. */
  lemma FailsExactlyOnBadPaths(doc: Doc, id: Id)
    requires id in doc
    ensures Effective(doc, id, {}).None? <==> exists path :: MergePath(doc, path) && path[0] == id && Stops(doc, path, {})
  {
    if Effective(doc, id, {}).None? {
      var path := FailureHasPath(doc, id, {});
    } else {
      forall path | MergePath(doc, path) && path[0] == id
        ensures !Stops(doc, path, {})
      {
        SuccessHasNoPath(doc, id, {}, path);
      }
    }
  }
}
