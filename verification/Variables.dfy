/** The layered variables of an inventory: the deepest group wins, and the host's own value beats every group. */
module Variables {
  import opened YamlGraph

  const MAX_DEPTH := 64
  const HOST_DEPTH := 0x100000

  datatype Source = Source(origin: string, depth: nat, vars: map<string, Id>)

  datatype Host = Host(address: string, sources: seq<Source>)

  datatype Lookup = Missing | Value(node: Id, origin: string) | Conflict

  /** Whether two nodes hold the same value; undecodable nodes are not even equal to themselves. */
  type Same = (Id, Id) -> bool

  // ---------------------------------------------------------------- lookup

  /** Source i is the first of the deepest ones that have the key. */
  predicate Wins(sources: seq<Source>, key: string, i: nat)
  {
    && i < |sources| && key in sources[i].vars
    && (forall j :: 0 <= j < |sources| && key in sources[j].vars ==> sources[j].depth <= sources[i].depth)
    && forall j :: 0 <= j < i && key in sources[j].vars ==> sources[j].depth < sources[i].depth
  }

  /** Every later value at the winner's depth equals it. */
  predicate Unanimous(sources: seq<Source>, key: string, same: Same, i: nat)
    requires i < |sources| && key in sources[i].vars
  {
    forall j :: i < j < |sources| && key in sources[j].vars && sources[j].depth == sources[i].depth ==>
      same(sources[i].vars[key], sources[j].vars[key])
  }

  /** What a lookup must return. */
  ghost predicate LooksUp(sources: seq<Source>, key: string, same: Same, result: Lookup)
  {
    match result
    case Missing => forall i :: 0 <= i < |sources| ==> key !in sources[i].vars
    case Value(node, origin) =>
      exists i: nat :: Wins(sources, key, i) && Unanimous(sources, key, same, i)
                  && node == sources[i].vars[key] && origin == sources[i].origin
    case Conflict => exists i: nat :: Wins(sources, key, i) && !Unanimous(sources, key, same, i)
  }

  lemma LookupIsUnique(sources: seq<Source>, key: string, same: Same, first: Lookup, second: Lookup)
    requires LooksUp(sources, key, same, first) && LooksUp(sources, key, same, second)
    ensures first == second
  {
    forall i: nat, j: nat | Wins(sources, key, i) && Wins(sources, key, j)
      ensures i == j
    {
    }
  }

  /** What the scan remembers: the first value at the greatest depth so far, and whether another one differs. */
  datatype Best = Nothing | Best(depth: nat, node: Id, origin: string, conflict: bool)

  function Scan(sources: seq<Source>, key: string, same: Same): Best
  {
    if sources == [] then Nothing
    else Weigh(Scan(sources[..|sources| - 1], key, same), sources[|sources| - 1], key, same)
  }

  function Weigh(best: Best, source: Source, key: string, same: Same): Best
  {
    if key !in source.vars then best
    else if best == Nothing || source.depth > best.depth then Best(source.depth, source.vars[key], source.origin, false)
    else if source.depth == best.depth then best.(conflict := best.conflict || !same(best.node, source.vars[key]))
    else best
  }

  function Report(best: Best): Lookup
  {
    if best == Nothing then Missing else if best.conflict then Conflict else Value(best.node, best.origin)
  }

  method FindVariable(sources: seq<Source>, key: string, same: Same) returns (result: Lookup)
    ensures result == Report(Scan(sources, key, same))
    ensures LooksUp(sources, key, same, result)
  {
    var bestDepth: int := -1;
    var winner: Id, origin: string := 0, "";
    var conflict := false;
    for i := 0 to |sources|
      invariant Scan(sources[..i], key, same) == if bestDepth < 0 then Nothing else Best(bestDepth, winner, origin, conflict)
    {
      assert sources[..i + 1][..i] == sources[..i];
      var source := sources[i];
      if key in source.vars {
        if source.depth > bestDepth {
          bestDepth, winner, origin, conflict := source.depth, source.vars[key], source.origin, false;
        } else if source.depth == bestDepth {
          conflict := conflict || !same(winner, source.vars[key]);
        }
      }
    }
    assert sources[..|sources|] == sources;
    ScanLooksUp(sources, key, same);
    return if bestDepth < 0 then Missing else if conflict then Conflict else Value(winner, origin);
  }

  /** The scan's memory describes the winner. */
  lemma {:induction false} ScanWinner(sources: seq<Source>, key: string, same: Same) returns (i: nat)
    ensures var best := Scan(sources, key, same);
            if best == Nothing then forall j :: 0 <= j < |sources| ==> key !in sources[j].vars
            else
              && Wins(sources, key, i)
              && best.depth == sources[i].depth && best.node == sources[i].vars[key] && best.origin == sources[i].origin
              && (best.conflict <==> !Unanimous(sources, key, same, i))
  {
    i := 0;
    if sources != [] {
      var n := |sources| - 1;
      var front, last := sources[..n], sources[n];
      i := ScanWinner(front, key, same);
      var before, after := Scan(front, key, same), Scan(sources, key, same);
      if key in last.vars && (before == Nothing || last.depth > before.depth) {
        i := n;
        assert forall j :: 0 <= j < n ==> front[j] == sources[j];
      } else if before != Nothing {
        assert front[i] == sources[i];
        assert Unanimous(sources, key, same, i) <==>
          Unanimous(front, key, same, i) && (key in last.vars && last.depth == sources[i].depth ==> same(sources[i].vars[key], last.vars[key])) by {
          assert forall j :: 0 <= j < n ==> front[j] == sources[j];
        }
      }
    }
  }

  lemma ScanLooksUp(sources: seq<Source>, key: string, same: Same)
    ensures LooksUp(sources, key, same, Report(Scan(sources, key, same)))
  {
    var i := ScanWinner(sources, key, same);
  }

  // ---------------------------------------------------------------- duplicates

  predicate Known(sources: seq<Source>, source: Source)
  {
    exists i :: 0 <= i < |sources| && sources[i].origin == source.origin && sources[i].depth == source.depth
  }

  /** The first source of every origin and depth. */
  function Dedupe(sources: seq<Source>): seq<Source>
  {
    if sources == [] then []
    else
      var front := Dedupe(sources[..|sources| - 1]);
      var last := sources[|sources| - 1];
      if Known(front, last) then front else front + [last]
  }

  method DedupeSources(sources: seq<Source>) returns (kept: seq<Source>)
    ensures kept == Dedupe(sources)
  {
    kept := [];
    var seen: set<(string, nat)> := {};
    for i := 0 to |sources|
      invariant kept == Dedupe(sources[..i])
      invariant forall source: Source :: (source.origin, source.depth) in seen <==> Known(kept, source)
    {
      assert sources[..i + 1][..i] == sources[..i];
      var source := sources[i];
      if (source.origin, source.depth) !in seen {
        seen := seen + {(source.origin, source.depth)};
        KnownAppend(kept, source);
        kept := kept + [source];
      }
    }
    assert sources[..|sources|] == sources;
  }

  lemma KnownAppend(sources: seq<Source>, last: Source)
    ensures forall source :: Known(sources + [last], source)
                             <==> Known(sources, source) || (source.origin == last.origin && source.depth == last.depth)
  {
    forall source
      ensures Known(sources + [last], source)
              <==> Known(sources, source) || (source.origin == last.origin && source.depth == last.depth)
    {
      if Known(sources, source) {
        var i :| 0 <= i < |sources| && sources[i].origin == source.origin && sources[i].depth == source.depth;
        assert (sources + [last])[i] == sources[i];
      }
      assert (sources + [last])[|sources|] == last;
    }
  }

  /** Sources of one origin and depth are the same contribution, and the values they give equal themselves. */
  ghost predicate Coherent(sources: seq<Source>, key: string, same: Same)
  {
    && (forall i, j :: 0 <= i < |sources| && 0 <= j < |sources| && sources[i].origin == sources[j].origin && sources[i].depth == sources[j].depth ==>
          sources[i].vars == sources[j].vars)
    && forall i :: 0 <= i < |sources| && key in sources[i].vars ==> same(sources[i].vars[key], sources[i].vars[key])
  }

  lemma {:induction false} KnownInBoth(sources: seq<Source>, source: Source)
    ensures Known(Dedupe(sources), source) <==> Known(sources, source)
  {
    if sources != [] {
      var front, last := sources[..|sources| - 1], sources[|sources| - 1];
      KnownInBoth(front, source);
      KnownInBoth(front, last);
      KnownAppend(front, last);
      KnownAppend(Dedupe(front), last);
      assert sources == front + [last];
    }
  }

  /** A source that repeats an earlier contribution does not change the scan. */
  lemma RepeatIsIdle(front: seq<Source>, last: Source, key: string, same: Same)
    requires Known(front, last) && Coherent(front + [last], key, same)
    ensures Weigh(Scan(front, key, same), last, key, same) == Scan(front, key, same)
  {
    var all := front + [last];
    var k :| 0 <= k < |front| && front[k].origin == last.origin && front[k].depth == last.depth;
    assert all[k] == front[k] && all[|front|] == last;
    assert front[k].vars == last.vars;
    if key in last.vars {
      var i := ScanWinner(front, key, same);
      assert all[i] == front[i];
      if front[k].depth == front[i].depth && k != i {
        assert i < k;
      }
    }
  }

  /** Reading the deduplicated sources gives the same result as reading all of them, when sources that share origin
      and depth are one and the same contribution. */
  lemma {:induction false} DedupeKeepsLookup(sources: seq<Source>, key: string, same: Same)
    requires Coherent(sources, key, same)
    ensures Scan(Dedupe(sources), key, same) == Scan(sources, key, same)
  {
    if sources != [] {
      var front, last := sources[..|sources| - 1], sources[|sources| - 1];
      assert sources == front + [last];
      assert Coherent(front, key, same) by {
        assert forall i :: 0 <= i < |front| ==> front[i] == sources[i];
      }
      DedupeKeepsLookup(front, key, same);
      KnownInBoth(front, last);
      if Known(front, last) {
        RepeatIsIdle(front, last, key, same);
      } else {
        assert (Dedupe(front) + [last])[..|Dedupe(front)|] == Dedupe(front);
      }
    }
  }

  // ---------------------------------------------------------------- exactly when deduplication is faithful

  /** No earlier source has the same origin and depth: deduplication keeps this one. */
  predicate First(sources: seq<Source>, i: nat)
  {
    i < |sources| && !Known(sources[..i], sources[i])
  }

  /** Source j speaks against source i, of the same depth. */
  predicate Rival(sources: seq<Source>, key: string, same: Same, i: nat, j: nat)
  {
    && i < j < |sources| && key in sources[i].vars && key in sources[j].vars && sources[j].depth == sources[i].depth
    && !same(sources[i].vars[key], sources[j].vars[key])
  }

  ghost predicate Contested(sources: seq<Source>, key: string, same: Same, i: nat)
  {
    exists j: nat :: First(sources, j) && Rival(sources, key, same, i, j)
  }

  /** Source k is the first of the deepest kept ones that have the key. */
  predicate KeptWins(sources: seq<Source>, key: string, k: nat)
  {
    && First(sources, k) && key in sources[k].vars
    && (forall j :: 0 <= j < |sources| && First(sources, j) && key in sources[j].vars ==> sources[j].depth <= sources[k].depth)
    && forall j :: 0 <= j < k && First(sources, j) && key in sources[j].vars ==> sources[j].depth < sources[k].depth
  }

  /** Source k is source i, or belongs to a shallower group of the same name that holds the very same node. */
  predicate StandsFor(sources: seq<Source>, key: string, k: nat, i: nat)
    requires k < |sources| && i < |sources| && key in sources[k].vars && key in sources[i].vars
  {
    k == i
    || (sources[k].depth < sources[i].depth && sources[k].origin == sources[i].origin && sources[k].vars[key] == sources[i].vars[key])
  }

  /** The deepest kept sources decide as the deepest ones do: an undisputed winner is kept, or a kept source stands for
      it, and no kept source disputes that one; a disputed winner leaves a dispute among the kept sources. */
  ghost predicate DropsAreIdle(sources: seq<Source>, key: string, same: Same)
  {
    forall i: nat :: Wins(sources, key, i) ==>
      exists k: nat :: KeptWins(sources, key, k) &&
        if Unanimous(sources, key, same, i) then StandsFor(sources, key, k, i) && !Contested(sources, key, same, k)
        else Contested(sources, key, same, k)
  }

  lemma FirstInFront(sources: seq<Source>, i: nat)
    requires i + 1 < |sources|
    ensures First(sources, i) <==> First(sources[..|sources| - 1], i)
  {
    assert sources[..|sources| - 1][..i] == sources[..i];
  }

  /** best describes source k, the winner among the kept ones. */
  ghost predicate Remembers(sources: seq<Source>, key: string, same: Same, best: Best, k: nat)
  {
    if best == Nothing then forall j :: 0 <= j < |sources| && First(sources, j) ==> key !in sources[j].vars
    else
      && KeptWins(sources, key, k)
      && best.depth == sources[k].depth && best.node == sources[k].vars[key] && best.origin == sources[k].origin
      && (best.conflict <==> Contested(sources, key, same, k))
  }

  /** What the scan of the deduplicated sources remembers, in terms of all the sources. */
  lemma {:induction false} KeptWinner(sources: seq<Source>, key: string, same: Same) returns (k: nat)
    ensures Remembers(sources, key, same, Scan(Dedupe(sources), key, same), k)
  {
    k := 0;
    if sources != [] {
      var front, last := sources[..|sources| - 1], sources[|sources| - 1];
      assert sources == front + [last];
      k := KeptWinner(front, key, same);
      var kept := Dedupe(front);
      var before := Scan(kept, key, same);
      KnownInBoth(front, last);
      assert First(sources, |front|) <==> !Known(kept, last);
      assert (kept + [last])[..|kept|] == kept;
      KeptStep(front, last, key, same, before, k);
      if !Known(kept, last) && key in last.vars && (before == Nothing || last.depth > before.depth) {
        k := |front|;
      }
    }
  }

  lemma KeptStep(front: seq<Source>, last: Source, key: string, same: Same, before: Best, k: nat)
    requires Remembers(front, key, same, before, k)
    ensures var sources := front + [last];
            if First(sources, |front|) then
              Remembers(sources, key, same, Weigh(before, last, key, same),
                        if key in last.vars && (before == Nothing || last.depth > before.depth) then |front| else k)
            else Remembers(sources, key, same, before, k)
  {
    var sources := front + [last];
    assert sources[..|front|] == front;
    forall j: nat | j < |front|
      ensures front[j] == sources[j] && (First(sources, j) <==> First(front, j))
    {
      FirstInFront(sources, j);
    }
    if before != Nothing {
      ContestedStep(front, last, key, same, k);
    }
  }

  lemma ContestedStep(front: seq<Source>, last: Source, key: string, same: Same, k: nat)
    requires k < |front| && key in front[k].vars
    ensures Contested(front + [last], key, same, k) <==>
              Contested(front, key, same, k) || (First(front + [last], |front|) && Rival(front + [last], key, same, k, |front|))
  {
    var sources := front + [last];
    assert sources[..|front|] == front;
    forall j: nat | j < |front|
      ensures front[j] == sources[j] && (First(sources, j) <==> First(front, j))
    {
      FirstInFront(sources, j);
    }
    if Contested(front, key, same, k) {
      var j: nat :| First(front, j) && Rival(front, key, same, k, j);
      assert Rival(sources, key, same, k, j);
    }
    if Contested(sources, key, same, k) {
      var j: nat :| First(sources, j) && Rival(sources, key, same, k, j);
      assert j < |front| ==> Rival(front, key, same, k, j);
    }
  }

  /** Looking up in the deduplicated sources gives the same answer as looking up in all of them, if and only if the
      dropped sources are idle for the key. */
  lemma DedupeIsExact(sources: seq<Source>, key: string, same: Same)
    ensures Report(Scan(Dedupe(sources), key, same)) == Report(Scan(sources, key, same)) <==> DropsAreIdle(sources, key, same)
  {
    var i := ScanWinner(sources, key, same);
    var k := KeptWinner(sources, key, same);
    var all, kept := Scan(sources, key, same), Scan(Dedupe(sources), key, same);
    if all != Nothing {
      forall other: nat | Wins(sources, key, other)
        ensures other == i
      {
      }
      if kept != Nothing {
        forall other: nat | KeptWins(sources, key, other)
          ensures other == k
        {
        }
        assert sources[k].depth == sources[i].depth && sources[k].origin == sources[i].origin ==> k == i;
      }
    }
  }

  /** Without that condition deduplication hides conflicts: two different groups of one name at one depth count as
      one, and the first of them decides. */
  lemma NamesakesHideConflict(vars: map<string, Id>, others: map<string, Id>, key: string, same: Same, name: string, depth: nat)
    requires key in vars && key in others && !same(vars[key], others[key])
    ensures var sources := [Source(name, depth, vars), Source(name, depth, others)];
            && LooksUp(sources, key, same, Conflict)
            && LooksUp(Dedupe(sources), key, same, Value(vars[key], name))
  {
    var first, second := Source(name, depth, vars), Source(name, depth, others);
    var sources := [first, second];
    assert sources[..1] == [first] && [first][..0] == [];
    assert Dedupe([first]) == [first] && [first][0] == first;
    assert Known([first], second);
    assert Scan([first], key, same) == Best(depth, vars[key], name, false);
    ScanLooksUp(sources, key, same);
    ScanLooksUp([first], key, same);
  }

  /** A host-level value wins over every group: no group is nested as deep as host level. */
  lemma HostLevelWins(sources: seq<Source>, key: string, same: Same, h: nat)
    requires forall i :: 0 <= i < |sources| ==> sources[i].depth <= MAX_DEPTH || sources[i].depth == HOST_DEPTH
    requires h < |sources| && sources[h].depth == HOST_DEPTH && key in sources[h].vars
    ensures Scan(sources, key, same) != Nothing && Scan(sources, key, same).depth == HOST_DEPTH
  {
    var i := ScanWinner(sources, key, same);
  }
}
