/** What one mapping says by itself, in terms of the keys and values at the positions of its content: which mappings are
    well formed, their explicit entries, and the sources that their merge key names. */
module MappingLaws {
  import opened Wrappers
  import opened YamlGraph
  import opened MergeLaws

  // ---------------------------------------------------------------- pairs by position

  predicate Inside(doc: Doc, pairs: seq<Pair>)
  {
    forall k :: 0 <= k < |pairs| ==> PairIn(doc, pairs[k])
  }

  lemma {:induction false} PairsByPosition(content: seq<Id>)
    ensures |Pairs(content)| == |content| / 2
    ensures forall k :: 0 <= k < |content| / 2 ==> Pairs(content)[k] == Pair(content[2 * k], content[2 * k + 1])
    decreases |content|
  {
    if |content| >= 2 {
      var rest := content[2..];
      PairsByPosition(rest);
      forall k | 0 < k < |content| / 2
        ensures Pairs(content)[k] == Pair(content[2 * k], content[2 * k + 1])
      {
        assert Pairs(content)[k] == Pairs(rest)[k - 1];
        assert rest[2 * (k - 1)] == content[2 * k] && rest[2 * (k - 1) + 1] == content[2 * k + 1];
      }
    }
  }

  predicate IsMerge(node: Node)
  {
    node.kind == Scalar && node.value == "<<" && (node.tag == "" || node.tag == "!!merge")
  }

  predicate Merging(doc: Doc, pair: Pair)
  {
    PairIn(doc, pair) && IsMerge(doc[pair.key])
  }

  /** The pair gives the key a value. */
  predicate Gives(doc: Doc, pair: Pair, key: string, value: Id)
  {
    PairIn(doc, pair) && !IsMerge(doc[pair.key]) && doc[pair.key].value == key && Resolved(doc, pair.value) == Some(value)
  }

  predicate GivenBy(doc: Doc, pairs: seq<Pair>, key: string, value: Id)
  {
    exists k :: 0 <= k < |pairs| && Gives(doc, pairs[k], key, value)
  }

  /** A key that is not a merge key is a scalar, and its value resolves. */
  predicate Sound(doc: Doc, pair: Pair)
  {
    PairIn(doc, pair) && (IsMerge(doc[pair.key]) || (doc[pair.key].kind == Scalar && Resolved(doc, pair.value).Some?))
  }

  predicate SameKey(doc: Doc, first: Pair, second: Pair)
  {
    && PairIn(doc, first) && PairIn(doc, second) && !IsMerge(doc[first.key]) && !IsMerge(doc[second.key])
    && doc[first.key].value == doc[second.key].value
  }

  predicate KeysSound(doc: Doc, pairs: seq<Pair>)
  {
    && (forall k :: 0 <= k < |pairs| ==> Sound(doc, pairs[k]))
    && forall j, k :: 0 <= j < k < |pairs| ==> !SameKey(doc, pairs[j], pairs[k])
  }

  predicate AlreadyThere(doc: Doc, pairs: seq<Pair>, pair: Pair)
  {
    exists j :: 0 <= j < |pairs| && SameKey(doc, pairs[j], pair)
  }

  predicate SomeMerges(doc: Doc, pairs: seq<Pair>)
  {
    exists k :: 0 <= k < |pairs| && Merging(doc, pairs[k])
  }

  predicate TwoMerge(doc: Doc, pairs: seq<Pair>)
  {
    exists j, k :: 0 <= j < k < |pairs| && Merging(doc, pairs[j]) && Merging(doc, pairs[k])
  }

  // ---------------------------------------------------------------- one more pair

  lemma GivenByOneMore(doc: Doc, front: seq<Pair>, last: Pair, key: string, value: Id)
    ensures GivenBy(doc, front + [last], key, value) <==> GivenBy(doc, front, key, value) || Gives(doc, last, key, value)
  {
    var pairs := front + [last];
    assert pairs[|front|] == last && forall k :: 0 <= k < |front| ==> pairs[k] == front[k];
  }

  lemma KeysSoundOneMore(doc: Doc, front: seq<Pair>, last: Pair)
    ensures KeysSound(doc, front + [last]) <==> KeysSound(doc, front) && Sound(doc, last) && !AlreadyThere(doc, front, last)
  {
    var pairs := front + [last];
    assert pairs[|front|] == last && forall k :: 0 <= k < |front| ==> pairs[k] == front[k];
  }

  lemma MergesOneMore(doc: Doc, front: seq<Pair>, last: Pair)
    ensures SomeMerges(doc, front + [last]) <==> SomeMerges(doc, front) || Merging(doc, last)
    ensures TwoMerge(doc, front + [last]) <==> TwoMerge(doc, front) || (SomeMerges(doc, front) && Merging(doc, last))
  {
    var pairs := front + [last];
    assert pairs[|front|] == last && forall k :: 0 <= k < |front| ==> pairs[k] == front[k];
  }

  // ---------------------------------------------------------------- explicit entries

  /** The entries are exactly what the pairs give. */
  ghost predicate Matches(doc: Doc, pairs: seq<Pair>, entries: seq<Entry>)
  {
    forall key, value: Id :: Get(entries, key) == Some(value) <==> GivenBy(doc, pairs, key, value)
  }

  lemma {:induction false} ExplicitIsExact(doc: Doc, pairs: seq<Pair>)
    requires Inside(doc, pairs)
    ensures Explicit(doc, pairs).Some? <==> KeysSound(doc, pairs)
    ensures Explicit(doc, pairs).Some? ==> Matches(doc, pairs, Explicit(doc, pairs).value)
    decreases |pairs|
  {
    if pairs != [] {
      var front, last := pairs[..|pairs| - 1], pairs[|pairs| - 1];
      assert pairs == front + [last] && PairIn(doc, last);
      KeysSoundOneMore(doc, front, last);
      ExplicitIsExact(doc, front);
      if Explicit(doc, front).Some? {
        WithPairIsExact(doc, front, last, Explicit(doc, front).value);
      }
    }
  }

  lemma WithPairIsExact(doc: Doc, front: seq<Pair>, last: Pair, entries: seq<Entry>)
    requires PairIn(doc, last) && KeysSound(doc, front) && Matches(doc, front, entries)
    ensures WithPair(doc, entries, last).Some? <==> Sound(doc, last) && !AlreadyThere(doc, front, last)
    ensures WithPair(doc, entries, last).Some? ==> Matches(doc, front + [last], WithPair(doc, entries, last).value)
  {
    if !IsMerge(doc[last.key]) {
      ThereIsMember(doc, front, last, entries);
      GetIsMembership(entries, doc[last.key].value);
    }
    if WithPair(doc, entries, last).Some? {
      forall key, value: Id
        ensures Get(WithPair(doc, entries, last).value, key) == Some(value) <==> GivenBy(doc, front + [last], key, value)
      {
        GivenByOneMore(doc, front, last, key, value);
        if !IsMerge(doc[last.key]) {
          GetAppended(entries, Entry(doc[last.key].value, Resolved(doc, last.value).value), key);
        }
      }
    }
  }

  lemma ThereIsMember(doc: Doc, front: seq<Pair>, last: Pair, entries: seq<Entry>)
    requires PairIn(doc, last) && !IsMerge(doc[last.key]) && KeysSound(doc, front) && Matches(doc, front, entries)
    ensures Get(entries, doc[last.key].value).Some? <==> AlreadyThere(doc, front, last)
  {
    var key := doc[last.key].value;
    if Get(entries, key).Some? {
      var k :| 0 <= k < |front| && Gives(doc, front[k], key, Get(entries, key).value);
      assert SameKey(doc, front[k], last);
    }
    if j :| 0 <= j < |front| && SameKey(doc, front[j], last) {
      assert Sound(doc, front[j]);
      assert Gives(doc, front[j], key, Resolved(doc, front[j].value).value);
      assert GivenBy(doc, front, key, Resolved(doc, front[j].value).value);
    }
  }

  // ---------------------------------------------------------------- merge sources

  lemma {:induction false} MergesAreExact(doc: Doc, pairs: seq<Pair>)
    requires Inside(doc, pairs)
    ensures Merges(doc, pairs) != [] <==> SomeMerges(doc, pairs)
    ensures |Merges(doc, pairs)| > 1 <==> TwoMerge(doc, pairs)
    ensures |Merges(doc, pairs)| == 1 ==> forall k :: 0 <= k < |pairs| && Merging(doc, pairs[k]) ==> Merges(doc, pairs)[0] == pairs[k].value
    decreases |pairs|
  {
    if pairs != [] {
      var front, last := pairs[..|pairs| - 1], pairs[|pairs| - 1];
      assert pairs == front + [last] && PairIn(doc, last);
      MergesOneMore(doc, front, last);
      MergesAreExact(doc, front);
      if |Merges(doc, pairs)| == 1 {
        forall k | 0 <= k < |pairs| && Merging(doc, pairs[k])
          ensures Merges(doc, pairs)[0] == pairs[k].value
        {
          assert k < |front| ==> front[k] == pairs[k];
        }
      }
    }
  }

  predicate IsMapping(doc: Doc, item: Id, target: Id)
    requires item in doc
  {
    Resolved(doc, item) == Some(target) && doc[target].kind == Mapping
  }

  lemma {:induction false} ItemsAreExact(doc: Doc, items: seq<Id>, targets: seq<Id>)
    requires forall i :: 0 <= i < |items| ==> items[i] in doc
    ensures Items(doc, items) == Some(targets) <==> |targets| == |items| && forall i :: 0 <= i < |items| ==> IsMapping(doc, items[i], targets[i])
    decreases |items|
  {
    if items == [] {
    } else if targets == [] {
      assert Items(doc, items) != Some(targets) by {
        if Items(doc, items).Some? {
          var front := Items(doc, items[..|items| - 1]).value;
          assert |Items(doc, items).value| == |front| + 1;
        }
      }
    } else {
      var n, m := |items| - 1, |targets| - 1;
      ItemsAreExact(doc, items[..n], targets[..m]);
      assert targets == targets[..m] + [targets[m]];
      if Items(doc, items) == Some(targets) {
        assert targets[..m] == Items(doc, items[..n]).value;
      }
    }
  }

  /** The value of a merge key: one mapping, or a list of mappings in order of precedence. */
  predicate Names(doc: Doc, value: Id, sources: seq<Id>)
    requires value in doc
  {
    var target := Resolved(doc, value);
    && target.Some?
    && (|| (doc[target.value].kind == Mapping && sources == [target.value])
        || (&& doc[target.value].kind == Sequence && |sources| == |doc[target.value].content|
            && forall i :: 0 <= i < |sources| ==>
                 doc[target.value].content[i] in doc && IsMapping(doc, doc[target.value].content[i], sources[i])))
  }

  /** There is no merge key and no source, or one merge key, and it names the sources. */
  predicate MergesInto(doc: Doc, pairs: seq<Pair>, sources: seq<Id>)
  {
    && !TwoMerge(doc, pairs)
    && if SomeMerges(doc, pairs) then exists k :: 0 <= k < |pairs| && Merging(doc, pairs[k]) && Names(doc, pairs[k].value, sources)
       else sources == []
  }

  lemma NamesIsExact(doc: Doc, pairs: seq<Pair>, k: nat, sources: seq<Id>)
    requires Inside(doc, pairs) && k < |pairs| && PairIn(doc, pairs[k]) && Merges(doc, pairs) == [pairs[k].value]
    ensures MergeSources(doc, pairs) == Some(sources) <==> Names(doc, pairs[k].value, sources)
  {
    var target := Resolved(doc, pairs[k].value);
    if target.Some? && doc[target.value].kind == Sequence {
      var content := doc[target.value].content;
      assert forall i :: 0 <= i < |content| ==> content[i] in content;
      ItemsAreExact(doc, content, sources);
    }
  }

  lemma SourcesAreExact(doc: Doc, pairs: seq<Pair>, sources: seq<Id>)
    requires Inside(doc, pairs)
    ensures MergeSources(doc, pairs) == Some(sources) <==> MergesInto(doc, pairs, sources)
  {
    MergesAreExact(doc, pairs);
    if |Merges(doc, pairs)| == 1 {
      forall k | 0 <= k < |pairs| && Merging(doc, pairs[k])
        ensures MergeSources(doc, pairs) == Some(sources) <==> Names(doc, pairs[k].value, sources)
      {
        assert Merges(doc, pairs) == [pairs[k].value];
        NamesIsExact(doc, pairs, k, sources);
      }
    }
  }

  // ---------------------------------------------------------------- mappings

  /** The pairs of a node are its content, two by two; an odd last item is none. */
  predicate IsContent(doc: Doc, id: Id, pairs: seq<Pair>)
    requires id in doc
  {
    var content := doc[id].content;
    |pairs| == |content| / 2 && forall k :: 0 <= k < |pairs| ==> pairs[k] == Pair(content[2 * k], content[2 * k + 1])
  }

  /** A mapping is well formed if and only if every explicit key is a scalar that is not repeated and has a value that
      resolves, and there is at most one merge key, which names a mapping or a list of mappings. Then its explicit entries
      are exactly the explicit pairs, and its merge sources exactly those that the merge key names. */
  lemma ProperIsExact(doc: Doc, id: Id, pairs: seq<Pair>)
    requires id in doc && IsContent(doc, id, pairs)
    ensures Inside(doc, pairs)
    ensures Proper(doc, id) <==>
              && doc[id].kind == Mapping && doc[id].tag != "!!null"
              && KeysSound(doc, pairs) && exists sources :: MergesInto(doc, pairs, sources)
    ensures Proper(doc, id) ==>
              && Matches(doc, pairs, Own(doc, id))
              && forall sources :: MergesInto(doc, pairs, sources) <==> sources == Sources(doc, id)
  {
    PairsByPosition(doc[id].content);
    assert pairs == PairsOf(doc, id);
    ExplicitIsExact(doc, pairs);
    forall sources
      ensures MergeSources(doc, pairs) == Some(sources) <==> MergesInto(doc, pairs, sources)
    {
      SourcesAreExact(doc, pairs, sources);
    }
    if MergeSources(doc, pairs).Some? {
      assert MergesInto(doc, pairs, MergeSources(doc, pairs).value);
    }
  }
}
