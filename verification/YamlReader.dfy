/** Reading the document in the form the program has it: loops that follow links and collect keys, values and merge
    sources. Each method computes the function that YamlGraph specifies, on every document graph. */
module YamlReader {
  import opened Wrappers
  import opened Collections
  import opened YamlGraph

  /** The loop also stops at a repeated alias node; that changes no result, because a cycle never resolves. */
  method ResolveAlias(doc: Doc, id: Id) returns (target: Option<Id>)
    requires id in doc
    ensures target == Resolved(doc, id)
  {
    var node, depth := id, 0;
    var seen: set<Id> := {};
    ghost var chain := [id];
    while doc[node].kind == Alias
      invariant node in doc && 0 <= depth <= MAX_LINKS && |chain| == depth + 1
      invariant AliasChain(doc, chain) && chain[depth] == node
      invariant forall other :: other in seen <==> other in chain[..depth]
      invariant Resolved(doc, id) == Resolve(doc, node, MAX_LINKS - depth)
      decreases MAX_LINKS - depth
    {
      if depth >= MAX_LINKS || doc[node].alias.None? {
        return None;
      }
      if node in seen {
        ghost var i :| 0 <= i < depth && chain[i] == node;
        assert AliasChain(doc, chain[i..]);
        CycleNeverResolves(doc, chain[i..], MAX_LINKS - depth);
        return None;
      }
      seen := seen + {node};
      ghost var longer := chain + [doc[node].alias.value];
      assert longer[..depth + 1] == chain[..depth] + [node];
      node, depth, chain := doc[node].alias.value, depth + 1, longer;
    }
    return Some(node);
  }

  /** One pair: an explicit entry with a new key, or the only merge key. */
  method ReadPair(doc: Doc, pair: Pair, explicit: seq<Entry>, seen: set<string>, merge: Option<Id>)
    returns (next: Option<(seq<Entry>, set<string>, Option<Id>)>)
    requires PairIn(doc, pair) && seen == KeysOf(explicit)
    ensures MergeKey(doc[pair.key]) ==> next == if merge.Some? then None else Some((explicit, seen, Some(pair.value)))
    ensures !MergeKey(doc[pair.key]) ==>
              var entries := WithPair(doc, explicit, pair);
              next == if entries.Some? then Some((entries.value, KeysOf(entries.value), merge)) else None
  {
    var key := doc[pair.key];
    if key.kind != Scalar {
      return None;
    }
    if MergeKey(key) {
      return if merge.Some? then None else Some((explicit, seen, Some(pair.value)));
    }
    var value := ResolveAlias(doc, pair.value);
    KeyIsMember(explicit, key.value);
    if key.value in seen || value.None? {
      return None;
    }
    LastKey(explicit, Entry(key.value, value.value));
    return Some((explicit + [Entry(key.value, value.value)], seen + {key.value}, merge));
  }

  function AsSeq(merge: Option<Id>): seq<Id>
  {
    if merge.Some? then [merge.value] else []
  }

  /** One pass over the pairs: the explicit entries and the value of the merge key. */
  method ReadPairs(doc: Doc, pairs: seq<Pair>) returns (read: Option<(seq<Entry>, Option<Id>)>)
    requires forall i :: 0 <= i < |pairs| ==> PairIn(doc, pairs[i])
    ensures read.Some? <==> Explicit(doc, pairs).Some? && |Merges(doc, pairs)| <= 1
    ensures read.Some? ==> Explicit(doc, pairs) == Some(read.value.0) && Merges(doc, pairs) == AsSeq(read.value.1)
  {
    var explicit: seq<Entry> := [];
    var seen: set<string> := {};
    var merge: Option<Id> := None;
    for i := 0 to |pairs|
      invariant Explicit(doc, pairs[..i]) == Some(explicit) && seen == KeysOf(explicit)
      invariant Merges(doc, pairs[..i]) == AsSeq(merge)
    {
      PairStep(doc, pairs, i);
      var next := ReadPair(doc, pairs[i], explicit, seen, merge);
      if next.None? {
        FailureSpreads(doc, pairs, i + 1);
        return None;
      }
      explicit, seen, merge := next.value.0, next.value.1, next.value.2;
    }
    assert pairs[..|pairs|] == pairs;
    return Some((explicit, merge));
  }

  /** One pair further. */
  lemma PairStep(doc: Doc, pairs: seq<Pair>, i: nat)
    requires i < |pairs| && forall k :: 0 <= k < |pairs| ==> PairIn(doc, pairs[k])
    ensures PairIn(doc, pairs[i])
    ensures Explicit(doc, pairs[..i + 1]) ==
            if Explicit(doc, pairs[..i]).Some? then WithPair(doc, Explicit(doc, pairs[..i]).value, pairs[i]) else None
    ensures Merges(doc, pairs[..i + 1]) == Merges(doc, pairs[..i]) + if MergeKey(doc[pairs[i].key]) then [pairs[i].value] else []
  {
    assert PairIn(doc, pairs[i]);
    assert pairs[..i + 1][..i] == pairs[..i];
  }

  function KeysOf(entries: seq<Entry>): set<string>
  {
    set i | 0 <= i < |entries| :: entries[i].key
  }

  lemma LastKey(entries: seq<Entry>, last: Entry)
    ensures KeysOf(entries + [last]) == KeysOf(entries) + {last.key}
  {
    var all := entries + [last];
    assert all[|entries|] == last && forall i :: 0 <= i < |entries| ==> all[i] == entries[i];
    forall key | key in KeysOf(entries)
      ensures key in KeysOf(all)
    {
      var i :| 0 <= i < |entries| && entries[i].key == key;
      assert all[i].key == key;
    }
  }

  lemma KeyIsMember(entries: seq<Entry>, key: string)
    ensures key in KeysOf(entries) <==> HasKey(entries, key)
  {
  }

  /** What is wrong with the first pairs is wrong with all of them. */
  lemma {:induction false} FailureSpreads(doc: Doc, pairs: seq<Pair>, n: nat)
    requires n <= |pairs| && forall i :: 0 <= i < |pairs| ==> PairIn(doc, pairs[i])
    ensures Explicit(doc, pairs[..n]).None? ==> Explicit(doc, pairs).None?
    ensures |Merges(doc, pairs[..n])| <= |Merges(doc, pairs)|
    decreases |pairs|
  {
    if n == |pairs| {
      assert pairs[..n] == pairs;
    } else {
      var front := pairs[..|pairs| - 1];
      assert front[..n] == pairs[..n];
      FailureSpreads(doc, front, n);
    }
  }

  lemma {:induction false} ItemFailureSpreads(doc: Doc, items: seq<Id>, n: nat)
    requires n <= |items| && forall i :: 0 <= i < |items| ==> items[i] in doc
    requires Items(doc, items[..n]).None?
    ensures Items(doc, items).None?
    decreases |items|
  {
    if n == |items| {
      assert items[..n] == items;
    } else {
      var front := items[..|items| - 1];
      assert front[..n] == items[..n];
      ItemFailureSpreads(doc, front, n);
    }
  }

  method ReadSources(doc: Doc, pairs: seq<Pair>, merge: Option<Id>) returns (sources: Option<seq<Id>>)
    requires forall i :: 0 <= i < |pairs| ==> PairIn(doc, pairs[i])
    requires Merges(doc, pairs) == AsSeq(merge)
    ensures sources == MergeSources(doc, pairs)
  {
    assert merge.Some? ==> Merges(doc, pairs)[0] == merge.value;
    if merge.None? {
      return Some([]);
    }
    var target := ResolveAlias(doc, merge.value);
    if target.None? {
      return None;
    }
    var node := doc[target.value];
    if node.kind == Mapping {
      return Some([target.value]);
    }
    if node.kind != Sequence {
      return None;
    }
    assert forall i :: 0 <= i < |node.content| ==> node.content[i] in node.content;
    sources := ReadItems(doc, node.content);
  }

  method ReadItems(doc: Doc, items: seq<Id>) returns (found: Option<seq<Id>>)
    requires forall i :: 0 <= i < |items| ==> items[i] in doc
    ensures found == Items(doc, items)
  {
    var mappings: seq<Id> := [];
    for i := 0 to |items|
      invariant Items(doc, items[..i]) == Some(mappings)
    {
      assert items[..i + 1][..i] == items[..i];
      var item := ResolveAlias(doc, items[i]);
      if item.None? || doc[item.value].kind != Mapping {
        ItemFailureSpreads(doc, items, i + 1);
        return None;
      }
      mappings := mappings + [item.value];
    }
    assert items[..|items|] == items;
    return Some(mappings);
  }

  /** visiting holds the mappings that are being expanded around this one. */
  method EffectiveEntries(doc: Doc, id: Id, visiting: set<Id>) returns (result: Option<seq<Entry>>)
    requires id in doc
    ensures result == Effective(doc, id, visiting)
    decreases |doc.Keys - visiting|
  {
    if Blank(doc[id]) {
      return Some([]);
    }
    if doc[id].kind != Mapping || id in visiting {
      return None;
    }
    var pairs := PairsOf(doc, id);
    var read := ReadPairs(doc, pairs);
    if read.None? {
      return None;
    }
    var sources := ReadSources(doc, pairs, read.value.1);
    if sources.None? {
      return None;
    }
    assert Proper(doc, id);
    var inner := visiting + {id};
    assert doc.Keys - inner < doc.Keys - visiting;
    Smaller(doc.Keys - inner, doc.Keys - visiting);
    var entries := read.value.0;
    for i := 0 to |sources.value|
      invariant Effective(doc, id, visiting) == MergeAll(doc, entries, sources.value[i..], inner)
    {
      assert sources.value[i..][1..] == sources.value[i + 1..];
      var merged := EffectiveEntries(doc, sources.value[i], inner);
      if merged.None? {
        return None;
      }
      entries := AddMissing(entries, merged.value);
    }
    return Some(entries);
  }

  method AddMissing(entries: seq<Entry>, merged: seq<Entry>) returns (all: seq<Entry>)
    ensures all == Extend(entries, merged)
  {
    all := entries;
    for i := 0 to |merged|
      invariant Extend(entries, merged) == Extend(all, merged[i..])
    {
      assert merged[i..][1..] == merged[i + 1..];
      if !HasKey(all, merged[i].key) {
        all := all + [merged[i]];
      }
    }
  }
}
