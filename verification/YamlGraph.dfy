/** The parsed inventory document: a graph of YAML nodes that aliases and merge keys may make cyclic, and the
    effective entries of a mapping. */
module YamlGraph {
  import opened Wrappers
  import opened Collections

  type Id = nat

  datatype Kind = Zero | Scalar | Mapping | Sequence | Alias

  /** A node as the YAML library delivers it; the content of a mapping alternates keys and values. */
  datatype Node = Node(kind: Kind, tag: string, value: string, content: seq<Id>, alias: Option<Id>)

  predicate Closed(nodes: map<Id, Node>)
  {
    forall id :: id in nodes ==>
      && (forall child :: child in nodes[id].content ==> child in nodes)
      && (nodes[id].alias.Some? ==> nodes[id].alias.value in nodes)
  }

  type Doc = nodes: map<Id, Node> | Closed(nodes) witness map[]

  // ---------------------------------------------------------------- aliases

  const MAX_LINKS := 32

  /** Following at most links alias links to a node that is not an alias. */
  function Resolve(doc: Doc, id: Id, links: nat): (r: Option<Id>)
    requires id in doc
    ensures r.Some? ==> r.value in doc && doc[r.value].kind != Alias
    decreases links
  {
    if doc[id].kind != Alias then Some(id)
    else if links == 0 || doc[id].alias.None? then None
    else Resolve(doc, doc[id].alias.value, links - 1)
  }

  function Resolved(doc: Doc, id: Id): (r: Option<Id>)
    requires id in doc
    ensures r.Some? ==> r.value in doc && doc[r.value].kind != Alias
  {
    Resolve(doc, id, MAX_LINKS)
  }

  /** chain follows alias links from its first node. */
  predicate AliasChain(doc: Doc, chain: seq<Id>)
  {
    && chain != [] && (forall i :: 0 <= i < |chain| ==> chain[i] in doc)
    && forall i :: 0 <= i < |chain| - 1 ==> doc[chain[i]].kind == Alias && doc[chain[i]].alias == Some(chain[i + 1])
  }

  /** Resolution succeeds exactly when a chain of at most 32 links ends at a node that is not an alias. */
  lemma {:induction false} ResolveIsChain(doc: Doc, id: Id, links: nat, target: Id)
    requires id in doc
    ensures Resolve(doc, id, links) == Some(target)
            <==> exists chain :: AliasChain(doc, chain) && chain[0] == id && chain[|chain| - 1] == target
                                 && |chain| <= links + 1 && doc[target].kind != Alias
    decreases links
  {
    if Resolve(doc, id, links) == Some(target) {
      if doc[id].kind != Alias {
        assert AliasChain(doc, [id]);
      } else {
        var next := doc[id].alias.value;
        ResolveIsChain(doc, next, links - 1, target);
        var chain :| AliasChain(doc, chain) && chain[0] == next && chain[|chain| - 1] == target && |chain| <= links && doc[target].kind != Alias;
        assert AliasChain(doc, [id] + chain);
      }
    }
    if chain :| AliasChain(doc, chain) && chain[0] == id && chain[|chain| - 1] == target && |chain| <= links + 1 && doc[target].kind != Alias {
      if |chain| > 1 {
        var rest := chain[1..];
        assert AliasChain(doc, rest) by {
          assert forall i :: 0 <= i < |rest| ==> rest[i] == chain[i + 1];
        }
        ResolveIsChain(doc, chain[1], links - 1, target);
      }
    }
  }

  /** A node that an alias chain leads back to never resolves, however many links are allowed. */
  lemma {:induction false} CycleNeverResolves(doc: Doc, chain: seq<Id>, links: nat)
    requires AliasChain(doc, chain) && |chain| > 1 && chain[|chain| - 1] == chain[0]
    ensures Resolve(doc, chain[0], links) == None
    decreases links
  {
    if links > 0 {
      var turned := chain[1..] + [chain[1]];
      assert AliasChain(doc, turned) by {
        assert forall i :: 0 <= i < |chain| - 1 ==> turned[i] == chain[i + 1];
      }
      CycleNeverResolves(doc, turned, links - 1);
    }
  }

  // ---------------------------------------------------------------- mappings

  datatype Pair = Pair(key: Id, value: Id)

  datatype Entry = Entry(key: string, value: Id)

  function Pairs(content: seq<Id>): seq<Pair>
  {
    if |content| < 2 then [] else [Pair(content[0], content[1])] + Pairs(content[2..])
  }

  predicate MergeKey(node: Node)
  {
    node.kind == Scalar && node.value == "<<" && (node.tag == "" || node.tag == "!!merge")
  }

  predicate PairIn(doc: Doc, pair: Pair)
  {
    pair.key in doc && pair.value in doc
  }

  predicate Plain(doc: Doc, pair: Pair)
    requires PairIn(doc, pair)
  {
    doc[pair.key].kind == Scalar && !MergeKey(doc[pair.key]) && Resolved(doc, pair.value).Some?
  }

  predicate HasKey(entries: seq<Entry>, key: string)
  {
    exists i :: 0 <= i < |entries| && entries[i].key == key
  }

  /** A mapping with no entries at all, whatever its kind. */
  predicate Blank(node: Node)
  {
    node.kind == Zero || node.tag == "!!null"
  }

  /** The explicit entries after one more pair; nothing if its key is malformed or repeated. */
  function WithPair(doc: Doc, entries: seq<Entry>, pair: Pair): (r: Option<seq<Entry>>)
    requires PairIn(doc, pair)
  {
    if MergeKey(doc[pair.key]) then Some(entries)
    else if !Plain(doc, pair) || HasKey(entries, doc[pair.key].value) then None
    else Some(entries + [Entry(doc[pair.key].value, Resolved(doc, pair.value).value)])
  }

  /** The explicit entries of a pair list, in order. */
  function Explicit(doc: Doc, pairs: seq<Pair>): (r: Option<seq<Entry>>)
    requires forall i :: 0 <= i < |pairs| ==> PairIn(doc, pairs[i])
    ensures r.Some? ==> forall i :: 0 <= i < |r.value| ==> r.value[i].value in doc
  {
    if pairs == [] then Some([])
    else
      var last := pairs[|pairs| - 1];
      assert PairIn(doc, last);
      match Explicit(doc, pairs[..|pairs| - 1])
      case None => None
      case Some(entries) => WithPair(doc, entries, last)
  }

  /** The values of the merge keys. */
  function Merges(doc: Doc, pairs: seq<Pair>): (r: seq<Id>)
    requires forall i :: 0 <= i < |pairs| ==> PairIn(doc, pairs[i])
    ensures forall i :: 0 <= i < |r| ==> r[i] in doc
  {
    if pairs == [] then []
    else
      var last := pairs[|pairs| - 1];
      assert PairIn(doc, last);
      Merges(doc, pairs[..|pairs| - 1]) + if MergeKey(doc[last.key]) then [last.value] else []
  }

  /** Every item resolves to a mapping. */
  function Items(doc: Doc, items: seq<Id>): (r: Option<seq<Id>>)
    requires forall i :: 0 <= i < |items| ==> items[i] in doc
    ensures r.Some? ==> forall i :: 0 <= i < |r.value| ==> r.value[i] in doc && doc[r.value[i]].kind == Mapping
  {
    if items == [] then Some([])
    else
      var item := Resolved(doc, items[|items| - 1]);
      match Items(doc, items[..|items| - 1])
      case None => None
      case Some(front) => if item.None? || doc[item.value].kind != Mapping then None else Some(front + [item.value])
  }

  /** The merge sources of a pair list, in precedence order. */
  function MergeSources(doc: Doc, pairs: seq<Pair>): (r: Option<seq<Id>>)
    requires forall i :: 0 <= i < |pairs| ==> PairIn(doc, pairs[i])
    ensures r.Some? ==> forall i :: 0 <= i < |r.value| ==> r.value[i] in doc && doc[r.value[i]].kind == Mapping
  {
    var merges := Merges(doc, pairs);
    if |merges| == 0 then Some([])
    else if |merges| > 1 then None
    else
      var merge := Resolved(doc, merges[0]);
      if merge.None? then None
      else if doc[merge.value].kind == Mapping then Some([merge.value])
      else if doc[merge.value].kind == Sequence then
        assert forall i :: 0 <= i < |doc[merge.value].content| ==> doc[merge.value].content[i] in doc[merge.value].content;
        Items(doc, doc[merge.value].content)
      else None
  }

  lemma {:induction false} PairsInside(doc: Doc, content: seq<Id>)
    requires forall child :: child in content ==> child in doc
    ensures forall i :: 0 <= i < |Pairs(content)| ==> PairIn(doc, Pairs(content)[i])
    decreases |content|
  {
    if |content| >= 2 {
      assert content[0] in content && content[1] in content;
      PairsInside(doc, content[2..]);
    }
  }

  /** The pairs of a node. */
  function PairsOf(doc: Doc, id: Id): (pairs: seq<Pair>)
    requires id in doc
    ensures forall i :: 0 <= i < |pairs| ==> PairIn(doc, pairs[i])
  {
    PairsInside(doc, doc[id].content);
    Pairs(doc[id].content)
  }

  /** A mapping whose own keys, values and merge key are well formed. */
  predicate Proper(doc: Doc, id: Id)
    requires id in doc
  {
    && !Blank(doc[id]) && doc[id].kind == Mapping
    && Explicit(doc, PairsOf(doc, id)).Some? && MergeSources(doc, PairsOf(doc, id)).Some?
  }

  function Own(doc: Doc, id: Id): (entries: seq<Entry>)
    requires id in doc && Proper(doc, id)
    ensures forall i :: 0 <= i < |entries| ==> entries[i].value in doc
  {
    Explicit(doc, PairsOf(doc, id)).value
  }

  function Sources(doc: Doc, id: Id): (sources: seq<Id>)
    requires id in doc && Proper(doc, id)
    ensures forall i :: 0 <= i < |sources| ==> sources[i] in doc && doc[sources[i]].kind == Mapping
  {
    MergeSources(doc, PairsOf(doc, id)).value
  }

  // ---------------------------------------------------------------- effective entries

  /** The merged entries whose keys are not there yet are added, in order. */
  function Extend(entries: seq<Entry>, merged: seq<Entry>): seq<Entry>
    decreases |merged|
  {
    if merged == [] then entries
    else Extend(if HasKey(entries, merged[0].key) then entries else entries + [merged[0]], merged[1..])
  }

  function Effective(doc: Doc, id: Id, visiting: set<Id>): Option<seq<Entry>>
    requires id in doc
    decreases |doc.Keys - visiting|, 0
  {
    if Blank(doc[id]) then Some([])
    else if id in visiting || !Proper(doc, id) then None
    else
      assert doc.Keys - (visiting + {id}) < doc.Keys - visiting;
      Smaller(doc.Keys - (visiting + {id}), doc.Keys - visiting);
      MergeAll(doc, Own(doc, id), Sources(doc, id), visiting + {id})
  }

  function MergeAll(doc: Doc, entries: seq<Entry>, sources: seq<Id>, visiting: set<Id>): Option<seq<Entry>>
    requires forall i :: 0 <= i < |sources| ==> sources[i] in doc
    decreases |doc.Keys - visiting|, 1 + |sources|
  {
    if sources == [] then Some(entries)
    else
      match Effective(doc, sources[0], visiting)
      case None => None
      case Some(merged) => MergeAll(doc, Extend(entries, merged), sources[1..], visiting)
  }

  /** All entries of the mapping that a node names; a missing node has none. */
  function MappingEntries(doc: Doc, node: Option<Id>): Option<seq<Entry>>
    requires node.Some? ==> node.value in doc
  {
    if node.None? then Some([])
    else
      match Resolved(doc, node.value)
      case None => None
      case Some(id) => Effective(doc, id, {})
  }

  function Get(entries: seq<Entry>, key: string): Option<Id>
  {
    if entries == [] then None else if entries[0].key == key then Some(entries[0].value) else Get(entries[1..], key)
  }
}
