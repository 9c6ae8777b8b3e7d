/** An inventory in which deduplication hides a conflict: two groups named db under different parents, at one depth,
    list the same host with different values. */
module Namesakes {
  import opened Wrappers
  import opened YamlGraph
  import opened Variables
  import opened Groups

  function Text(value: string): Node { Node(Scalar, "", value, [], None) }

  function Map(content: seq<Id>): Node { Node(Mapping, "", "", content, None) }

  /** A pair with an ordinary key; its value may be an alias. */
  predicate PlainPair(doc: Doc, pair: Pair)
  {
    PairIn(doc, pair) && doc[pair.key].kind == Scalar && doc[pair.key].value != "<<" && Resolved(doc, pair.value).Some?
  }

  function EntryOf(doc: Doc, pair: Pair): Entry
    requires PlainPair(doc, pair)
  {
    Entry(doc[pair.key].value, Resolved(doc, pair.value).value)
  }

  lemma OneMore(doc: Doc, front: seq<Pair>, last: Pair, entries: seq<Entry>)
    requires (forall i :: 0 <= i < |front| ==> PairIn(doc, front[i])) && PlainPair(doc, last)
    requires Explicit(doc, front) == Some(entries) && Merges(doc, front) == [] && !HasKey(entries, doc[last.key].value)
    ensures var pairs := front + [last];
            && (forall i :: 0 <= i < |pairs| ==> PairIn(doc, pairs[i]))
            && Explicit(doc, pairs) == Some(entries + [EntryOf(doc, last)]) && Merges(doc, pairs) == []
  {
    assert (front + [last])[..|front|] == front;
  }

  lemma PlainMapping(doc: Doc, id: Id, pairs: seq<Pair>, entries: seq<Entry>)
    requires id in doc && doc[id].kind == Mapping && doc[id].tag == "" && PairsOf(doc, id) == pairs
    requires Explicit(doc, pairs) == Some(entries) && Merges(doc, pairs) == []
    ensures Effective(doc, id, {}) == Some(entries)
  {
    assert MergeSources(doc, pairs) == Some([]);
    assert Proper(doc, id) && Own(doc, id) == entries && Sources(doc, id) == [];
    assert MergeAll(doc, entries, [], {id}) == Some(entries);
    assert {} + {id} == {id};
  }

  lemma ContentPairs(one: Pair, two: Pair)
    ensures Pairs([one.key, one.value]) == [one]
    ensures Pairs([one.key, one.value, two.key, two.value]) == [one, two]
  {
    assert [one.key, one.value][2..] == [] && [two.key, two.value][2..] == [];
    var content := [one.key, one.value, two.key, two.value];
    assert content[2..] == [two.key, two.value];
    assert Pairs([two.key, two.value]) == [two] + Pairs([]);
    assert Pairs(content) == [one] + [two];
  }

  /** A mapping with one plain pair. */
  lemma OnePair(doc: Doc, id: Id, pair: Pair)
    requires id in doc && doc[id] == Map([pair.key, pair.value]) && PlainPair(doc, pair)
    ensures Effective(doc, id, {}) == Some([EntryOf(doc, pair)])
  {
    ContentPairs(pair, pair);
    assert [] + [pair] == [pair];
    var entry := EntryOf(doc, pair);
    OneMore(doc, [], pair, []);
    assert [] + [entry] == [entry];
    PlainMapping(doc, id, [pair], [entry]);
  }

  /** A mapping with two plain pairs. */
  lemma TwoPairs(doc: Doc, id: Id, one: Pair, two: Pair)
    requires id in doc && doc[id] == Map([one.key, one.value, two.key, two.value]) && PlainPair(doc, one) && PlainPair(doc, two)
    requires doc[one.key].value != doc[two.key].value
    ensures Effective(doc, id, {}) == Some([EntryOf(doc, one), EntryOf(doc, two)])
  {
    ContentPairs(one, two);
    assert [] + [one] == [one] && [one] + [two] == [one, two];
    var entry, second := EntryOf(doc, one), EntryOf(doc, two);
    OneMore(doc, [], one, []);
    assert [] + [entry] == [entry] && [entry] + [second] == [entry, second];
    OneMore(doc, [one], two, [entry]);
    PlainMapping(doc, id, [one, two], [entry, second]);
  }

  // ---------------------------------------------------------------- groups

  /** A group with one host, which has no variables of its own, and some variables. */
  predicate LeafGroup(doc: Doc, id: Id, address: string, entry: Id, vars: map<string, Id>)
  {
    && id in doc && entry in doc && doc[id].kind == Mapping && doc[entry].kind == Scalar && doc[entry].tag == "!!null"
    && FieldVars(doc, id) == Some(vars) && FieldEntries(doc, id, "hosts") == Some([Entry(address, entry)])
    && FieldEntries(doc, id, "children") == Some([])
  }

  lemma CollectLeaf(doc: Doc, isIPv4: AddressTest, id: Id, address: string, entry: Id, vars: map<string, Id>, origin: string, depth: nat, inherited: seq<Source>, hosts: seq<Host>, more: seq<Host>, visiting: set<Id>)
    requires LeafGroup(doc, id, address, entry, vars) && isIPv4(address) && depth <= MAX_DEPTH && id !in visiting
    requires more == AddSources(hosts, address, Contributed(inherited, origin, depth, vars))
    ensures Collect(doc, isIPv4, id, origin, depth, inherited, hosts, visiting) == Some(more)
  {
    var sources := Contributed(inherited, origin, depth, vars);
    var listed := [Entry(address, entry)];
    assert Effective(doc, entry, {}) == Some([]);
    assert VarsOf(doc, Some(entry)) == Some(map[]);
    assert listed[1..] == [];
    assert CollectListed(doc, isIPv4, [], origin, sources, AddSources(hosts, address, sources)) == Some(AddSources(hosts, address, sources));
    assert CollectListed(doc, isIPv4, listed, origin, sources, hosts) == Some(AddSources(hosts, address, sources));
  }

  /** A group with children only. */
  predicate ParentGroup(doc: Doc, id: Id, children: seq<Entry>)
  {
    && id in doc && doc[id].kind == Mapping && ValuesIn(doc, children)
    && FieldVars(doc, id) == Some(map[]) && FieldEntries(doc, id, "hosts") == Some([])
    && FieldEntries(doc, id, "children") == Some(children)
  }

  lemma CollectParent(doc: Doc, isIPv4: AddressTest, id: Id, children: seq<Entry>, origin: string, depth: nat, inherited: seq<Source>, hosts: seq<Host>, visiting: set<Id>)
    requires ParentGroup(doc, id, children) && depth <= MAX_DEPTH && id !in visiting
    ensures Collect(doc, isIPv4, id, origin, depth, inherited, hosts, visiting)
            == CollectChildren(doc, isIPv4, children, depth, inherited, hosts, visiting + {id})
  {
    assert CollectListed(doc, isIPv4, [], origin, inherited, hosts) == Some(hosts);
  }

  lemma NextChild(doc: Doc, isIPv4: AddressTest, child: Entry, rest: seq<Entry>, depth: nat, next: nat, sources: seq<Source>, hosts: seq<Host>, more: seq<Host>, visiting: set<Id>)
    requires ValuesIn(doc, rest) && child.value in doc && depth <= MAX_DEPTH && next == depth + 1
    requires Collect(doc, isIPv4, child.value, "group " + child.key, next, sources, hosts, visiting) == Some(more)
    ensures ValuesIn(doc, [child] + rest)
    ensures CollectChildren(doc, isIPv4, [child] + rest, depth, sources, hosts, visiting)
            == CollectChildren(doc, isIPv4, rest, depth, sources, more, visiting)
  {
    assert ([child] + rest)[1..] == rest;
  }

  lemma OneChild(doc: Doc, isIPv4: AddressTest, child: Entry, depth: nat, next: nat, sources: seq<Source>, hosts: seq<Host>, more: seq<Host>, visiting: set<Id>)
    requires child.value in doc && depth <= MAX_DEPTH && next == depth + 1
    requires Collect(doc, isIPv4, child.value, "group " + child.key, next, sources, hosts, visiting) == Some(more)
    ensures CollectChildren(doc, isIPv4, [child], depth, sources, hosts, visiting) == Some(more)
  {
    NextChild(doc, isIPv4, child, [], depth, next, sources, hosts, more, visiting);
    assert [child] + [] == [child];
  }

  lemma TwoChildren(doc: Doc, isIPv4: AddressTest, left: Entry, right: Entry, depth: nat, next: nat, sources: seq<Source>, hosts: seq<Host>, more: seq<Host>, most: seq<Host>, visiting: set<Id>)
    requires left.value in doc && right.value in doc && depth <= MAX_DEPTH && next == depth + 1
    requires Collect(doc, isIPv4, left.value, "group " + left.key, next, sources, hosts, visiting) == Some(more)
    requires Collect(doc, isIPv4, right.value, "group " + right.key, next, sources, more, visiting) == Some(most)
    ensures CollectChildren(doc, isIPv4, [left, right], depth, sources, hosts, visiting) == Some(most)
  {
    OneChild(doc, isIPv4, right, depth, next, sources, more, most, visiting);
    NextChild(doc, isIPv4, left, [right], depth, next, sources, hosts, more, visiting);
    assert [left] + [right] == [left, right];
  }

  lemma ParentOfOne(doc: Doc, isIPv4: AddressTest, id: Id, leaf: Entry, origin: string, depth: nat, inherited: seq<Source>, hosts: seq<Host>, more: seq<Host>, visiting: set<Id>)
    requires ParentGroup(doc, id, [leaf]) && depth <= MAX_DEPTH && id !in visiting && leaf.value in doc
    requires Collect(doc, isIPv4, leaf.value, "group " + leaf.key, depth + 1, inherited, hosts, visiting + {id}) == Some(more)
    ensures Collect(doc, isIPv4, id, origin, depth, inherited, hosts, visiting) == Some(more)
  {
    OneChild(doc, isIPv4, leaf, depth, depth + 1, inherited, hosts, more, visiting + {id});
    CollectParent(doc, isIPv4, id, [leaf], origin, depth, inherited, hosts, visiting);
  }

  /** A parent of one leaf, which gives the source to the host. */
  lemma CollectBranch(doc: Doc, isIPv4: AddressTest, id: Id, leaf: Entry, address: string, entry: Id, source: Source, origin: string, depth: nat, hosts: seq<Host>, more: seq<Host>, visiting: set<Id>)
    requires ParentGroup(doc, id, [leaf]) && LeafGroup(doc, leaf.value, address, entry, source.vars) && isIPv4(address)
    requires depth < MAX_DEPTH && id !in visiting && leaf.value !in visiting && id != leaf.value
    requires source.origin == "group " + leaf.key && source.depth == depth + 1
    requires more == AddSources(hosts, address, Contributed([], source.origin, source.depth, source.vars))
    ensures Collect(doc, isIPv4, id, origin, depth, [], hosts, visiting) == Some(more)
  {
    CollectLeaf(doc, isIPv4, leaf.value, address, entry, source.vars, source.origin, source.depth, [], hosts, more, visiting + {id});
    ParentOfOne(doc, isIPv4, id, leaf, origin, depth, [], hosts, more, visiting);
  }

  /** A root with two branches that end in leaves of one name, which list the same host. */
  datatype Twins = Twins(root: Id, left: Entry, right: Entry, first: Entry, second: Entry, address: string, entry: Id,
                         vars: map<string, Id>, others: map<string, Id>)

  predicate GroupIn(doc: Doc, twins: Twins, i: nat)
  {
    match i
    case 0 => ParentGroup(doc, twins.root, [twins.left, twins.right])
    case 1 => ParentGroup(doc, twins.left.value, [twins.first])
    case 2 => ParentGroup(doc, twins.right.value, [twins.second])
    case 3 => LeafGroup(doc, twins.first.value, twins.address, twins.entry, twins.vars)
    case _ => LeafGroup(doc, twins.second.value, twins.address, twins.entry, twins.others)
  }

  predicate TwinsIn(doc: Doc, twins: Twins)
  {
    && (forall i :: 0 <= i < 5 ==> GroupIn(doc, twins, i))
    && twins.root in doc && twins.left.value in doc && twins.right.value in doc
    && twins.root !in {twins.left.value, twins.right.value, twins.first.value, twins.second.value}
    && twins.left.value != twins.first.value && twins.right.value != twins.second.value
    && twins.first.key == twins.second.key && twins.vars != map[] && twins.others != map[]
  }

  lemma BothAdded(address: string, one: Source, two: Source)
    requires one.vars != map[] && two.vars != map[]
    ensures AddSources([], address, Contributed([], one.origin, one.depth, one.vars)) == [Host(address, [one])]
    ensures AddSources([Host(address, [one])], address, Contributed([], two.origin, two.depth, two.vars)) == [Host(address, [one, two])]
  {
    assert [] + [one] == [one] && [] + [two] == [two] && [one] + [two] == [one, two];
  }

  lemma LeftBranch(doc: Doc, isIPv4: AddressTest, twins: Twins, source: Source, next: nat, hosts: seq<Host>, more: seq<Host>, visiting: set<Id>)
    requires TwinsIn(doc, twins) && isIPv4(twins.address) && next < MAX_DEPTH && visiting == {twins.root}
    requires source == Source("group " + twins.first.key, next + 1, twins.vars)
    requires more == AddSources(hosts, twins.address, Contributed([], source.origin, source.depth, source.vars))
    ensures Collect(doc, isIPv4, twins.left.value, "group " + twins.left.key, next, [], hosts, visiting) == Some(more)
  {
    assert GroupIn(doc, twins, 1) && GroupIn(doc, twins, 3);
    CollectBranch(doc, isIPv4, twins.left.value, twins.first, twins.address, twins.entry, source,
                  "group " + twins.left.key, next, hosts, more, visiting);
  }

  lemma RightBranch(doc: Doc, isIPv4: AddressTest, twins: Twins, source: Source, next: nat, hosts: seq<Host>, more: seq<Host>, visiting: set<Id>)
    requires TwinsIn(doc, twins) && isIPv4(twins.address) && next < MAX_DEPTH && visiting == {twins.root}
    requires source == Source("group " + twins.second.key, next + 1, twins.others)
    requires more == AddSources(hosts, twins.address, Contributed([], source.origin, source.depth, source.vars))
    ensures Collect(doc, isIPv4, twins.right.value, "group " + twins.right.key, next, [], hosts, visiting) == Some(more)
  {
    assert GroupIn(doc, twins, 2) && GroupIn(doc, twins, 4);
    CollectBranch(doc, isIPv4, twins.right.value, twins.second, twins.address, twins.entry, source,
                  "group " + twins.right.key, next, hosts, more, visiting);
  }

  lemma RootOfTwo(doc: Doc, isIPv4: AddressTest, root: Id, left: Entry, right: Entry, origin: string, depth: nat, next: nat, hosts: seq<Host>, more: seq<Host>, most: seq<Host>, visiting: set<Id>)
    requires ParentGroup(doc, root, [left, right]) && depth <= MAX_DEPTH && next == depth + 1 && left.value in doc && right.value in doc
    requires root !in visiting
    requires Collect(doc, isIPv4, left.value, "group " + left.key, next, [], hosts, visiting + {root}) == Some(more)
    requires Collect(doc, isIPv4, right.value, "group " + right.key, next, [], more, visiting + {root}) == Some(most)
    ensures Collect(doc, isIPv4, root, origin, depth, [], hosts, visiting) == Some(most)
  {
    TwoChildren(doc, isIPv4, left, right, depth, next, [], hosts, more, most, visiting + {root});
    CollectParent(doc, isIPv4, root, [left, right], origin, depth, [], hosts, visiting);
  }

  /** The host gets both groups, one after the other. */
  lemma CollectTwins(doc: Doc, isIPv4: AddressTest, twins: Twins, origin: string, depth: nat, next: nat, one: Source, two: Source, hosts: seq<Host>, more: seq<Host>, most: seq<Host>)
    requires TwinsIn(doc, twins) && isIPv4(twins.address) && next < MAX_DEPTH && next == depth + 1
    requires one == Source("group " + twins.first.key, next + 1, twins.vars)
    requires two == Source("group " + twins.second.key, next + 1, twins.others)
    requires more == AddSources(hosts, twins.address, Contributed([], one.origin, one.depth, one.vars))
    requires most == AddSources(more, twins.address, Contributed([], two.origin, two.depth, two.vars))
    ensures Collect(doc, isIPv4, twins.root, origin, depth, [], hosts, {}) == Some(most)
  {
    assert GroupIn(doc, twins, 0);
    var none: set<Id> := {};
    LeftBranch(doc, isIPv4, twins, one, next, hosts, more, none + {twins.root});
    RightBranch(doc, isIPv4, twins, two, next, more, most, none + {twins.root});
    RootOfTwo(doc, isIPv4, twins.root, twins.left, twins.right, origin, depth, next, hosts, more, most, none);
  }

  // ---------------------------------------------------------------- one group

  predicate KeyIs(doc: Doc, id: Id, text: string)
  {
    id in doc && doc[id] == Text(text)
  }

  lemma OneEntry(key: string, value: Id)
    ensures EntryMap([Entry(key, value)]) == map[key := value]
  {
    assert [Entry(key, value)][..0] == [];
  }

  lemma GetOfTwo(one: Entry, two: Entry, key: string)
    ensures Get([one], key) == if one.key == key then Some(one.value) else None
    ensures Get([one, two], key) == if one.key == key then Some(one.value) else if two.key == key then Some(two.value) else None
  {
    assert [one][1..] == [] && [one, two][1..] == [two] && [two][1..] == [];
    assert Get([], key) == None;
    assert Get([two], key) == if two.key == key then Some(two.value) else None;
  }

  lemma FieldOf(doc: Doc, id: Id, one: Entry, two: Entry, key: string)
    requires id in doc && Effective(doc, id, {}) in {Some([one]), Some([one, two])}
    ensures Field(doc, id, key) ==
            Some(if one.key == key then Some(one.value)
                 else if Effective(doc, id, {}) == Some([one, two]) && two.key == key then Some(two.value) else None)
  {
    GetOfTwo(one, two, key);
  }

  lemma LeafFields(doc: Doc, id: Id, hosts: Entry, vars: Entry)
    requires id in doc && Effective(doc, id, {}) == Some([hosts, vars]) && hosts.key == "hosts" && vars.key == "vars"
    ensures Field(doc, id, "hosts") == Some(Some(hosts.value)) && Field(doc, id, "vars") == Some(Some(vars.value))
    ensures Field(doc, id, "children") == Some(None)
  {
    FieldOf(doc, id, hosts, vars, "hosts");
    FieldOf(doc, id, hosts, vars, "vars");
    FieldOf(doc, id, hosts, vars, "children");
  }

  lemma ParentFields(doc: Doc, id: Id, children: Entry)
    requires id in doc && Effective(doc, id, {}) == Some([children]) && children.key == "children"
    ensures Field(doc, id, "hosts") == Some(None) && Field(doc, id, "vars") == Some(None)
    ensures Field(doc, id, "children") == Some(Some(children.value))
  {
    FieldOf(doc, id, children, children, "hosts");
    FieldOf(doc, id, children, children, "vars");
    FieldOf(doc, id, children, children, "children");
  }

  /** A mapping with the one key children. */
  lemma ParentOf(doc: Doc, id: Id, key: Id, children: Id, entries: seq<Entry>)
    requires KeyIs(doc, key, "children") && id in doc && children in doc
    requires doc[id] == Map([key, children]) && doc[children].kind == Mapping && Effective(doc, children, {}) == Some(entries)
    ensures ParentGroup(doc, id, entries)
  {
    OnePair(doc, id, Pair(key, children));
    ParentFields(doc, id, Entry("children", children));
    EffectiveInside(doc, children, {});
    assert EntryMap([]) == map[];
  }

  /** The host list: one address, without variables of its own. */
  predicate ListIn(doc: Doc, list: Id, key: Id, entry: Id, address: string)
  {
    && KeyIs(doc, key, address) && address != "<<" && list in doc && entry in doc
    && doc[list] == Map([key, entry]) && doc[entry] == Node(Scalar, "!!null", "", [], None)
  }

  /** A mapping with one variable. */
  predicate VariableIn(doc: Doc, vars: Id, key: Id, value: Id, variable: string)
  {
    && KeyIs(doc, key, variable) && variable != "<<" && KeyAllowed(variable) && vars in doc && value in doc
    && doc[vars] == Map([key, value]) && doc[value].kind == Scalar
  }

  lemma VariableIsRead(doc: Doc, vars: Id, key: Id, value: Id, variable: string)
    requires VariableIn(doc, vars, key, value, variable)
    ensures VarsOf(doc, Some(vars)) == Some(map[variable := value])
  {
    OnePair(doc, vars, Pair(key, value));
    OneEntry(variable, value);
  }

  /** A group whose hosts are the list, written out or behind an alias. */
  lemma LeafOf(doc: Doc, id: Id, hosts: Pair, vars: Pair, list: Id, entry: Id, address: string, variable: string, value: Id)
    requires id in doc && doc[id] == Map([hosts.key, hosts.value, vars.key, vars.value])
    requires KeyIs(doc, hosts.key, "hosts") && KeyIs(doc, vars.key, "vars") && hosts.value in doc && vars.value in doc && value in doc
    requires Resolved(doc, hosts.value) == Some(list) && Effective(doc, list, {}) == Some([Entry(address, entry)])
    requires doc[vars.value].kind == Mapping && VarsOf(doc, Some(vars.value)) == Some(map[variable := value])
    requires entry in doc && doc[entry].kind == Scalar && doc[entry].tag == "!!null"
    ensures LeafGroup(doc, id, address, entry, map[variable := value])
  {
    TwoPairs(doc, id, hosts, vars);
    LeafFields(doc, id, Entry("hosts", list), Entry("vars", vars.value));
  }

  // ---------------------------------------------------------------- documents with such groups

  /** One branch: a parent with one child group, and that group's hosts and variables; every key has its own node. */
  datatype Branch = Branch(
    parent: Id, childrenKey: Id, children: Id, nameKey: Id, leaf: Id, hostsKey: Id, hosts: Id, varsKey: Id, vars: Id,
    variableKey: Id, value: Id)

  predicate ParentIn(doc: Doc, x: Branch, name: string)
  {
    && KeyIs(doc, x.childrenKey, "children") && KeyIs(doc, x.nameKey, name) && name != "<<"
    && x.parent in doc && x.children in doc && x.leaf in doc && doc[x.leaf].kind == Mapping
    && doc[x.parent] == Map([x.childrenKey, x.children]) && doc[x.children] == Map([x.nameKey, x.leaf])
  }

  predicate LeafIn(doc: Doc, x: Branch, list: Id, variable: string)
  {
    && KeyIs(doc, x.hostsKey, "hosts") && KeyIs(doc, x.varsKey, "vars") && x.leaf in doc && x.hosts in doc
    && doc[x.leaf] == Map([x.hostsKey, x.hosts, x.varsKey, x.vars])
    && Resolved(doc, x.hosts) == Some(list) && VariableIn(doc, x.vars, x.variableKey, x.value, variable)
  }

  lemma BranchParent(doc: Doc, x: Branch, name: string)
    requires ParentIn(doc, x, name)
    ensures ParentGroup(doc, x.parent, [Entry(name, x.leaf)])
  {
    OnePair(doc, x.children, Pair(x.nameKey, x.leaf));
    ParentOf(doc, x.parent, x.childrenKey, x.children, [Entry(name, x.leaf)]);
  }

  lemma BranchLeaf(doc: Doc, x: Branch, list: Id, key: Id, entry: Id, address: string, variable: string)
    requires ListIn(doc, list, key, entry, address) && LeafIn(doc, x, list, variable)
    ensures LeafGroup(doc, x.leaf, address, entry, map[variable := x.value])
  {
    OnePair(doc, list, Pair(key, entry));
    VariableIsRead(doc, x.vars, x.variableKey, x.value, variable);
    LeafOf(doc, x.leaf, Pair(x.hostsKey, x.hosts), Pair(x.varsKey, x.vars), list, entry, address, variable, x.value);
  }

  /** A root with two branches, whose groups have one name and the same host list. */
  datatype Layout = Layout(
    root: Id, childrenKey: Id, children: Id, left: Id, right: Id, one: Branch, two: Branch,
    list: Id, addressKey: Id, entry: Id, name: string, address: string, variable: string)

  predicate RootIn(doc: Doc, x: Layout)
  {
    && KeyIs(doc, x.childrenKey, "children") && x.root in doc && x.children in doc
    && PlainPair(doc, Pair(x.left, x.one.parent)) && PlainPair(doc, Pair(x.right, x.two.parent))
    && doc[x.one.parent].kind == Mapping && doc[x.two.parent].kind == Mapping && doc[x.left].value != doc[x.right].value
    && doc[x.root] == Map([x.childrenKey, x.children]) && doc[x.children] == Map([x.left, x.one.parent, x.right, x.two.parent])
  }

  predicate LayoutIn(doc: Doc, x: Layout)
  {
    && RootIn(doc, x) && ListIn(doc, x.list, x.addressKey, x.entry, x.address)
    && ParentIn(doc, x.one, x.name) && ParentIn(doc, x.two, x.name)
    && LeafIn(doc, x.one, x.list, x.variable) && LeafIn(doc, x.two, x.list, x.variable)
    && x.root !in {x.one.parent, x.two.parent, x.one.leaf, x.two.leaf}
    && x.one.parent != x.one.leaf && x.two.parent != x.two.leaf
  }

  lemma RootParent(doc: Doc, x: Layout)
    requires RootIn(doc, x)
    ensures ParentGroup(doc, x.root, [Entry(doc[x.left].value, x.one.parent), Entry(doc[x.right].value, x.two.parent)])
  {
    TwoPairs(doc, x.children, Pair(x.left, x.one.parent), Pair(x.right, x.two.parent));
    ParentOf(doc, x.root, x.childrenKey, x.children, [Entry(doc[x.left].value, x.one.parent), Entry(doc[x.right].value, x.two.parent)]);
  }

  function TwinsOf(doc: Doc, x: Layout): Twins
    requires x.left in doc && x.right in doc
  {
    Twins(x.root, Entry(doc[x.left].value, x.one.parent), Entry(doc[x.right].value, x.two.parent),
          Entry(x.name, x.one.leaf), Entry(x.name, x.two.leaf), x.address, x.entry,
          map[x.variable := x.one.value], map[x.variable := x.two.value])
  }

  lemma LayoutHasParents(doc: Doc, x: Layout, i: nat)
    requires LayoutIn(doc, x) && i < 3
    ensures GroupIn(doc, TwinsOf(doc, x), i)
  {
    match i
    case 0 => RootParent(doc, x);
    case 1 => BranchParent(doc, x.one, x.name);
    case _ => BranchParent(doc, x.two, x.name);
  }

  lemma LayoutHasLeaves(doc: Doc, x: Layout, i: nat)
    requires LayoutIn(doc, x) && 3 <= i < 5
    ensures GroupIn(doc, TwinsOf(doc, x), i)
  {
    match i
    case 3 => BranchLeaf(doc, x.one, x.list, x.addressKey, x.entry, x.address, x.variable);
    case _ => BranchLeaf(doc, x.two, x.list, x.addressKey, x.entry, x.address, x.variable);
  }

  lemma LayoutHasTwins(doc: Doc, x: Layout)
    requires LayoutIn(doc, x)
    ensures TwinsIn(doc, TwinsOf(doc, x))
  {
    assert x.variable in TwinsOf(doc, x).vars && x.variable in TwinsOf(doc, x).others;
    forall i | 0 <= i < 5
      ensures GroupIn(doc, TwinsOf(doc, x), i)
    {
      if i < 3 {
        LayoutHasParents(doc, x, i);
      } else {
        LayoutHasLeaves(doc, x, i);
      }
    }
  }

  lemma TwinsCollect(doc: Doc, isIPv4: AddressTest, twins: Twins)
    requires TwinsIn(doc, twins) && isIPv4(twins.address)
    ensures var name := "group " + twins.first.key;
            Collect(doc, isIPv4, twins.root, "all", 0, [], [], {}) ==
            Some([Host(twins.address, [Source(name, 2, twins.vars), Source(name, 2, twins.others)])])
  {
    var name := "group " + twins.first.key;
    var one, two := Source(name, 2, twins.vars), Source(name, 2, twins.others);
    BothAdded(twins.address, one, two);
    CollectTwins(doc, isIPv4, twins, "all", 0, 1, one, two, [], [Host(twins.address, [one])], [Host(twins.address, [one, two])]);
  }

  /** The host of such a document has a conflict, which deduplication hides: the first group decides. */
  lemma NamesakeGroupsHideConflict(doc: Doc, isIPv4: AddressTest, x: Layout, same: Same)
    requires LayoutIn(doc, x) && isIPv4(x.address) && !same(x.one.value, x.two.value)
    ensures var hosts := Collect(doc, isIPv4, x.root, "all", 0, [], [], {});
            && hosts.Some? && |hosts.value| == 1 && hosts.value[0].address == x.address
            && var sources := hosts.value[0].sources;
            && LooksUp(sources, x.variable, same, Conflict)
            && LooksUp(Dedupe(sources), x.variable, same, Value(x.one.value, "group " + x.name))
            && !DropsAreIdle(sources, x.variable, same)
  {
    var twins := TwinsOf(doc, x);
    LayoutHasTwins(doc, x);
    TwinsCollect(doc, isIPv4, twins);
    HiddenByName(twins.vars, twins.others, x.variable, same, "group " + x.name, 2);
  }

  lemma HiddenByName(vars: map<string, Id>, others: map<string, Id>, key: string, same: Same, name: string, depth: nat)
    requires key in vars && key in others && !same(vars[key], others[key])
    ensures var sources := [Source(name, depth, vars), Source(name, depth, others)];
            && LooksUp(sources, key, same, Conflict)
            && LooksUp(Dedupe(sources), key, same, Value(vars[key], name))
            && !DropsAreIdle(sources, key, same)
  {
    var sources := [Source(name, depth, vars), Source(name, depth, others)];
    NamesakesHideConflict(vars, others, key, same, name, depth);
    DedupeIsExact(sources, key, same);
    ScanLooksUp(sources, key, same);
    ScanLooksUp(Dedupe(sources), key, same);
    LookupIsUnique(sources, key, same, Conflict, Report(Scan(sources, key, same)));
    LookupIsUnique(Dedupe(sources), key, same, Value(vars[key], name), Report(Scan(Dedupe(sources), key, same)));
  }

  // ---------------------------------------------------------------- one of them

  /** all: two parents, east and west, each with a group db, one with pg_seq 2 and the other with pg_seq 4. The group in
      the west takes its host list, 10.0.0.1, by an alias from the one in the east. */
  function NodeAt(id: Id): Node
  {
    match id
    case 0 => Map([1, 2])
    case 1 => Text("children")
    case 2 => Map([3, 4, 5, 6])
    case 3 => Text("east")
    case 4 => Map([7, 8])
    case 5 => Text("west")
    case 6 => Map([9, 10])
    case 7 => Text("children")
    case 8 => Map([11, 12])
    case 9 => Text("children")
    case 10 => Map([13, 14])
    case 11 => Text("db")
    case 12 => Map([15, 16, 17, 18])
    case 13 => Text("db")
    case 14 => Map([19, 20, 21, 22])
    case 15 => Text("hosts")
    case 16 => Map([23, 24])
    case 17 => Text("vars")
    case 18 => Map([25, 26])
    case 19 => Text("hosts")
    case 20 => Node(Alias, "", "", [], Some(16))
    case 21 => Text("vars")
    case 22 => Map([27, 28])
    case 23 => Text("10.0.0.1")
    case 24 => Node(Scalar, "!!null", "", [], None)
    case 25 => Text("pg_seq")
    case 26 => Text("2")
    case 27 => Text("pg_seq")
    case _ => Text("4")
  }

  const INVENTORY: Doc := map id: Id | 0 <= id < 29 :: NodeAt(id)

  const EAST := Branch(4, 7, 8, 11, 12, 15, 16, 17, 18, 25, 26)

  const WEST := Branch(6, 9, 10, 13, 14, 19, 20, 21, 22, 27, 28)

  const LAYOUT := Layout(0, 1, 2, 3, 5, EAST, WEST, 16, 23, 24, "db", "10.0.0.1", "pg_seq")

  lemma TextsAreOrdinary()
    ensures KeyAllowed("pg_seq") && "pg_seq" != "<<" && "10.0.0.1" != "<<" && "db" != "<<"
  {
    assert "pg_seq"[..3][0] != "vm_"[0];
    assert "10.0.0.1"[0] == '1' && "pg_seq"[0] == 'p' && "db"[0] == 'd';
  }

  /** The document has these nodes. */
  predicate Written(doc: Doc)
  {
    forall id :: 0 <= id < 29 ==> id in doc && doc[id] == NodeAt(id)
  }

  lemma EastParent(doc: Doc)
    requires Written(doc)
    ensures ParentIn(doc, EAST, "db")
  {
    assert doc[7] == NodeAt(7) && doc[11] == NodeAt(11) && doc[4] == NodeAt(4) && doc[8] == NodeAt(8) && doc[12] == NodeAt(12);
    TextsAreOrdinary();
  }

  lemma WestParent(doc: Doc)
    requires Written(doc)
    ensures ParentIn(doc, WEST, "db")
  {
    assert doc[9] == NodeAt(9) && doc[13] == NodeAt(13) && doc[6] == NodeAt(6) && doc[10] == NodeAt(10) && doc[14] == NodeAt(14);
    TextsAreOrdinary();
  }

  lemma BothVariables(doc: Doc)
    requires Written(doc)
    ensures VariableIn(doc, 18, 25, 26, "pg_seq") && VariableIn(doc, 22, 27, 28, "pg_seq")
  {
    assert doc[25] == NodeAt(25) && doc[18] == NodeAt(18) && doc[26] == NodeAt(26);
    assert doc[27] == NodeAt(27) && doc[22] == NodeAt(22) && doc[28] == NodeAt(28);
    TextsAreOrdinary();
  }

  lemma BothHosts(doc: Doc)
    requires Written(doc)
    ensures Resolved(doc, 16) == Some(16) && Resolved(doc, 20) == Some(16)
  {
    assert doc[16] == NodeAt(16) && doc[20] == NodeAt(20);
    assert Resolve(doc, 16, MAX_LINKS - 1) == Some(16);
  }

  lemma BothGroups(doc: Doc)
    requires Written(doc)
    ensures KeyIs(doc, 15, "hosts") && KeyIs(doc, 17, "vars") && doc[12] == Map([15, 16, 17, 18])
    ensures KeyIs(doc, 19, "hosts") && KeyIs(doc, 21, "vars") && doc[14] == Map([19, 20, 21, 22])
  {
    assert doc[15] == NodeAt(15) && doc[17] == NodeAt(17) && doc[12] == NodeAt(12);
    assert doc[19] == NodeAt(19) && doc[21] == NodeAt(21) && doc[14] == NodeAt(14);
  }

  lemma BothLeaves(doc: Doc)
    requires Written(doc)
    ensures LeafIn(doc, EAST, 16, "pg_seq") && LeafIn(doc, WEST, 16, "pg_seq")
  {
    BothVariables(doc);
    BothHosts(doc);
    BothGroups(doc);
  }

  lemma HostList(doc: Doc)
    requires Written(doc)
    ensures ListIn(doc, 16, 23, 24, "10.0.0.1")
  {
    assert doc[23] == NodeAt(23) && doc[16] == NodeAt(16) && doc[24] == NodeAt(24);
    TextsAreOrdinary();
  }

  lemma RootOfAll(doc: Doc)
    requires Written(doc)
    ensures RootIn(doc, LAYOUT)
  {
    assert doc[0] == NodeAt(0) && doc[1] == NodeAt(1) && doc[2] == NodeAt(2) && doc[3] == NodeAt(3) && doc[5] == NodeAt(5);
    assert doc[4] == NodeAt(4) && doc[6] == NodeAt(6);
    assert "east"[0] == 'e' && "west"[0] == 'w';
  }

  lemma WrittenIsLaidOut(doc: Doc)
    requires Written(doc)
    ensures LayoutIn(doc, LAYOUT)
  {
    assert ParentIn(doc, EAST, "db") && ParentIn(doc, WEST, "db") by {
      EastParent(doc);
      WestParent(doc);
    }
    assert LeafIn(doc, EAST, 16, "pg_seq") && LeafIn(doc, WEST, 16, "pg_seq") by {
      BothLeaves(doc);
    }
    assert RootIn(doc, LAYOUT) && ListIn(doc, 16, 23, 24, "10.0.0.1") by {
      RootOfAll(doc);
      HostList(doc);
    }
  }

  /** Two different values of pg_seq for 10.0.0.1 are a conflict, unless they are read after deduplication. */
  lemma InventoryHidesConflict(doc: Doc, x: Layout, isIPv4: AddressTest, same: Same)
    requires doc == INVENTORY && x == LAYOUT && isIPv4(x.address) && !same(x.one.value, x.two.value)
    ensures var hosts := Collect(doc, isIPv4, x.root, "all", 0, [], [], {});
            && hosts.Some? && |hosts.value| == 1 && hosts.value[0].address == x.address
            && var sources := hosts.value[0].sources;
            && LooksUp(sources, x.variable, same, Conflict)
            && LooksUp(Dedupe(sources), x.variable, same, Value(x.one.value, "group " + x.name))
  {
    WrittenIsLaidOut(doc);
    NamesakeGroupsHideConflict(doc, isIPv4, x, same);
  }
}
