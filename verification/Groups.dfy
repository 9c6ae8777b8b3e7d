/** Collecting the hosts of an inventory: every group on the way to a host contributes its variables at its nesting
    depth, the host its own, and nothing else does. */
module Groups {
  import opened Wrappers
  import opened Collections
  import opened YamlGraph
  import opened Variables

  type AddressTest = string -> bool

  const KNOWN_VM_KEYS := {
    "vm_skip", "vm_image", "vm_version", "vm_arch", "vm_cpu", "vm_mem", "vm_disk", "vm_disks", "vm_alias", "vm_shares"}

  predicate KeyAllowed(key: string)
  {
    |key| < 3 || key[..3] != "vm_" || key in KNOWN_VM_KEYS
  }

  function EntryMap(entries: seq<Entry>): (vars: map<string, Id>)
  {
    if entries == [] then map[] else EntryMap(entries[..|entries| - 1])[entries[|entries| - 1].key := entries[|entries| - 1].value]
  }

  /** The variables of a mapping, in which the vm_ namespace is strict. */
  function VarsOf(doc: Doc, node: Option<Id>): Option<map<string, Id>>
    requires node.Some? ==> node.value in doc
  {
    match MappingEntries(doc, node)
    case None => None
    case Some(entries) =>
      if exists i :: 0 <= i < |entries| && !KeyAllowed(entries[i].key) then None else Some(EntryMap(entries))
  }

  /** Every effective value is a node of the document. */
  predicate ValuesIn(doc: Doc, entries: seq<Entry>)
  {
    forall i :: 0 <= i < |entries| ==> entries[i].value in doc
  }

  lemma {:induction false} ExtendInside(doc: Doc, entries: seq<Entry>, merged: seq<Entry>)
    requires ValuesIn(doc, entries) && ValuesIn(doc, merged)
    ensures ValuesIn(doc, Extend(entries, merged))
    decreases |merged|
  {
    if merged != [] {
      ExtendInside(doc, if HasKey(entries, merged[0].key) then entries else entries + [merged[0]], merged[1..]);
    }
  }

  lemma {:induction false} EffectiveInside(doc: Doc, id: Id, visiting: set<Id>)
    requires id in doc
    ensures Effective(doc, id, visiting).Some? ==> ValuesIn(doc, Effective(doc, id, visiting).value)
    decreases |doc.Keys - visiting|, 0
  {
    if !Blank(doc[id]) && id !in visiting && Proper(doc, id) {
      assert doc.Keys - (visiting + {id}) < doc.Keys - visiting;
      Smaller(doc.Keys - (visiting + {id}), doc.Keys - visiting);
      MergeAllInside(doc, Own(doc, id), Sources(doc, id), visiting + {id});
    }
  }

  lemma {:induction false} MergeAllInside(doc: Doc, entries: seq<Entry>, sources: seq<Id>, visiting: set<Id>)
    requires (forall i :: 0 <= i < |sources| ==> sources[i] in doc) && ValuesIn(doc, entries)
    ensures MergeAll(doc, entries, sources, visiting).Some? ==> ValuesIn(doc, MergeAll(doc, entries, sources, visiting).value)
    decreases |doc.Keys - visiting|, 1 + |sources|
  {
    if sources != [] && Effective(doc, sources[0], visiting).Some? {
      EffectiveInside(doc, sources[0], visiting);
      var merged := Effective(doc, sources[0], visiting).value;
      ExtendInside(doc, entries, merged);
      MergeAllInside(doc, Extend(entries, merged), sources[1..], visiting);
    }
  }

  lemma {:induction false} GetInside(doc: Doc, entries: seq<Entry>, key: string)
    requires ValuesIn(doc, entries)
    ensures Get(entries, key).Some? ==> Get(entries, key).value in doc
  {
    if entries != [] {
      GetInside(doc, entries[1..], key);
    }
  }

  /** The value of one field of a mapping; the outer option is the failure of the mapping. */
  function Field(doc: Doc, id: Id, key: string): (field: Option<Option<Id>>)
    requires id in doc
    ensures field.Some? && field.value.Some? ==> field.value.value in doc
  {
    match Effective(doc, id, {})
    case None => None
    case Some(entries) =>
      EffectiveInside(doc, id, {});
      GetInside(doc, entries, key);
      Some(Get(entries, key))
  }

  function FieldVars(doc: Doc, id: Id): Option<map<string, Id>>
    requires id in doc
  {
    match Field(doc, id, "vars")
    case None => None
    case Some(node) => VarsOf(doc, node)
  }

  function FieldEntries(doc: Doc, id: Id, key: string): (entries: Option<seq<Entry>>)
    requires id in doc
    ensures entries.Some? ==> ValuesIn(doc, entries.value)
  {
    match Field(doc, id, key)
    case None => None
    case Some(node) =>
      if node.Some? && Resolved(doc, node.value).Some? then
        EffectiveInside(doc, Resolved(doc, node.value).value, {});
        MappingEntries(doc, node)
      else MappingEntries(doc, node)
  }

  // ---------------------------------------------------------------- collecting

  function Contributed(inherited: seq<Source>, origin: string, depth: nat, vars: map<string, Id>): seq<Source>
  {
    if vars == map[] then inherited else inherited + [Source(origin, depth, vars)]
  }

  function AddSources(hosts: seq<Host>, address: string, sources: seq<Source>): seq<Host>
  {
    if hosts == [] then [Host(address, sources)]
    else if hosts[0].address == address then [Host(address, hosts[0].sources + sources)] + hosts[1..]
    else [hosts[0]] + AddSources(hosts[1..], address, sources)
  }

  function CollectListed(doc: Doc, isIPv4: AddressTest, entries: seq<Entry>, origin: string, sources: seq<Source>, hosts: seq<Host>): Option<seq<Host>>
    requires ValuesIn(doc, entries)
    decreases |entries|
  {
    if entries == [] then Some(hosts)
    else if !isIPv4(entries[0].key) then None
    else
      match VarsOf(doc, Some(entries[0].value))
      case None => None
      case Some(vars) =>
        var own := Contributed(sources, origin + " host " + entries[0].key, HOST_DEPTH, vars);
        CollectListed(doc, isIPv4, entries[1..], origin, sources, AddSources(hosts, entries[0].key, own))
  }

  function Collect(doc: Doc, isIPv4: AddressTest, node: Id, origin: string, depth: nat, inherited: seq<Source>, hosts: seq<Host>, visiting: set<Id>): Option<seq<Host>>
    requires node in doc
    decreases MAX_DEPTH + 1 - depth, 0
  {
    if depth > MAX_DEPTH then None
    else
      var group := Resolved(doc, node);
      if group.None? || doc[group.value].kind != Mapping || group.value in visiting then None
      else
        var id := group.value;
        var vars := FieldVars(doc, id);
        var listed := FieldEntries(doc, id, "hosts");
        var children := FieldEntries(doc, id, "children");
        if vars.None? || listed.None? || children.None? then None
        else
          var sources := Contributed(inherited, origin, depth, vars.value);
          match CollectListed(doc, isIPv4, listed.value, origin, sources, hosts)
          case None => None
          case Some(more) => CollectChildren(doc, isIPv4, children.value, depth, sources, more, visiting + {id})
  }

  function CollectChildren(doc: Doc, isIPv4: AddressTest, children: seq<Entry>, depth: nat, sources: seq<Source>, hosts: seq<Host>, visiting: set<Id>): Option<seq<Host>>
    requires ValuesIn(doc, children) && depth <= MAX_DEPTH
    decreases MAX_DEPTH - depth, 1 + |children|
  {
    if children == [] then Some(hosts)
    else
      match Collect(doc, isIPv4, children[0].value, "group " + children[0].key, depth + 1, sources, hosts, visiting)
      case None => None
      case Some(more) => CollectChildren(doc, isIPv4, children[1..], depth, sources, more, visiting)
  }

  // ---------------------------------------------------------------- group paths

  /** A group on a path, with the name it is reached by. */
  datatype Link = Link(origin: string, id: Id)

  predicate ChildOf(doc: Doc, parent: Id, child: Link)
    requires parent in doc
  {
    var children := FieldEntries(doc, parent, "children");
    children.Some? && exists i :: 0 <= i < |children.value| && ChildAt(doc, children.value, i, child)
  }

  predicate ChildAt(doc: Doc, children: seq<Entry>, i: nat, child: Link)
    requires i < |children|
  {
    && child.origin == "group " + children[i].key
    && children[i].value in doc && Resolved(doc, children[i].value) == Some(child.id)
  }

  predicate GroupPath(doc: Doc, path: seq<Link>)
  {
    && path != [] && (forall i :: 0 <= i < |path| ==> path[i].id in doc)
    && forall i :: 0 <= i < |path| - 1 ==> ChildOf(doc, path[i].id, path[i + 1])
  }

  /** Some group of the path gives the source, at its nesting depth counted from depth. */
  predicate Along(doc: Doc, path: seq<Link>, depth: nat, source: Source)
    requires GroupPath(doc, path)
  {
    exists k :: 0 <= k < |path| && source.origin == path[k].origin && source.depth == depth + k
                && FieldVars(doc, path[k].id) == Some(source.vars) && source.vars != map[]
  }

  predicate Lists(doc: Doc, id: Id, address: string)
    requires id in doc
  {
    var listed := FieldEntries(doc, id, "hosts");
    listed.Some? && HasKey(listed.value, address)
  }

  /** The source is the host's own: the variables of its entry in the host list of this group. */
  predicate OwnAt(doc: Doc, group: Link, entries: seq<Entry>, i: nat, address: string, source: Source)
    requires i < |entries| && entries[i].value in doc
  {
    && entries[i].key == address && VarsOf(doc, Some(entries[i].value)) == Some(source.vars) && source.vars != map[]
    && source.origin == group.origin + " host " + address && source.depth == HOST_DEPTH
  }

  predicate HostLevel(doc: Doc, group: Link, address: string, source: Source)
    requires group.id in doc
  {
    var listed := FieldEntries(doc, group.id, "hosts");
    listed.Some? && exists i :: 0 <= i < |listed.value| && OwnAt(doc, group, listed.value, i, address, source)
  }

  /** The path leads from the root to a group that lists the host. */
  predicate LeadsTo(doc: Doc, root: Link, path: seq<Link>, address: string)
  {
    GroupPath(doc, path) && path[0] == root && Lists(doc, path[|path| - 1].id, address)
  }

  /** What such a path brings to the host: the sources given outside the groups, those of its groups, and the host's
      own in the last of them. */
  predicate Brings(doc: Doc, root: Link, path: seq<Link>, depth: nat, outside: seq<Source>, address: string, source: Source)
  {
    && LeadsTo(doc, root, path, address)
    && (source in outside || Along(doc, path, depth, source) || HostLevel(doc, path[|path| - 1], address, source))
  }

  ghost predicate Owed(doc: Doc, root: Link, depth: nat, outside: seq<Source>, address: string, source: Source)
  {
    exists path :: Brings(doc, root, path, depth, outside, address, source)
  }

  ghost predicate Reached(doc: Doc, root: Link, address: string)
  {
    exists path :: LeadsTo(doc, root, path, address)
  }

  // ---------------------------------------------------------------- what a list of hosts holds

  predicate Present(hosts: seq<Host>, address: string)
  {
    exists i :: 0 <= i < |hosts| && hosts[i].address == address
  }

  predicate Has(hosts: seq<Host>, address: string, source: Source)
  {
    exists i :: 0 <= i < |hosts| && hosts[i].address == address && source in hosts[i].sources
  }

  lemma ConsHas(head: Host, tail: seq<Host>, address: string, source: Source)
    ensures Present([head] + tail, address) <==> head.address == address || Present(tail, address)
    ensures Has([head] + tail, address, source) <==> (head.address == address && source in head.sources) || Has(tail, address, source)
  {
    var all := [head] + tail;
    assert all[0] == head && forall i :: 0 <= i < |tail| ==> tail[i] == all[i + 1];
  }

  /** Adding sources to one address gives them to that host and changes no other. */
  lemma {:induction false} AddedExactly(hosts: seq<Host>, address: string, sources: seq<Source>, other: string, source: Source)
    ensures var after := AddSources(hosts, address, sources);
            && (Present(after, other) <==> Present(hosts, other) || other == address)
            && (Has(after, other, source) <==> Has(hosts, other, source) || (other == address && source in sources))
  {
    if hosts == [] {
      assert AddSources(hosts, address, sources)[0] == Host(address, sources);
    } else {
      assert hosts == [hosts[0]] + hosts[1..];
      ConsHas(hosts[0], hosts[1..], other, source);
      if hosts[0].address == address {
        ConsHas(Host(address, hosts[0].sources + sources), hosts[1..], other, source);
      } else {
        AddedExactly(hosts[1..], address, sources, other, source);
        ConsHas(hosts[0], AddSources(hosts[1..], address, sources), other, source);
      }
    }
  }

  /** The entries of a host list, from n on, that give the source to the host. */
  predicate Gives(doc: Doc, group: Link, entries: seq<Entry>, n: nat, sources: seq<Source>, address: string, source: Source)
    requires ValuesIn(doc, entries)
  {
    exists i :: n <= i < |entries| && entries[i].key == address && (source in sources || OwnAt(doc, group, entries, i, address, source))
  }

  predicate KeyFrom(entries: seq<Entry>, n: nat, address: string)
  {
    exists i :: n <= i < |entries| && entries[i].key == address
  }

  lemma ContributedExactly(inherited: seq<Source>, origin: string, depth: nat, vars: map<string, Id>, source: Source)
    ensures source in Contributed(inherited, origin, depth, vars) <==>
              source in inherited || (source == Source(origin, depth, vars) && vars != map[])
  {
  }

  lemma {:induction false} ListedExactly(doc: Doc, isIPv4: AddressTest, group: Link, entries: seq<Entry>, n: nat, sources: seq<Source>, hosts: seq<Host>, address: string, source: Source)
    requires ValuesIn(doc, entries) && n <= |entries|
    requires CollectListed(doc, isIPv4, entries[n..], group.origin, sources, hosts).Some?
    ensures var after := CollectListed(doc, isIPv4, entries[n..], group.origin, sources, hosts).value;
            && (Present(after, address) <==> Present(hosts, address) || KeyFrom(entries, n, address))
            && (Has(after, address, source) <==> Has(hosts, address, source) || Gives(doc, group, entries, n, sources, address, source))
    decreases |entries| - n
  {
    if n < |entries| {
      var rest := entries[n..];
      assert rest[0] == entries[n] && rest[1..] == entries[n + 1..];
      var vars := VarsOf(doc, Some(entries[n].value)).value;
      var origin := group.origin + " host " + entries[n].key;
      var own := Contributed(sources, origin, HOST_DEPTH, vars);
      ContributedExactly(sources, origin, HOST_DEPTH, vars, source);
      AddedExactly(hosts, entries[n].key, own, address, source);
      ListedExactly(doc, isIPv4, group, entries, n + 1, sources, AddSources(hosts, entries[n].key, own), address, source);
      GivesStep(doc, group, entries, n, sources, address, source);
    }
  }

  lemma GivesStep(doc: Doc, group: Link, entries: seq<Entry>, n: nat, sources: seq<Source>, address: string, source: Source)
    requires ValuesIn(doc, entries) && n < |entries|
    ensures KeyFrom(entries, n, address) <==> entries[n].key == address || KeyFrom(entries, n + 1, address)
    ensures Gives(doc, group, entries, n, sources, address, source) <==>
              || (entries[n].key == address && (source in sources || OwnAt(doc, group, entries, n, address, source)))
              || Gives(doc, group, entries, n + 1, sources, address, source)
  {
  }

  // ---------------------------------------------------------------- paths through one group

  lemma Extended(doc: Doc, group: Link, child: Link, path: seq<Link>)
    requires group.id in doc && GroupPath(doc, path) && path[0] == child && ChildOf(doc, group.id, child)
    ensures GroupPath(doc, [group] + path)
  {
    var longer := [group] + path;
    forall i | 0 <= i < |longer| - 1
      ensures ChildOf(doc, longer[i].id, longer[i + 1])
    {
      if i > 0 {
        assert longer[i] == path[i - 1] && longer[i + 1] == path[i];
      }
    }
  }

  lemma TailIsPath(doc: Doc, path: seq<Link>)
    requires GroupPath(doc, path) && |path| > 1
    ensures GroupPath(doc, path[1..]) && ChildOf(doc, path[0].id, path[1])
  {
    var tail := path[1..];
    forall i | 0 <= i < |tail| - 1
      ensures ChildOf(doc, tail[i].id, tail[i + 1])
    {
      assert tail[i] == path[i + 1] && tail[i + 1] == path[i + 2];
    }
  }

  lemma AlongTail(doc: Doc, path: seq<Link>, depth: nat, source: Source)
    requires GroupPath(doc, path) && |path| > 1 && GroupPath(doc, path[1..])
    ensures GroupPath(doc, path[..1])
    ensures Along(doc, path, depth, source) <==> Along(doc, path[..1], depth, source) || Along(doc, path[1..], depth + 1, source)
  {
    var tail := path[1..];
    assert forall k :: 0 <= k < |tail| ==> tail[k] == path[k + 1];
    assert path[..1][0] == path[0];
    if Along(doc, path, depth, source) {
      var k :| 0 <= k < |path| && source.origin == path[k].origin && source.depth == depth + k
               && FieldVars(doc, path[k].id) == Some(source.vars) && source.vars != map[];
      if k > 0 {
        assert tail[k - 1] == path[k];
      }
    }
    if Along(doc, tail, depth + 1, source) {
      var k :| 0 <= k < |tail| && source.origin == tail[k].origin && source.depth == depth + 1 + k
               && FieldVars(doc, tail[k].id) == Some(source.vars) && source.vars != map[];
      assert path[k + 1] == tail[k];
    }
  }

  /** A source that one of the children from n on is owed. */
  ghost predicate OwedBelow(doc: Doc, children: seq<Entry>, n: nat, depth: nat, sources: seq<Source>, address: string, source: Source)
  {
    exists i, child :: n <= i < |children| && ChildAt(doc, children, i, child) && Owed(doc, child, depth, sources, address, source)
  }

  ghost predicate ReachedBelow(doc: Doc, children: seq<Entry>, n: nat, address: string)
  {
    exists i, child :: n <= i < |children| && ChildAt(doc, children, i, child) && Reached(doc, child, address)
  }

  lemma GoesDown(doc: Doc, group: Link, path: seq<Link>, children: seq<Entry>, address: string) returns (i: nat)
    requires group.id in doc && FieldEntries(doc, group.id, "children") == Some(children)
    requires LeadsTo(doc, group, path, address) && |path| > 1
    ensures i < |children| && ChildAt(doc, children, i, path[1]) && LeadsTo(doc, path[1], path[1..], address)
    ensures path[1..][|path| - 2] == path[|path| - 1]
  {
    TailIsPath(doc, path);
    i :| 0 <= i < |children| && ChildAt(doc, children, i, path[1]);
  }

  lemma ReachedGoesDown(doc: Doc, group: Link, path: seq<Link>, listed: seq<Entry>, children: seq<Entry>, address: string)
    requires group.id in doc && FieldEntries(doc, group.id, "hosts") == Some(listed)
    requires FieldEntries(doc, group.id, "children") == Some(children) && LeadsTo(doc, group, path, address)
    ensures KeyFrom(listed, 0, address) || ReachedBelow(doc, children, 0, address)
  {
    if |path| > 1 {
      var i := GoesDown(doc, group, path, children, address);
      assert Reached(doc, path[1], address);
    } else {
      assert path[|path| - 1] == group;
    }
  }

  lemma ReachedComesUp(doc: Doc, group: Link, child: Link, address: string)
    requires group.id in doc && ChildOf(doc, group.id, child) && Reached(doc, child, address)
    ensures Reached(doc, group, address)
  {
    var path :| LeadsTo(doc, child, path, address);
    Extended(doc, group, child, path);
    var longer := [group] + path;
    assert longer[|longer| - 1] == path[|path| - 1];
    assert LeadsTo(doc, group, longer, address);
  }

  lemma EndsHere(doc: Doc, group: Link, listed: seq<Entry>, address: string)
    requires group.id in doc && FieldEntries(doc, group.id, "hosts") == Some(listed) && KeyFrom(listed, 0, address)
    ensures LeadsTo(doc, group, [group], address)
  {
  }

  /** A path through a group either ends there or goes on to one of its children. */
  lemma ReachedSplits(doc: Doc, group: Link, listed: seq<Entry>, children: seq<Entry>, address: string)
    requires group.id in doc && FieldEntries(doc, group.id, "hosts") == Some(listed)
    requires FieldEntries(doc, group.id, "children") == Some(children)
    ensures Reached(doc, group, address) <==> KeyFrom(listed, 0, address) || ReachedBelow(doc, children, 0, address)
  {
    if path :| LeadsTo(doc, group, path, address) {
      ReachedGoesDown(doc, group, path, listed, children, address);
    }
    if KeyFrom(listed, 0, address) {
      EndsHere(doc, group, listed, address);
    }
    if i, child :| 0 <= i < |children| && ChildAt(doc, children, i, child) && Reached(doc, child, address) {
      ReachedComesUp(doc, group, child, address);
    }
  }

  lemma AlongHere(doc: Doc, group: Link, path: seq<Link>, depth: nat, inherited: seq<Source>, sources: seq<Source>, source: Source)
    requires GroupPath(doc, path) && |path| == 1 && path[0] == group && FieldVars(doc, group.id).Some?
    requires sources == Contributed(inherited, group.origin, depth, FieldVars(doc, group.id).value)
    ensures source in inherited || Along(doc, path, depth, source) <==> source in sources
  {
    ContributedExactly(inherited, group.origin, depth, FieldVars(doc, group.id).value, source);
  }

  lemma OwedBelowIsOwed(doc: Doc, group: Link, path: seq<Link>, depth: nat, inherited: seq<Source>, sources: seq<Source>, children: seq<Entry>, address: string, source: Source)
    requires group.id in doc && FieldEntries(doc, group.id, "children") == Some(children) && FieldVars(doc, group.id).Some?
    requires sources == Contributed(inherited, group.origin, depth, FieldVars(doc, group.id).value)
    requires Brings(doc, group, path, depth, inherited, address, source) && |path| > 1
    ensures OwedBelow(doc, children, 0, depth + 1, sources, address, source)
  {
    var i := GoesDown(doc, group, path, children, address);
    AlongTail(doc, path, depth, source);
    AlongHere(doc, group, path[..1], depth, inherited, sources, source);
    assert Brings(doc, path[1], path[1..], depth + 1, sources, address, source);
    assert Owed(doc, path[1], depth + 1, sources, address, source);
  }

  lemma OwedGoesDown(doc: Doc, group: Link, path: seq<Link>, depth: nat, inherited: seq<Source>, sources: seq<Source>, listed: seq<Entry>, children: seq<Entry>, address: string, source: Source)
    requires group.id in doc && FieldEntries(doc, group.id, "hosts") == Some(listed)
    requires FieldEntries(doc, group.id, "children") == Some(children) && FieldVars(doc, group.id).Some?
    requires sources == Contributed(inherited, group.origin, depth, FieldVars(doc, group.id).value)
    requires Brings(doc, group, path, depth, inherited, address, source)
    ensures Gives(doc, group, listed, 0, sources, address, source) || OwedBelow(doc, children, 0, depth + 1, sources, address, source)
  {
    if |path| > 1 {
      OwedBelowIsOwed(doc, group, path, depth, inherited, sources, children, address, source);
    } else {
      assert path[|path| - 1] == group;
      AlongHere(doc, group, path, depth, inherited, sources, source);
    }
  }

  lemma OwedComesUp(doc: Doc, group: Link, child: Link, depth: nat, inherited: seq<Source>, sources: seq<Source>, address: string, source: Source)
    requires group.id in doc && FieldVars(doc, group.id).Some? && ChildOf(doc, group.id, child)
    requires sources == Contributed(inherited, group.origin, depth, FieldVars(doc, group.id).value)
    requires Owed(doc, child, depth + 1, sources, address, source)
    ensures Owed(doc, group, depth, inherited, address, source)
  {
    var path :| Brings(doc, child, path, depth + 1, sources, address, source);
    Extended(doc, group, child, path);
    var longer := [group] + path;
    assert longer[1..] == path && longer[|longer| - 1] == path[|path| - 1] && longer[..1][0] == group;
    AlongTail(doc, longer, depth, source);
    AlongHere(doc, group, longer[..1], depth, inherited, sources, source);
    assert Brings(doc, group, longer, depth, inherited, address, source);
  }

  lemma GivenHere(doc: Doc, group: Link, depth: nat, inherited: seq<Source>, sources: seq<Source>, listed: seq<Entry>, address: string, source: Source)
    requires group.id in doc && FieldEntries(doc, group.id, "hosts") == Some(listed) && FieldVars(doc, group.id).Some?
    requires sources == Contributed(inherited, group.origin, depth, FieldVars(doc, group.id).value)
    requires Gives(doc, group, listed, 0, sources, address, source)
    ensures Brings(doc, group, [group], depth, inherited, address, source)
  {
    EndsHere(doc, group, listed, address);
    ContributedExactly(inherited, group.origin, depth, FieldVars(doc, group.id).value, source);
    assert [group][0] == group;
  }

  lemma OwedSplits(doc: Doc, group: Link, depth: nat, inherited: seq<Source>, sources: seq<Source>, listed: seq<Entry>, children: seq<Entry>, address: string, source: Source)
    requires group.id in doc && FieldEntries(doc, group.id, "hosts") == Some(listed)
    requires FieldEntries(doc, group.id, "children") == Some(children) && FieldVars(doc, group.id).Some?
    requires sources == Contributed(inherited, group.origin, depth, FieldVars(doc, group.id).value)
    ensures Owed(doc, group, depth, inherited, address, source) <==>
              Gives(doc, group, listed, 0, sources, address, source) || OwedBelow(doc, children, 0, depth + 1, sources, address, source)
  {
    if path :| Brings(doc, group, path, depth, inherited, address, source) {
      OwedGoesDown(doc, group, path, depth, inherited, sources, listed, children, address, source);
    }
    if Gives(doc, group, listed, 0, sources, address, source) {
      GivenHere(doc, group, depth, inherited, sources, listed, address, source);
    }
    if i, child :| 0 <= i < |children| && ChildAt(doc, children, i, child) && Owed(doc, child, depth + 1, sources, address, source) {
      OwedComesUp(doc, group, child, depth, inherited, sources, address, source);
    }
  }

  lemma BelowStep(doc: Doc, children: seq<Entry>, n: nat, child: Link, depth: nat, sources: seq<Source>, address: string, source: Source)
    requires n < |children| && ChildAt(doc, children, n, child)
    ensures ReachedBelow(doc, children, n, address) <==> Reached(doc, child, address) || ReachedBelow(doc, children, n + 1, address)
    ensures OwedBelow(doc, children, n, depth, sources, address, source) <==>
              Owed(doc, child, depth, sources, address, source) || OwedBelow(doc, children, n + 1, depth, sources, address, source)
  {
  }

  // ---------------------------------------------------------------- what collecting gives

  lemma {:induction false} CollectExactly(doc: Doc, isIPv4: AddressTest, node: Id, origin: string, depth: nat, inherited: seq<Source>, hosts: seq<Host>, visiting: set<Id>, address: string, source: Source)
    requires node in doc && Collect(doc, isIPv4, node, origin, depth, inherited, hosts, visiting).Some?
    ensures var group := Link(origin, Resolved(doc, node).value);
            var after := Collect(doc, isIPv4, node, origin, depth, inherited, hosts, visiting).value;
            && (Present(after, address) <==> Present(hosts, address) || Reached(doc, group, address))
            && (Has(after, address, source) <==> Has(hosts, address, source) || Owed(doc, group, depth, inherited, address, source))
    decreases MAX_DEPTH + 1 - depth, 0
  {
    var group := Link(origin, Resolved(doc, node).value);
    var listed, children := FieldEntries(doc, group.id, "hosts").value, FieldEntries(doc, group.id, "children").value;
    var sources := Contributed(inherited, origin, depth, FieldVars(doc, group.id).value);
    assert listed[0..] == listed && children[0..] == children;
    ListedExactly(doc, isIPv4, group, listed, 0, sources, hosts, address, source);
    var more := CollectListed(doc, isIPv4, listed, origin, sources, hosts).value;
    ChildrenExactly(doc, isIPv4, children, 0, depth, sources, more, visiting + {group.id}, address, source);
    ReachedSplits(doc, group, listed, children, address);
    OwedSplits(doc, group, depth, inherited, sources, listed, children, address, source);
  }

  lemma {:induction false} ChildrenExactly(doc: Doc, isIPv4: AddressTest, children: seq<Entry>, n: nat, depth: nat, sources: seq<Source>, hosts: seq<Host>, visiting: set<Id>, address: string, source: Source)
    requires ValuesIn(doc, children) && n <= |children| && depth <= MAX_DEPTH
    requires CollectChildren(doc, isIPv4, children[n..], depth, sources, hosts, visiting).Some?
    ensures var after := CollectChildren(doc, isIPv4, children[n..], depth, sources, hosts, visiting).value;
            && (Present(after, address) <==> Present(hosts, address) || ReachedBelow(doc, children, n, address))
            && (Has(after, address, source) <==>
                  Has(hosts, address, source) || OwedBelow(doc, children, n, depth + 1, sources, address, source))
    decreases MAX_DEPTH - depth, 1 + |children| - n
  {
    if n < |children| {
      var rest := children[n..];
      assert rest[0] == children[n] && rest[1..] == children[n + 1..];
      var origin := "group " + children[n].key;
      CollectExactly(doc, isIPv4, children[n].value, origin, depth + 1, sources, hosts, visiting, address, source);
      var more := Collect(doc, isIPv4, children[n].value, origin, depth + 1, sources, hosts, visiting).value;
      ChildrenExactly(doc, isIPv4, children, n + 1, depth, sources, more, visiting, address, source);
      BelowStep(doc, children, n, Link(origin, Resolved(doc, children[n].value).value), depth + 1, sources, address, source);
    }
  }

  /** The hosts of an inventory are exactly the listed addresses. Each has exactly the sources that the group paths
      leading to it bring: those given outside, those of the groups on the path at their nesting depth, and its own
      variables in the last group; no other host's variables and no other group's reach it. */
  lemma HostsGetTheirGroups(doc: Doc, isIPv4: AddressTest, all: Id, outside: seq<Source>)
    requires all in doc && Collect(doc, isIPv4, all, "all", 0, outside, [], {}).Some?
    ensures var root := Link("all", Resolved(doc, all).value);
            var hosts := Collect(doc, isIPv4, all, "all", 0, outside, [], {}).value;
            && (forall address :: Present(hosts, address) <==> Reached(doc, root, address))
            && forall address, source :: Has(hosts, address, source) <==> Owed(doc, root, 0, outside, address, source)
  {
    var root := Link("all", Resolved(doc, all).value);
    var hosts := Collect(doc, isIPv4, all, "all", 0, outside, [], {}).value;
    forall address, source
      ensures Present(hosts, address) <==> Reached(doc, root, address)
      ensures Has(hosts, address, source) <==> Owed(doc, root, 0, outside, address, source)
    {
      CollectExactly(doc, isIPv4, all, "all", 0, outside, [], {}, address, source);
    }
    forall address
      ensures Present(hosts, address) <==> Reached(doc, root, address)
    {
      CollectExactly(doc, isIPv4, all, "all", 0, outside, [], {}, address, Source("", 0, map[]));
    }
  }
}
