/** Collecting hosts in the form the program has it: a walk over the groups that appends to a list of hosts and to an
    index of their addresses. The walk computes what Groups specifies, in the order of the document. */
module GroupCollector {
  import opened Wrappers
  import opened YamlGraph
  import opened Variables
  import Groups
  import YamlReader

  method ReadMapping(doc: Doc, node: Option<Id>) returns (entries: Option<seq<Entry>>)
    requires node.Some? ==> node.value in doc
    ensures entries == MappingEntries(doc, node)
  {
    if node.None? {
      return Some([]);
    }
    var target := YamlReader.ResolveAlias(doc, node.value);
    if target.None? {
      return None;
    }
    entries := YamlReader.EffectiveEntries(doc, target.value, {});
  }

  method ReadField(doc: Doc, id: Id, key: string) returns (field: Option<Option<Id>>)
    requires id in doc
    ensures field == Groups.Field(doc, id, key)
  {
    var entries := YamlReader.EffectiveEntries(doc, id, {});
    if entries.None? {
      return None;
    }
    for i := 0 to |entries.value|
      invariant Get(entries.value, key) == Get(entries.value[i..], key)
    {
      assert entries.value[i..][1..] == entries.value[i + 1..];
      if entries.value[i].key == key {
        return Some(Some(entries.value[i].value));
      }
    }
    return Some(None);
  }

  method ReadVars(doc: Doc, node: Option<Id>) returns (vars: Option<map<string, Id>>)
    requires node.Some? ==> node.value in doc
    ensures vars == Groups.VarsOf(doc, node)
  {
    var entries := ReadMapping(doc, node);
    if entries.None? {
      return None;
    }
    var all := entries.value;
    var found: map<string, Id> := map[];
    for i := 0 to |all|
      invariant found == Groups.EntryMap(all[..i])
      invariant forall j :: 0 <= j < i ==> Groups.KeyAllowed(all[j].key)
    {
      assert all[..i + 1][..i] == all[..i];
      if !Groups.KeyAllowed(all[i].key) {
        return None;
      }
      found := found[all[i].key := all[i].value];
    }
    assert all[..|all|] == all;
    return Some(found);
  }

  lemma {:induction false} AddedAt(hosts: seq<Host>, i: nat, sources: seq<Source>)
    requires i < |hosts| && forall j :: 0 <= j < i ==> hosts[j].address != hosts[i].address
    ensures Groups.AddSources(hosts, hosts[i].address, sources) == hosts[i := Host(hosts[i].address, hosts[i].sources + sources)]
  {
    if i > 0 {
      assert hosts[1..][i - 1] == hosts[i];
      AddedAt(hosts[1..], i - 1, sources);
    }
  }

  lemma {:induction false} AddedLast(hosts: seq<Host>, address: string, sources: seq<Source>)
    requires forall j :: 0 <= j < |hosts| ==> hosts[j].address != address
    ensures Groups.AddSources(hosts, address, sources) == hosts + [Host(address, sources)]
  {
    if hosts != [] {
      AddedLast(hosts[1..], address, sources);
    }
  }

  class Collector {
    var hosts: seq<Host>
    var index: map<string, nat>

    constructor ()
      ensures Valid() && hosts == []
    {
      hosts, index := [], map[];
    }

    /** The index holds the position of every host's address. */
    ghost predicate Valid()
      reads this
    {
      && (forall address :: address in index ==> index[address] < |hosts| && hosts[index[address]].address == address)
      && forall i :: 0 <= i < |hosts| ==> hosts[i].address in index && index[hosts[i].address] == i
    }

    method Add(address: string, sources: seq<Source>)
      requires Valid()
      modifies this
      ensures Valid() && hosts == Groups.AddSources(old(hosts), address, sources)
    {
      if address in index {
        var i := index[address];
        AddedAt(hosts, i, sources);
        hosts := hosts[i := Host(address, hosts[i].sources + sources)];
      } else {
        AddedLast(hosts, address, sources);
        index := index[address := |hosts|];
        hosts := hosts + [Host(address, sources)];
      }
    }

    method AddListed(doc: Doc, isIPv4: Groups.AddressTest, entries: seq<Entry>, origin: string, sources: seq<Source>) returns (ok: bool)
      requires Valid() && Groups.ValuesIn(doc, entries)
      modifies this
      ensures Valid()
      ensures Groups.CollectListed(doc, isIPv4, entries, origin, sources, old(hosts)) == if ok then Some(hosts) else None
    {
      for i := 0 to |entries|
        invariant Valid()
        invariant Groups.CollectListed(doc, isIPv4, entries, origin, sources, old(hosts))
                  == Groups.CollectListed(doc, isIPv4, entries[i..], origin, sources, hosts)
      {
        assert entries[i..][1..] == entries[i + 1..];
        var entry := entries[i];
        if !isIPv4(entry.key) {
          return false;
        }
        var vars := ReadVars(doc, Some(entry.value));
        if vars.None? {
          return false;
        }
        Add(entry.key, Groups.Contributed(sources, origin + " host " + entry.key, HOST_DEPTH, vars.value));
      }
      return true;
    }

    /** visiting holds the groups around this one. */
    method Collect(doc: Doc, isIPv4: Groups.AddressTest, node: Id, origin: string, depth: nat, inherited: seq<Source>, visiting: set<Id>)
      returns (ok: bool)
      requires Valid() && node in doc
      modifies this
      ensures Valid()
      ensures Groups.Collect(doc, isIPv4, node, origin, depth, inherited, old(hosts), visiting) == if ok then Some(hosts) else None
      decreases MAX_DEPTH + 1 - depth, 0
    {
      if depth > MAX_DEPTH {
        return false;
      }
      var group := YamlReader.ResolveAlias(doc, node);
      if group.None? || doc[group.value].kind != Mapping || group.value in visiting {
        return false;
      }
      var id := group.value;
      var varsNode := ReadField(doc, id, "vars");
      if varsNode.None? {
        return false;
      }
      var vars := ReadVars(doc, varsNode.value);
      var hostsNode := ReadField(doc, id, "hosts");
      if vars.None? || hostsNode.None? {
        return false;
      }
      var sources := Groups.Contributed(inherited, origin, depth, vars.value);
      var listed := ReadMapping(doc, hostsNode.value);
      var childrenNode := ReadField(doc, id, "children");
      if listed.None? || childrenNode.None? {
        return false;
      }
      var children := ReadMapping(doc, childrenNode.value);
      if children.None? {
        return false;
      }
      assert listed == Groups.FieldEntries(doc, id, "hosts") && children == Groups.FieldEntries(doc, id, "children");
      ok := AddListed(doc, isIPv4, listed.value, origin, sources);
      if !ok {
        return;
      }
      ok := CollectChildren(doc, isIPv4, children.value, depth, sources, visiting + {id});
    }

    method CollectChildren(doc: Doc, isIPv4: Groups.AddressTest, children: seq<Entry>, depth: nat, sources: seq<Source>, visiting: set<Id>)
      returns (ok: bool)
      requires Valid() && Groups.ValuesIn(doc, children) && depth <= MAX_DEPTH
      modifies this
      ensures Valid()
      ensures Groups.CollectChildren(doc, isIPv4, children, depth, sources, old(hosts), visiting) == if ok then Some(hosts) else None
      decreases MAX_DEPTH - depth, 1
    {
      for i := 0 to |children|
        invariant Valid()
        invariant Groups.CollectChildren(doc, isIPv4, children, depth, sources, old(hosts), visiting)
                  == Groups.CollectChildren(doc, isIPv4, children[i..], depth, sources, hosts, visiting)
      {
        assert children[i..][1..] == children[i + 1..];
        ok := Collect(doc, isIPv4, children[i].value, "group " + children[i].key, depth + 1, sources, visiting);
        if !ok {
          return;
        }
      }
      return true;
    }
  }
}
