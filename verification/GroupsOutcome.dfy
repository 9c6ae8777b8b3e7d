/** When an inventory is collected at all: every group path must stay within the depth limit, never return to a group, and
    meet only sound groups. */
module GroupsOutcome {
  import opened Wrappers
  import opened YamlGraph
  import opened MergeLaws
  import opened Variables
  import opened Groups

  // ---------------------------------------------------------------- variables

  /** The key is outside the vm_ namespace, or one of its known keys. */
  predicate Known(key: string)
  {
    "vm_" <= key ==> key in KNOWN_VM_KEYS
  }

  lemma {:induction false} MapIsGet(entries: seq<Entry>, key: string)
    requires EachKeyOnce(entries)
    ensures key in EntryMap(entries) <==> Get(entries, key).Some?
    ensures key in EntryMap(entries) ==> Get(entries, key) == Some(EntryMap(entries)[key])
  {
    if entries != [] {
      var front, last := entries[..|entries| - 1], entries[|entries| - 1];
      assert entries == front + [last];
      MapIsGet(front, key);
      GetAppended(front, last, key);
      if last.key == key {
        GetIsMembership(front, key);
      }
    }
  }

  /** Variables are read exactly when the mapping resolves and every reserved key is known, and then they are its
      effective entries. */
  lemma VarsAreEntries(doc: Doc, node: Option<Id>, key: string, value: Id)
    requires node.Some? ==> node.value in doc
    ensures VarsOf(doc, node).Some? <==>
              MappingEntries(doc, node).Some? && forall entry :: entry in MappingEntries(doc, node).value ==> Known(entry.key)
    ensures VarsOf(doc, node).Some? ==>
              var vars := VarsOf(doc, node).value;
              key in vars && vars[key] == value <==> Get(MappingEntries(doc, node).value, key) == Some(value)
  {
    assert forall name: string :: KeyAllowed(name) <==> Known(name);
    if MappingEntries(doc, node).Some? {
      var entries := MappingEntries(doc, node).value;
      if node.Some? {
        EntriesAreLookup(doc, Resolved(doc, node.value).value, key);
      }
      MapIsGet(entries, key);
      assert forall i :: 0 <= i < |entries| ==> entries[i] in entries;
    }
  }

  // ---------------------------------------------------------------- sound groups

  predicate HostSound(doc: Doc, isIPv4: AddressTest, host: Entry)
  {
    host.value in doc && isIPv4(host.key) && VarsOf(doc, Some(host.value)).Some?
  }

  predicate ChildSound(doc: Doc, child: Entry)
  {
    child.value in doc && Resolved(doc, child.value).Some? && doc[Resolved(doc, child.value).value].kind == Mapping
  }

  /** The group's variables, hosts and children can be read, its hosts are addresses with readable variables, and its
      children are mappings. */
  predicate GroupSound(doc: Doc, isIPv4: AddressTest, id: Id)
    requires id in doc
  {
    && doc[id].kind == Mapping && FieldVars(doc, id).Some?
    && FieldEntries(doc, id, "hosts").Some?
    && (forall i :: 0 <= i < |FieldEntries(doc, id, "hosts").value| ==> HostSound(doc, isIPv4, FieldEntries(doc, id, "hosts").value[i]))
    && FieldEntries(doc, id, "children").Some?
    && forall i :: 0 <= i < |FieldEntries(doc, id, "children").value| ==> ChildSound(doc, FieldEntries(doc, id, "children").value[i])
  }

  /** The last group of the path is on the path before, or among the given ones. */
  predicate Returns(path: seq<Link>, above: set<Id>)
    requires path != []
  {
    var last := path[|path| - 1].id;
    last in above || exists k :: 0 <= k < |path| - 1 && path[k].id == last
  }

  /** The path ends too deep, at a group that it has passed, or at an unsound group. */
  predicate GoesWrong(doc: Doc, isIPv4: AddressTest, path: seq<Link>, depth: nat, above: set<Id>)
    requires GroupPath(doc, path)
  {
    depth + |path| > MAX_DEPTH + 1 || Returns(path, above) || !GroupSound(doc, isIPv4, path[|path| - 1].id)
  }

  ghost predicate Flawed(doc: Doc, isIPv4: AddressTest, group: Link, depth: nat, above: set<Id>)
  {
    exists path :: GroupPath(doc, path) && path[0] == group && GoesWrong(doc, isIPv4, path, depth, above)
  }

  lemma {:induction false} ListedFailsExactly(doc: Doc, isIPv4: AddressTest, entries: seq<Entry>, origin: string, sources: seq<Source>, hosts: seq<Host>)
    requires ValuesIn(doc, entries)
    ensures CollectListed(doc, isIPv4, entries, origin, sources, hosts).Some? <==>
              forall i :: 0 <= i < |entries| ==> HostSound(doc, isIPv4, entries[i])
    decreases |entries|
  {
    if entries != [] {
      assert entries == [entries[0]] + entries[1..];
      if HostSound(doc, isIPv4, entries[0]) {
        var vars := VarsOf(doc, Some(entries[0].value)).value;
        var own := Contributed(sources, origin + " host " + entries[0].key, HOST_DEPTH, vars);
        ListedFailsExactly(doc, isIPv4, entries[1..], origin, sources, AddSources(hosts, entries[0].key, own));
        assert forall i :: 0 < i < |entries| ==> entries[i] == entries[1..][i - 1];
      }
    }
  }

  lemma ReturnsBelow(group: Link, path: seq<Link>, above: set<Id>)
    requires path != []
    ensures Returns(path, above + {group.id}) <==> Returns([group] + path, above)
  {
    var longer := [group] + path;
    var last := path[|path| - 1].id;
    assert longer[|longer| - 1].id == last;
    assert forall k :: 0 <= k < |path| ==> longer[k + 1] == path[k];
    if k :| 0 <= k < |longer| - 1 && longer[k].id == last {
      assert k > 0 ==> path[k - 1].id == last;
    }
    assert longer[0] == group;
  }

  /** Going wrong below a group is going wrong from it, one level higher. */
  lemma WrongBelow(doc: Doc, isIPv4: AddressTest, group: Link, path: seq<Link>, depth: nat, above: set<Id>)
    requires group.id in doc && GroupPath(doc, path) && GroupPath(doc, [group] + path)
    ensures GoesWrong(doc, isIPv4, path, depth + 1, above + {group.id}) <==> GoesWrong(doc, isIPv4, [group] + path, depth, above)
  {
    ReturnsBelow(group, path, above);
    assert ([group] + path)[|path|] == path[|path| - 1];
  }

  lemma FlawedSplits(doc: Doc, isIPv4: AddressTest, group: Link, children: seq<Entry>, depth: nat, above: set<Id>)
    requires group.id in doc && FieldEntries(doc, group.id, "children") == Some(children)
    ensures Flawed(doc, isIPv4, group, depth, above) <==>
              || depth > MAX_DEPTH || group.id in above || !GroupSound(doc, isIPv4, group.id)
              || FlawedBelow(doc, isIPv4, children, 0, depth + 1, above + {group.id})
  {
    if path :| GroupPath(doc, path) && path[0] == group && GoesWrong(doc, isIPv4, path, depth, above) {
      if |path| > 1 {
        TailIsPath(doc, path);
        assert path == [group] + path[1..];
        WrongBelow(doc, isIPv4, group, path[1..], depth, above);
        var i :| 0 <= i < |children| && ChildAt(doc, children, i, path[1]);
        assert Flawed(doc, isIPv4, path[1], depth + 1, above + {group.id});
      }
    }
    if depth > MAX_DEPTH || group.id in above || !GroupSound(doc, isIPv4, group.id) {
      assert GroupPath(doc, [group]) && GoesWrong(doc, isIPv4, [group], depth, above);
    }
    if i, child :| 0 <= i < |children| && ChildAt(doc, children, i, child) && Flawed(doc, isIPv4, child, depth + 1, above + {group.id}) {
      var path :| GroupPath(doc, path) && path[0] == child && GoesWrong(doc, isIPv4, path, depth + 1, above + {group.id});
      Extended(doc, group, child, path);
      WrongBelow(doc, isIPv4, group, path, depth, above);
      assert GroupPath(doc, [group] + path) && ([group] + path)[0] == group;
    }
  }

  /** One of the children from n on is flawed. */
  ghost predicate FlawedBelow(doc: Doc, isIPv4: AddressTest, children: seq<Entry>, n: nat, depth: nat, above: set<Id>)
  {
    exists i, child :: n <= i < |children| && ChildAt(doc, children, i, child) && Flawed(doc, isIPv4, child, depth, above)
  }

  /** The group can be entered: it is not too deep, not passed, and its parts can be read. */
  predicate Entered(doc: Doc, id: Id, depth: nat, visiting: set<Id>)
    requires id in doc
  {
    && depth <= MAX_DEPTH && id !in visiting && FieldVars(doc, id).Some?
    && FieldEntries(doc, id, "hosts").Some? && FieldEntries(doc, id, "children").Some?
  }

  lemma NotEntered(doc: Doc, isIPv4: AddressTest, group: Link, depth: nat, visiting: set<Id>)
    requires group.id in doc && !Entered(doc, group.id, depth, visiting)
    ensures Flawed(doc, isIPv4, group, depth, visiting)
  {
    assert GroupPath(doc, [group]) && GoesWrong(doc, isIPv4, [group], depth, visiting);
  }

  lemma {:induction false} CollectFails(doc: Doc, isIPv4: AddressTest, node: Id, origin: string, depth: nat, inherited: seq<Source>, hosts: seq<Host>, visiting: set<Id>)
    requires node in doc && Resolved(doc, node).Some? && doc[Resolved(doc, node).value].kind == Mapping
    ensures Collect(doc, isIPv4, node, origin, depth, inherited, hosts, visiting).None?
            <==> Flawed(doc, isIPv4, Link(origin, Resolved(doc, node).value), depth, visiting)
    decreases MAX_DEPTH + 1 - depth, 0
  {
    var id := Resolved(doc, node).value;
    var group := Link(origin, id);
    if !Entered(doc, id, depth, visiting) {
      NotEntered(doc, isIPv4, group, depth, visiting);
    } else {
      var listed, children := FieldEntries(doc, id, "hosts").value, FieldEntries(doc, id, "children").value;
      var sources := Contributed(inherited, origin, depth, FieldVars(doc, id).value);
      FlawedSplits(doc, isIPv4, group, children, depth, visiting);
      ListedFailsExactly(doc, isIPv4, listed, origin, sources, hosts);
      var more := CollectListed(doc, isIPv4, listed, origin, sources, hosts);
      if more.Some? {
        assert children[0..] == children;
        ChildrenFail(doc, isIPv4, children, 0, depth, sources, more.value, visiting + {id});
      }
    }
  }

  lemma {:induction false} ChildrenFail(doc: Doc, isIPv4: AddressTest, children: seq<Entry>, n: nat, depth: nat, sources: seq<Source>, hosts: seq<Host>, visiting: set<Id>)
    requires ValuesIn(doc, children) && n <= |children| && depth <= MAX_DEPTH
    ensures CollectChildren(doc, isIPv4, children[n..], depth, sources, hosts, visiting).None?
            <==> (exists i :: n <= i < |children| && !ChildSound(doc, children[i])) || FlawedBelow(doc, isIPv4, children, n, depth + 1, visiting)
    decreases MAX_DEPTH - depth, 1 + |children| - n
  {
    if n < |children| {
      var rest, entry := children[n..], children[n];
      assert rest[0] == entry && rest[1..] == children[n + 1..];
      var origin := "group " + entry.key;
      if ChildSound(doc, entry) {
        var child := Link(origin, Resolved(doc, entry.value).value);
        CollectFails(doc, isIPv4, entry.value, origin, depth + 1, sources, hosts, visiting);
        assert ChildAt(doc, children, n, child);
        var collected := Collect(doc, isIPv4, entry.value, origin, depth + 1, sources, hosts, visiting);
        if collected.Some? {
          ChildrenFail(doc, isIPv4, children, n + 1, depth, sources, collected.value, visiting);
          assert forall other :: ChildAt(doc, children, n, other) ==> other == child;
        }
      }
    }
  }

  /** An inventory cannot be collected if and only if its root is no mapping, or some group path from the root goes deeper
      than the limit, returns to a group that it has passed, or ends at an unsound group. */
  lemma CollectFailsExactly(doc: Doc, isIPv4: AddressTest, all: Id, outside: seq<Source>)
    requires all in doc
    ensures Collect(doc, isIPv4, all, "all", 0, outside, [], {}).None? <==>
              || Resolved(doc, all).None? || doc[Resolved(doc, all).value].kind != Mapping
              || exists path :: GroupPath(doc, path) && path[0] == Link("all", Resolved(doc, all).value) && GoesWrong(doc, isIPv4, path, 0, {})
  {
    if Resolved(doc, all).Some? && doc[Resolved(doc, all).value].kind == Mapping {
      CollectFails(doc, isIPv4, all, "all", 0, outside, [], {});
    }
  }
}
