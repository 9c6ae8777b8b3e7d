/** The editor in the form the program has it: loops over bytes, lines and entries that update local
    variables, sets and maps. Each method computes the function that HostsFile and HostsEdit specify. */
module HostsEditor {
  import opened Wrappers
  import opened Texts
  import opened Collections
  import opened HostsFile
  import opened HostsEdit

  method IndexByte(data: string, from: nat, c: char) returns (index: nat)
    requires from <= |data|
    ensures from <= index <= |data| && c !in data[from..index]
    ensures index < |data| ==> data[index] == c
  {
    index := from;
    while index < |data| && data[index] != c
      invariant from <= index <= |data| && c !in data[from..index]
    {
      index := index + 1;
    }
  }

  method ParseBlocks(data: string) returns (result: Result<seq<Block>, Error>)
    ensures result == match Parse(data)
                      case Err(e) => Err(e)
                      case Ok(None) => Ok([])
                      case Ok(Some(block)) => Ok([block])
  {
    if |data| > MAX_HOSTS_BYTES {
      return Err(TooLarge);
    }
    if '\0' in data {
      return Err(NulByte);
    }
    var blocks: seq<Block> := [];
    var active: Option<nat> := None;
    var offset := 0;
    assert data[0..] == data;
    ghost var goal := Scan(Split(data, '\n'), 0, |data|, Outside);
    while offset < |data|
      invariant offset <= |data| && |blocks| <= 1 && (active.Some? ==> blocks == [])
      invariant goal == Scan(Split(data[offset..], '\n'), offset, |data|, PhaseOf(active, blocks))
    {
      var lineStart := offset;
      var lineEnd := IndexByte(data, offset, '\n');
      var line := data[lineStart..lineEnd];
      LineStep(data, lineStart, lineEnd, PhaseOf(active, blocks));
      offset := if lineEnd < |data| then lineEnd + 1 else |data|;
      match Kind(line) {
        case PlainLine =>
        case BadLine => return Err(MalformedMarker);
        case BeginLine =>
          if active.Some? {
            return Err(NestedBlock);
          }
          if blocks != [] {
            return Err(DuplicateBlock);
          }
          active := Some(lineStart);
        case EndLine =>
          if active.None? {
            return Err(UnmatchedEnd);
          }
          blocks := [Block(active.value, offset)];
          active := None;
      }
    }
    EmptyRest(data[offset..], |data|, PhaseOf(active, blocks));
    if active.Some? {
      return Err(UnterminatedBlock);
    }
    assert blocks == [] || blocks == [blocks[0]];
    return Ok(blocks);
  }

  function PhaseOf(active: Option<nat>, blocks: seq<Block>): Phase
  {
    if active.Some? then Open(active.value) else if blocks == [] then Outside else Closed(blocks[0])
  }

  /** A last line without a newline scans like the same line followed by an empty one. */
  lemma LastLine(line: string, start: nat, total: nat, phase: Phase)
    requires start + |line| == total
    ensures Scan([line], start, total, phase) == Scan([line, ""], start, total, phase)
  {
    assert [line, ""][1..] == [""] && [line][1..] == [] && Kind("") == PlainLine;
    assert forall p: Phase :: Scan([""], total, total, p) == Scan([], total, total, p);
  }

  /** What the scan does with the line from start to end. */
  function AfterLine(data: string, start: nat, end: nat, phase: Phase): Result<Option<Block>, Error>
    requires start <= end <= |data|
  {
    var next := if end < |data| then end + 1 else |data|;
    var rest := Split(data[next..], '\n');
    match Kind(data[start..end])
    case PlainLine => Scan(rest, next, |data|, phase)
    case BadLine => Err(MalformedMarker)
    case BeginLine =>
      (match phase
       case Outside => Scan(rest, next, |data|, Open(start))
       case Open(_) => Err(NestedBlock)
       case Closed(_) => Err(DuplicateBlock))
    case EndLine =>
      match phase
      case Open(first) => Scan(rest, next, |data|, Closed(Block(first, next)))
      case _ => Err(UnmatchedEnd)
  }

  lemma LineStep(data: string, start: nat, end: nat, phase: Phase)
    requires start <= end <= |data| && '\n' !in data[start..end]
    requires end < |data| ==> data[end] == '\n'
    ensures Scan(Split(data[start..], '\n'), start, |data|, phase) == AfterLine(data, start, end, phase)
  {
    var line := data[start..end];
    if end < |data| {
      SplitAfter(line, data[end + 1..], '\n');
      assert data[start..] == line + ['\n'] + data[end + 1..];
      assert ([line] + Split(data[end + 1..], '\n'))[1..] == Split(data[end + 1..], '\n');
    } else {
      SplitWhole(line, '\n');
      assert data[start..] == line && data[|data|..] == "" && Split("", '\n') == [""];
      LastLine(line, start, |data|, phase);
      assert [line, ""][1..] == [""];
    }
  }

  lemma EmptyRest(rest: string, total: nat, phase: Phase)
    requires rest == ""
    ensures Scan(Split(rest, '\n'), total, total, phase) == Scan([], total, total, phase)
  {
    assert Split(rest, '\n') == [""] && [""][1..] == [] && Kind("") == PlainLine;
  }

  ghost predicate EntriesValidUpTo(entries: seq<Entry>, n: nat)
    requires n <= |entries|
  {
    && (forall i :: 0 <= i < n ==> EntryValid(entries[i]))
    && forall i, j :: 0 <= i < j < n ==> Separate(entries[i], entries[j])
  }

  /** The address that owns each name of the first entries. */
  ghost predicate OwnersOf(owners: map<string, string>, entries: seq<Entry>)
  {
    && (forall entry, name :: entry in entries && name in entry.names ==> name in owners && owners[name] == entry.address)
    && forall name :: name in owners ==> exists entry :: entry in entries && name in entry.names
  }

  method ValidateEntries(entries: seq<Entry>) returns (ok: bool)
    ensures ok == EntriesValid(entries)
  {
    if entries == [] {
      return false;
    }
    var addresses: set<string> := {};
    var owners: map<string, string> := map[];
    for index := 0 to |entries|
      invariant EntriesValidUpTo(entries, index)
      invariant forall a :: a in addresses <==> exists i :: 0 <= i < index && entries[i].address == a
      invariant OwnersOf(owners, entries[..index])
    {
      var entry := entries[index];
      if !NodeAddress(entry.address) || entry.names == [] || entry.address in addresses {
        RefusedEntry(entries, index);
        return false;
      }
      var accepted, updated := ValidateNames(entry, owners);
      if !accepted {
        RefusedNames(entries, index, owners);
        return false;
      }
      AcceptedNames(entries, index, owners, updated);
      addresses := addresses + {entry.address};
      owners := updated;
    }
    return true;
  }

  lemma RefusedEntry(entries: seq<Entry>, index: nat)
    requires index < |entries|
    requires var entry := entries[index];
             !NodeAddress(entry.address) || entry.names == [] || exists i :: 0 <= i < index && entries[i].address == entry.address
    ensures !EntriesValid(entries)
  {
    var entry := entries[index];
    if NodeAddress(entry.address) && entry.names != [] {
      var i :| 0 <= i < index && entries[i].address == entry.address;
      assert !Separate(entries[i], entries[index]);
    } else {
      assert !EntryValid(entries[index]);
    }
  }

  lemma RefusedNames(entries: seq<Entry>, index: nat, owners: map<string, string>)
    requires index < |entries| && OwnersOf(owners, entries[..index]) && !NamesFit(entries[index], owners)
    ensures !EntriesValid(entries)
  {
    var entry := entries[index];
    if (forall name :: name in entry.names ==> HostName(name)) && Distinct(entry.names) {
      var name :| name in entry.names && name in owners && owners[name] != entry.address;
      var other :| other in entries[..index] && name in other.names;
      var i :| 0 <= i < index && entries[..index][i] == other;
      assert !Separate(entries[i], entries[index]);
    } else {
      assert !EntryValid(entries[index]);
    }
  }

  lemma AcceptedNames(entries: seq<Entry>, index: nat, owners: map<string, string>, updated: map<string, string>)
    requires index < |entries| && EntriesValidUpTo(entries, index) && OwnersOf(owners, entries[..index])
    requires var entry := entries[index];
             && NodeAddress(entry.address) && entry.names != []
             && forall i :: 0 <= i < index ==> entries[i].address != entry.address
    requires NamesFit(entries[index], owners) && Adds(entries[index], |entries[index].names|, owners, updated)
    ensures EntriesValidUpTo(entries, index + 1) && OwnersOf(updated, entries[..index + 1])
  {
    var entry := entries[index];
    forall i | 0 <= i < index
      ensures Separate(entries[i], entry)
    {
      assert entries[i] in entries[..index];
    }
    assert EntryValid(entries[index]);
    assert EntriesValidUpTo(entries, index + 1);
    assert OwnersOf(updated, entries[..index + 1]) by {
      AddedOwners(entries[..index], entry, owners, updated);
      assert entries[..index + 1] == entries[..index] + [entry];
    }
  }

  lemma AddedOwners(entries: seq<Entry>, entry: Entry, owners: map<string, string>, updated: map<string, string>)
    requires OwnersOf(owners, entries) && Adds(entry, |entry.names|, owners, updated)
    requires forall name :: name in entry.names && name in owners ==> owners[name] == entry.address
    ensures OwnersOf(updated, entries + [entry])
  {
    assert entry.names[..|entry.names|] == entry.names;
    assert forall other :: other in entries + [entry] <==> other in entries || other == entry;
    forall name | name in updated
      ensures exists other :: other in entries + [entry] && name in other.names
    {
      if name in entry.names {
        assert entry in entries + [entry];
      } else {
        var other :| other in entries && name in other.names;
        assert other in entries + [entry];
      }
    }
  }

  /** Every name is valid, new in the entry, and not owned by another address. */
  ghost predicate NamesFit(entry: Entry, owners: map<string, string>)
  {
    && (forall name :: name in entry.names ==> HostName(name)) && Distinct(entry.names)
    && forall name :: name in entry.names && name in owners ==> owners[name] == entry.address
  }

  /** updated is owners with the first k names of the entry given to its address. */
  ghost predicate Adds(entry: Entry, k: nat, owners: map<string, string>, updated: map<string, string>)
    requires k <= |entry.names|
  {
    && (forall name :: name in updated <==> name in owners || name in entry.names[..k])
    && forall name :: name in updated ==>
         updated[name] == if name in entry.names[..k] then entry.address else owners[name]
  }

  method ValidateNames(entry: Entry, owners: map<string, string>) returns (ok: bool, updated: map<string, string>)
    ensures ok == NamesFit(entry, owners)
    ensures ok ==> Adds(entry, |entry.names|, owners, updated)
  {
    updated := owners;
    var seen: set<string> := {};
    for k := 0 to |entry.names|
      invariant forall name :: name in seen <==> name in entry.names[..k]
      invariant NamesFit(Entry(entry.address, entry.names[..k]), owners)
      invariant Adds(entry, k, owners, updated)
    {
      var name := entry.names[k];
      if !HostName(name) || name in seen || (name in updated && updated[name] != entry.address) {
        MisfitName(entry, k, owners);
        return false, updated;
      }
      FittingName(entry, k, owners);
      seen := seen + {name};
      updated := updated[name := entry.address];
      assert entry.names[..k + 1] == entry.names[..k] + [name];
    }
    assert entry.names[..|entry.names|] == entry.names;
    return true, updated;
  }

  lemma MisfitName(entry: Entry, k: nat, owners: map<string, string>)
    requires k < |entry.names|
    requires var name := entry.names[k];
             !HostName(name) || name in entry.names[..k] || (name in owners && owners[name] != entry.address)
    ensures !NamesFit(entry, owners)
  {
    var name := entry.names[k];
    if name in entry.names[..k] {
      var i :| 0 <= i < k && entry.names[..k][i] == name;
      assert entry.names[i] == entry.names[k];
    }
  }

  lemma FittingName(entry: Entry, k: nat, owners: map<string, string>)
    requires k < |entry.names| && NamesFit(Entry(entry.address, entry.names[..k]), owners)
    requires var name := entry.names[k];
             HostName(name) && name !in entry.names[..k] && (name in owners ==> owners[name] == entry.address)
    ensures NamesFit(Entry(entry.address, entry.names[..k + 1]), owners)
  {
    assert entry.names[..k + 1] == entry.names[..k] + [entry.names[k]];
  }

  method RenderBlock(entries: seq<Entry>) returns (result: Result<(string, seq<string>), Error>)
    ensures result == if EntriesValid(entries) then Ok((Unlines(BlockLines(entries)), EntryLines(entries)))
                      else Err(InvalidEntries)
  {
    var ok := ValidateEntries(entries);
    if !ok {
      return Err(InvalidEntries);
    }
    var lines: seq<string> := [];
    var output := BEGIN + "\n";
    UnlinesOne([], BEGIN);
    for i := 0 to |entries|
      invariant lines == EntryLines(entries)[..i]
      invariant output == Unlines([BEGIN] + lines)
    {
      var line := entries[i].address + "\t" + Join(entries[i].names, " ");
      UnlinesOne([BEGIN] + lines, line);
      assert [BEGIN] + (lines + [line]) == [BEGIN] + lines + [line];
      lines := lines + [line];
      output := output + line + "\n";
    }
    assert lines == EntryLines(entries);
    UnlinesOne([BEGIN] + lines, END);
    output := output + END + "\n";
    return Ok((output, lines));
  }

  lemma UnlinesOne(lines: seq<string>, line: string)
    ensures Unlines(lines + [line]) == Unlines(lines) + line + "\n"
  {
    UnlinesAppend(lines, [line]);
    assert Unlines([line]) == line + "\n";
    assert Unlines(lines) + (line + "\n") == Unlines(lines) + line + "\n";
  }

  ghost predicate Collected(mappings: map<string, set<string>>, name: string, address: string)
  {
    name in mappings && address in mappings[name]
  }

  /** The mappings that a file declares, name by name. */
  method CollectMappings(isIP: AddressTest, lines: seq<string>) returns (mappings: map<string, set<string>>)
    ensures forall name, address :: Collected(mappings, name, address) <==> LinesMap(isIP, lines, name, address)
  {
    mappings := map[];
    for i := 0 to |lines|
      invariant forall name, address :: Collected(mappings, name, address) <==> LinesMap(isIP, lines[..i], name, address)
    {
      LinesMapStep(isIP, lines, i);
      var fields := Fields(BeforeComment(lines[i]));
      assert forall name, address :: LineMaps(isIP, lines[i], name, address)
                                     <==> |fields| >= 2 && isIP(fields[0]) && address == fields[0] && name in fields[1..];
      ghost var previous := mappings;
      if |fields| >= 2 && isIP(fields[0]) {
        mappings := AddNames(mappings, fields[0], fields[1..]);
      }
      assert forall name, address :: Collected(mappings, name, address)
                                     <==> Collected(previous, name, address) || LineMaps(isIP, lines[i], name, address);
    }
    assert lines[..|lines|] == lines;
  }

  lemma LinesMapStep(isIP: AddressTest, lines: seq<string>, i: nat)
    requires i < |lines|
    ensures forall name, address :: LinesMap(isIP, lines[..i + 1], name, address)
                                    <==> LinesMap(isIP, lines[..i], name, address) || LineMaps(isIP, lines[i], name, address)
  {
    assert forall line :: line in lines[..i + 1] <==> line in lines[..i] || line == lines[i];
  }

  method AddNames(before: map<string, set<string>>, address: string, names: seq<string>)
    returns (mappings: map<string, set<string>>)
    ensures forall name, a :: Collected(mappings, name, a) <==> Collected(before, name, a) || (a == address && name in names)
  {
    mappings := before;
    for k := 0 to |names|
      invariant forall name, a ::
                  Collected(mappings, name, a) <==> Collected(before, name, a) || (a == address && name in names[..k])
    {
      assert forall name :: name in names[..k + 1] <==> name in names[..k] || name == names[k];
      var known := if names[k] in mappings then mappings[names[k]] else {};
      ghost var previous := mappings;
      mappings := mappings[names[k] := known + {address}];
      assert forall name, a ::
          Collected(mappings, name, a) <==> Collected(previous, name, a) || (a == address && name == names[k]);
    }
    assert names[..|names|] == names;
  }

  /** Outside lines map the name to no other address. */
  ghost predicate NameFree(isIP: AddressTest, lines: seq<string>, name: string, address: string)
  {
    forall other :: LinesMap(isIP, lines, name, other) ==> other == address
  }

  lemma ConflictFreeByName(isIP: AddressTest, lines: seq<string>, entries: seq<Entry>)
    ensures ConflictFree(isIP, lines, entries)
            <==> forall entry, name :: entry in entries && name in entry.names ==> NameFree(isIP, lines, name, entry.address)
  {
    if ConflictFree(isIP, lines, entries) {
      forall entry, name | entry in entries && name in entry.names
        ensures NameFree(isIP, lines, name, entry.address)
      {
      }
    } else {
      var line, entry :| line in lines && entry in entries && Meaning(isIP, line).Some?
                         && Meaning(isIP, line).value.address != entry.address
                         && exists name :: name in entry.names && name in Meaning(isIP, line).value.names;
      var name :| name in entry.names && name in Meaning(isIP, line).value.names;
      assert LineMaps(isIP, line, name, Meaning(isIP, line).value.address);
      assert LinesMap(isIP, lines, name, Meaning(isIP, line).value.address);
    }
  }

  method ValidateNoConflicts(isIP: AddressTest, before: string, entries: seq<Entry>) returns (ok: bool)
    requires Parse(before).Ok?
    ensures ok == ConflictFree(isIP, Split(Strip(before), '\n'), entries)
  {
    var lines := Split(Strip(before), '\n');
    var mappings := CollectMappings(isIP, lines);
    ConflictFreeByName(isIP, lines, entries);
    for i := 0 to |entries|
      invariant forall entry, name :: entry in entries[..i] && name in entry.names ==> NameFree(isIP, lines, name, entry.address)
    {
      var entry := entries[i];
      for k := 0 to |entry.names|
        invariant forall name :: name in entry.names[..k] ==> NameFree(isIP, lines, name, entry.address)
      {
        var name := entry.names[k];
        if name in mappings {
          if address :| address in mappings[name] && address != entry.address {
            assert Collected(mappings, name, address);
            assert !NameFree(isIP, lines, name, entry.address);
            return false;
          }
        }
        assert forall other :: LinesMap(isIP, lines, name, other) <==> Collected(mappings, name, other);
        assert entry.names[..k + 1] == entry.names[..k] + [name];
      }
      assert entry.names[..|entry.names|] == entry.names;
      assert entries[..i + 1] == entries[..i] + [entry];
    }
    assert entries[..|entries|] == entries;
    return true;
  }

  method ReconcileContent(isIP: AddressTest, before: string, action: Action, entries: seq<Entry>)
    returns (result: Result<Outcome, Error>)
    ensures result == Reconcile(isIP, before, action, entries)
  {
    var parsed := ParseBlocks(before);
    if parsed.Err? {
      return Err(parsed.error);
    }
    var present := parsed.value != [];
    match action {
      case Install =>
        var rendered := RenderBlock(entries);
        if rendered.Err? {
          return Err(rendered.error);
        }
        var (block, lines) := rendered.value;
        var free := ValidateNoConflicts(isIP, before, entries);
        if !free {
          return Err(NameConflict);
        }
        var after: string;
        if present {
          BlockInside(before);
          var current := parsed.value[0];
          after := before[..current.start];
          after := after + block;
          after := after + before[current.end..];
        } else {
          after := before;
          if |after| > 0 && after[|after| - 1] != '\n' {
            after := after + "\n";
          }
          after := after + block;
        }
        return Ok(Outcome(after, lines, before != after));
      case Uninstall =>
        if entries != [] {
          return Err(EntriesOnUninstall);
        }
        if !present {
          return Ok(Outcome(before, [], false));
        }
        BlockInside(before);
        var current := parsed.value[0];
        var after := before[..current.start];
        after := after + before[current.end..];
        return Ok(Outcome(after, [], true));
      case Unsupported =>
        return Err(UnsupportedAction);
    }
  }
}
