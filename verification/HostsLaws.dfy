/** The laws of the hosts editor: what survives, what repeats and overrides, what undoes, and what a name maps to. */
module HostsLaws {
  import opened Wrappers
  import opened Texts
  import opened Decimals
  import opened HostsFile
  import opened HostsEdit

  // ---------------------------------------------------------------- rendered lines

  /** Text without white space, comment sign or NUL, such as an address or a host name. */
  predicate Word(s: string)
  {
    s != "" && forall c :: c in s ==> !Space(c) && c != '#' && c != '\0'
  }

  lemma {:induction false} SplitChars(s: string, sep: char, c: char)
    requires c in s
    ensures c == sep || exists part :: part in Split(s, sep) && c in part
  {
    var parts := Split(s, sep);
    if s[0] == sep {
      if s[0] != c {
        SplitChars(s[1..], sep, c);
        if c != sep {
          var part :| part in Split(s[1..], sep) && c in part;
          assert part in parts;
        }
      }
    } else {
      var rest := Split(s[1..], sep);
      assert parts[0] in parts;
      if s[0] != c {
        SplitChars(s[1..], sep, c);
        if c != sep {
          var part :| part in rest && c in part;
          if part != rest[0] {
            assert part in rest[1..];
            assert part in parts;
          }
        }
      }
    }
  }

  lemma AddressIsWord(address: string)
    requires CanonicalIPv4(address)
    ensures Word(address)
  {
    assert address == "" ==> |Split(address, '.')| == 1;
    forall c | c in address
      ensures Digit(c) || c == '.'
    {
      SplitChars(address, '.', c);
    }
  }

  lemma {:induction false} FieldsOfWord(word: string, rest: string, before: string)
    requires forall c :: c in word ==> !Space(c)
    ensures FieldsFrom(word + rest, before) == FieldsFrom(rest, before + word)
  {
    if word == "" {
      assert word + rest == rest && before + word == before;
    } else {
      assert (word + rest)[1..] == word[1..] + rest;
      FieldsOfWord(word[1..], rest, before + [word[0]]);
      assert before + [word[0]] + word[1..] == before + word;
    }
  }

  lemma FieldsOfOne(word: string)
    requires Word(word)
    ensures Fields(word) == [word]
  {
    FieldsOfWord(word, "", "");
    assert word + "" == word && "" + word == word;
  }

  lemma FieldsAfterWord(word: string, space: char, rest: string)
    requires Word(word) && Space(space)
    ensures Fields(word + [space] + rest) == [word] + Fields(rest)
  {
    var tail := [space] + rest;
    FieldsOfWord(word, tail, "");
    assert word + [space] + rest == word + tail && "" + word == word;
    assert tail[1..] == rest;
  }

  lemma {:induction false} FieldsOfNames(names: seq<string>)
    requires names != [] && forall name :: name in names ==> Word(name)
    ensures Fields(Join(names, " ")) == names
  {
    assert Word(names[0]);
    if |names| == 1 {
      FieldsOfOne(names[0]);
    } else {
      FieldsAfterWord(names[0], ' ', Join(names[1..], " "));
      FieldsOfNames(names[1..]);
      assert names == [names[0]] + names[1..];
    }
  }

  lemma {:induction false} JoinChars(names: seq<string>, c: char)
    requires c in Join(names, " ")
    ensures c == ' ' || exists name :: name in names && c in name
  {
    if |names| == 1 {
      assert names[0] in names;
    } else {
      if c in names[0] {
        assert names[0] in names;
      } else if c != ' ' {
        JoinChars(names[1..], c);
      }
    }
  }

  lemma {:induction false} NoComment(line: string)
    requires '#' !in line
    ensures BeforeComment(line) == line && Kind(line) == PlainLine
  {
    if line != "" {
      NoComment(line[1..]);
      assert [line[0]] + line[1..] == line;
    }
    forall i: nat | i <= |line|
      ensures !MatchesAt(line, MARKER, i)
    {
      assert i + |MARKER| <= |line| ==> line[i..i + |MARKER|][0] == line[i] != '#' == MARKER[0];
    }
  }

  lemma EntryWords(entry: Entry)
    requires EntryValid(entry)
    ensures Word(entry.address) && entry.names != []
    ensures forall name :: name in entry.names ==> Word(name)
  {
    AddressIsWord(entry.address);
    forall name | name in entry.names
      ensures Word(name)
    {
      assert HostName(name);
      assert forall c :: c in name ==> HostChar(c);
    }
  }

  lemma EntryLineChars(entry: Entry)
    requires EntryValid(entry)
    ensures var line := EntryLine(entry); '\n' !in line && '\0' !in line && '#' !in line
  {
    EntryWords(entry);
    forall c | c in Join(entry.names, " ")
      ensures c == ' ' || (!Space(c) && c != '#' && c != '\0')
    {
      JoinChars(entry.names, c);
    }
  }

  /** A rendered entry is one plain line. */
  lemma EntryLineIsPlain(entry: Entry)
    requires EntryValid(entry)
    ensures var line := EntryLine(entry);
            '\n' !in line && '\0' !in line && '#' !in line && Kind(line) == PlainLine
  {
    EntryLineChars(entry);
    NoComment(EntryLine(entry));
  }

  /** A rendered entry declares exactly that entry. */
  lemma EntryLineMeaning(isIP: AddressTest, entry: Entry)
    requires EntryValid(entry) && isIP(entry.address)
    ensures Meaning(isIP, EntryLine(entry)) == Some(Mapping(entry.address, entry.names))
  {
    var line := EntryLine(entry);
    EntryWords(entry);
    EntryLineIsPlain(entry);
    NoComment(line);
    FieldsOfNames(entry.names);
    FieldsAfterWord(entry.address, '\t', Join(entry.names, " "));
  }

  lemma EntryLinesArePlain(entries: seq<Entry>)
    requires forall i :: 0 <= i < |entries| ==> EntryValid(entries[i])
    ensures forall line :: line in EntryLines(entries) ==> '\n' !in line && '\0' !in line && Kind(line) == PlainLine
  {
    forall line | line in EntryLines(entries)
      ensures '\n' !in line && '\0' !in line && Kind(line) == PlainLine
    {
      var i :| 0 <= i < |entries| && line == EntryLine(entries[i]);
      EntryLineIsPlain(entries[i]);
    }
  }

  lemma MarkersAreLines()
    ensures '\n' !in BEGIN && '\0' !in BEGIN && '\n' !in END && '\0' !in END
  {
  }

  lemma BlockLineFacts(entries: seq<Entry>)
    requires forall i :: 0 <= i < |entries| ==> EntryValid(entries[i])
    ensures Free(BlockLines(entries), '\n')
    ensures forall line :: line in BlockLines(entries) ==> '\0' !in line
  {
    EntryLinesArePlain(entries);
    MarkersAreLines();
    MiddleMembers(BEGIN, EntryLines(entries), END);
  }

  lemma MiddleMembers<T>(first: T, middle: seq<T>, last: T)
    ensures forall x :: x in [first] + middle + [last] <==> x == first || x == last || x in middle
  {
  }

  lemma MiddleSlices<T>(above: seq<T>, first: T, middle: seq<T>, last: T, below: seq<T>)
    ensures var all := above + ([first] + middle + [last]) + below;
            var i, j := |above|, |above| + |middle| + 1;
            && all[i] == first && all[j] == last
            && all[..i] == above && all[i + 1..j] == middle && all[j + 1..] == below
            && all[..j + 1] == above + ([first] + middle + [last])
  {
  }

  lemma {:induction false} UnlinesChars(lines: seq<string>, c: char)
    requires c in Unlines(lines)
    ensures c == '\n' || exists line :: line in lines && c in line
  {
    if c in lines[0] {
      assert lines[0] in lines;
    } else if c != '\n' {
      UnlinesChars(lines[1..], c);
    }
  }

  // ---------------------------------------------------------------- the installed file

  function Above(data: string): nat
    requires Parse(data).Ok?
  {
    |Unlines(OuterOf(data).above)|
  }

  lemma InstalledHasNoNul(data: string, entries: seq<Entry>)
    requires Parse(data).Ok? && EntriesValid(entries)
    ensures '\0' !in Installed(data, entries)
  {
    BlockLineFacts(entries);
    if '\0' in Unlines(BlockLines(entries)) {
      UnlinesChars(BlockLines(entries), '\0');
    }
    match BlockOf(data)
    case None =>
    case Some(block) =>
      assert forall c :: c in data[..block.start] ==> c in data;
      assert forall c :: c in data[block.end..] ==> c in data;
  }

  lemma SplitInstalled(data: string, entries: seq<Entry>)
    requires Parse(data).Ok? && EntriesValid(entries)
    ensures Split(Installed(data, entries), '\n')
            == OuterOf(data).above + BlockLines(entries) + OuterOf(data).below
  {
    var outer := OuterOf(data);
    OuterFacts(data, entries);
    BlockLineFacts(entries);
    var lines := outer.above + BlockLines(entries);
    UnlinesAppend(outer.above, BlockLines(entries));
    SplitUnlines(lines, Join(outer.below, "\n"));
    SplitJoin(outer.below, '\n');
  }

  lemma BlockInLines(above: seq<string>, entries: seq<Entry>, below: seq<string>)
    requires Plain(above) && Plain(EntryLines(entries)) && Plain(below)
    ensures OneBlock(above + BlockLines(entries) + below, |above|, |above| + |entries| + 1)
  {
    MiddleSlices(above, BEGIN, EntryLines(entries), END, below);
  }

  lemma BlockOffsets(above: seq<string>, entries: seq<Entry>, below: seq<string>)
    ensures var lines := above + BlockLines(entries) + below;
            && Offset(lines, |above|) == |Unlines(above)|
            && Offset(lines, |above| + |entries| + 2) == |Unlines(above)| + |Unlines(BlockLines(entries))|
  {
    MiddleSlices(above, BEGIN, EntryLines(entries), END, below);
    UnlinesAppend(above, BlockLines(entries));
  }

  lemma ParsePieces(data: string, above: seq<string>, entries: seq<Entry>, below: seq<string>)
    requires Readable(data) && below != []
    requires Split(data, '\n') == above + BlockLines(entries) + below
    requires Plain(above) && Plain(EntryLines(entries)) && Plain(below)
    ensures Parse(data)
            == Ok(Some(Block(|Unlines(above)|, |Unlines(above)| + |Unlines(BlockLines(entries))|)))
  {
    var i, j := |above|, |above| + |entries| + 1;
    assert OneBlock(Split(data, '\n'), i, j) && j + 1 < |Split(data, '\n')| by {
      BlockInLines(above, entries, below);
    }
    assert Offset(Split(data, '\n'), i) == |Unlines(above)| by { BlockOffsets(above, entries, below); }
    assert Offset(Split(data, '\n'), j + 1) == |Unlines(above)| + |Unlines(BlockLines(entries))| by {
      BlockOffsets(above, entries, below);
    }
    ParseAtLines(data, i, j);
  }

  /** The installed file parses, if it is within the size limit, to exactly one block at the rendered bytes;
      beyond the limit it is rejected, because the limit is checked on input only. */
  lemma InstalledParses(data: string, entries: seq<Entry>)
    requires Parse(data).Ok? && EntriesValid(entries)
    ensures var after := Installed(data, entries);
            Parse(after) == if |after| > MAX_HOSTS_BYTES then Err(TooLarge)
                            else Ok(Some(Block(Above(data), Above(data) + |Unlines(BlockLines(entries))|)))
  {
    var after := Installed(data, entries);
    if |after| <= MAX_HOSTS_BYTES {
      var outer := OuterOf(data);
      InstalledHasNoNul(data, entries);
      SplitInstalled(data, entries);
      assert Plain(outer.above) && Plain(outer.below) && outer.below != [] by { OuterFacts(data, entries); }
      assert Plain(EntryLines(entries)) by { EntryLinesArePlain(entries); }
      ParsePieces(after, outer.above, entries, outer.below);
    }
  }

  lemma ParseAtLines(data: string, i: nat, j: nat)
    requires Readable(data) && OneBlock(Split(data, '\n'), i, j) && j + 1 < |Split(data, '\n')|
    ensures var lines := Split(data, '\n'); Parse(data) == Ok(Some(Block(Offset(lines, i), Offset(lines, j + 1))))
  {
    var lines := Split(data, '\n');
    assert Scan(lines, 0, |data|, Outside) == Ok(Some(Block(Offset(lines, i), Offset(lines, j + 1)))) by {
      TotalOffset(data);
      ScanAccepts(lines, i, j, 0, |data|);
      OffsetBound(lines, j + 1);
    }
  }

  lemma InstalledKeepsOuter(data: string, entries: seq<Entry>)
    requires Parse(data).Ok? && EntriesValid(entries)
    requires |Installed(data, entries)| <= MAX_HOSTS_BYTES
    ensures Parse(Installed(data, entries)).Ok? && OuterOf(Installed(data, entries)) == OuterOf(data)
  {
    var after := Installed(data, entries);
    var outer := OuterOf(data);
    var block := Unlines(BlockLines(entries));
    InstalledParses(data, entries);
    OuterFacts(data, entries);
    assert after[..Above(data)] == Unlines(outer.above);
    assert after[Above(data) + |block|..] == Join(outer.below, "\n");
    CompleteOfUnlines(outer.above);
    SplitJoin(outer.below, '\n');
  }

  /** The outer lines are the text before the block and the text after it. */
  lemma OuterText(data: string)
    requires Parse(data).Ok?
    ensures var outer, block := OuterOf(data), BlockOf(data);
            && Unlines(outer.above) == (if block.Some? then data[..block.value.start] else Ended(data))
            && Join(outer.below, "\n") == (if block.Some? then data[block.value.end..] else "")
  {
    ParseIsExact(data);
    match BlockOf(data)
    case None => CompleteIsEnded(data);
    case Some(owned) =>
      var i, j := BlockSplits(data);
      SplitPartsFree(data, '\n');
      CompleteOfUnlines(Split(data, '\n')[..i]);
      JoinSplit(data[owned.end..], '\n');
  }

  /** Every byte outside the block survives an install: around the block that the parser finds in the result
      stand the bytes that stood around the old block; a file without a block only gains a final newline. */
  lemma InstallPreservesOutside(data: string, entries: seq<Entry>)
    requires Parse(data).Ok? && EntriesValid(entries)
    requires |Installed(data, entries)| <= MAX_HOSTS_BYTES
    ensures var after := Installed(data, entries);
            && Parse(after).Ok? && BlockOf(after).Some?
            && var block := BlockOf(after).value;
            && after[..block.start] == (if BlockOf(data).Some? then data[..BlockOf(data).value.start] else Ended(data))
            && after[block.end..] == (if BlockOf(data).Some? then data[BlockOf(data).value.end..] else "")
  {
    InstalledParses(data, entries);
    OuterText(data);
    OuterFacts(data, entries);
  }

  // ---------------------------------------------------------------- laws of the editor

  lemma ConflictFreeSame(isIP: AddressTest, first: seq<string>, second: seq<string>, entries: seq<Entry>)
    requires forall line :: line != "" ==> (line in first <==> line in second)
    ensures ConflictFree(isIP, first, entries) == ConflictFree(isIP, second, entries)
  {
    assert Meaning(isIP, "") == None;
  }

  lemma OuterDecides(isIP: AddressTest, data: string, entries: seq<Entry>)
    requires Parse(data).Ok?
    ensures var outer := OuterOf(data);
            && ConflictFree(isIP, Split(Strip(data), '\n'), entries) == ConflictFree(isIP, outer.above + outer.below, entries)
            && Installed(data, entries) == Unlines(outer.above) + Unlines(BlockLines(entries)) + Join(outer.below, "\n")
  {
    var outer := OuterOf(data);
    OuterFacts(data, entries);
    ConflictFreeSame(isIP, Split(Strip(data), '\n'), outer.above + outer.below, entries);
  }

  lemma SameOuterSameText(isIP: AddressTest, first: string, second: string, entries: seq<Entry>)
    requires Parse(first).Ok? && Parse(second).Ok? && OuterOf(first) == OuterOf(second)
    ensures Installed(first, entries) == Installed(second, entries)
    ensures ConflictFree(isIP, Split(Strip(first), '\n'), entries) == ConflictFree(isIP, Split(Strip(second), '\n'), entries)
  {
    OuterDecides(isIP, first, entries);
    OuterDecides(isIP, second, entries);
  }

  /** Whether an install is accepted, and what it writes, depend only on the lines around the block. */
  lemma InstallOverOuter(isIP: AddressTest, first: string, second: string, entries: seq<Entry>)
    requires Parse(first).Ok? && Parse(second).Ok? && OuterOf(first) == OuterOf(second)
    ensures var r1, r2 := Reconcile(isIP, first, Install, entries), Reconcile(isIP, second, Install, entries);
            && r1.Ok? == r2.Ok?
            && (r1.Ok? ==> r1.value.after == r2.value.after && r1.value.lines == r2.value.lines)
            && (r1.Err? ==> r1 == r2)
  {
    SameOuterSameText(isIP, first, second, entries);
  }

  /** Installing again writes the same bytes and reports no change, exactly when the file fits the limit. */
  lemma InstallIsIdempotent(isIP: AddressTest, before: string, entries: seq<Entry>)
    requires Reconcile(isIP, before, Install, entries).Ok?
    ensures var after := Reconcile(isIP, before, Install, entries).value.after;
            Reconcile(isIP, after, Install, entries)
            == if |after| <= MAX_HOSTS_BYTES then Ok(Outcome(after, EntryLines(entries), false)) else Err(TooLarge)
  {
    var after := Reconcile(isIP, before, Install, entries).value.after;
    InstalledParses(before, entries);
    if |after| <= MAX_HOSTS_BYTES {
      InstalledKeepsOuter(before, entries);
      InstallOverOuter(isIP, before, after, entries);
    }
  }

  /** A later install overrides an earlier one, exactly when the earlier result fits the limit: it is accepted when it
      is accepted on the original file, with the same error otherwise, and writes the same bytes. */
  lemma LastInstallWins(isIP: AddressTest, before: string, first: seq<Entry>, second: seq<Entry>)
    requires Reconcile(isIP, before, Install, first).Ok?
    ensures var middle := Reconcile(isIP, before, Install, first).value.after;
            var direct, after := Reconcile(isIP, before, Install, second), Reconcile(isIP, middle, Install, second);
            if |middle| > MAX_HOSTS_BYTES then after == Err(TooLarge)
            else
              && (direct.Ok? ==> after.Ok? && after.value.after == direct.value.after && after.value.lines == direct.value.lines)
              && (direct.Err? ==> after == direct)
  {
    InstalledParses(before, first);
    if |Installed(before, first)| <= MAX_HOSTS_BYTES {
      InstalledKeepsOuter(before, first);
      InstallOverOuter(isIP, before, Installed(before, first), second);
    }
  }

  /** Uninstall after install leaves the file as it was without any block, with its final newline, exactly when the
      installed file fits the limit. */
  lemma UninstallUndoesInstall(isIP: AddressTest, before: string, entries: seq<Entry>)
    requires Reconcile(isIP, before, Install, entries).Ok?
    ensures var after := Reconcile(isIP, before, Install, entries).value.after;
            var restored := if BlockOf(before).Some? then Strip(before) else Ended(before);
            Reconcile(isIP, after, Uninstall, [])
            == if |after| <= MAX_HOSTS_BYTES then Ok(Outcome(restored, [], true)) else Err(TooLarge)
  {
    InstalledParses(before, entries);
    if |Installed(before, entries)| <= MAX_HOSTS_BYTES {
      InstallPreservesOutside(before, entries);
      assert Ended(before) + "" == Ended(before);
    }
  }

  /** Uninstalling a file without a block changes nothing, and twice is the same as once. */
  lemma UninstallIsIdempotent(isIP: AddressTest, before: string)
    requires Parse(before).Ok?
    ensures Reconcile(isIP, Strip(before), Uninstall, []) == Ok(Outcome(Strip(before), [], false))
  {
    match BlockOf(before)
    case None =>
    case Some(block) =>
      var i, j := BlockSplits(before);
      var lines := Split(before, '\n');
      SplitPartsFree(before, '\n');
      SplitUnlines(lines[..i], before[block.end..]);
      assert Kind("") == PlainLine;
      assert forall c :: c in Strip(before) ==> c in before;
      ParseIsExact(Strip(before));
  }

  // ---------------------------------------------------------------- what the file means

  lemma LinesMapAppend(isIP: AddressTest, first: seq<string>, second: seq<string>, name: string, address: string)
    ensures LinesMap(isIP, first + second, name, address)
            <==> LinesMap(isIP, first, name, address) || LinesMap(isIP, second, name, address)
  {
    assert forall line :: line in first + second <==> line in first || line in second;
  }

  lemma BlockMeaning(isIP: AddressTest, lines: seq<string>, entries: seq<Entry>, name: string, address: string)
    requires |lines| == |entries|
    requires forall i :: 0 <= i < |entries| ==>
               Meaning(isIP, lines[i]) == Some(Mapping(entries[i].address, entries[i].names))
    ensures LinesMap(isIP, [BEGIN] + lines + [END], name, address) <==> Declares(entries, name, address)
  {
    assert Meaning(isIP, BEGIN) == None && Meaning(isIP, END) == None by {
      assert BeforeComment(BEGIN) == "" && BeforeComment(END) == "" && Fields("") == [];
    }
    if LinesMap(isIP, [BEGIN] + lines + [END], name, address) {
      var line :| line in [BEGIN] + lines + [END] && LineMaps(isIP, line, name, address);
      assert line in lines;
      var i :| 0 <= i < |entries| && line == lines[i];
      assert entries[i] in entries;
    }
    if Declares(entries, name, address) {
      var entry :| entry in entries && entry.address == address && name in entry.names;
      var i :| 0 <= i < |entries| && entry == entries[i];
      MiddleMembers(BEGIN, lines, END);
      assert lines[i] in lines && LineMaps(isIP, lines[i], name, address);
    }
  }

  /** After a successful install the whole file maps an installed name to exactly its declared address, and
      every other name exactly as the file did outside the old block. */
  lemma InstalledNamesResolve(isIP: AddressTest, before: string, entries: seq<Entry>, name: string, address: string)
    requires Reconcile(isIP, before, Install, entries).Ok?
    requires forall a :: CanonicalIPv4(a) ==> isIP(a)
    ensures var after := Reconcile(isIP, before, Install, entries).value.after;
            if exists declared :: Declares(entries, name, declared)
            then Maps(isIP, after, name, address) <==> Declares(entries, name, address)
            else Maps(isIP, after, name, address) <==> Maps(isIP, Strip(before), name, address)
  {
    var outer := OuterOf(before);
    var outside := outer.above + outer.below;
    SplitInstalled(before, entries);
    OuterFacts(before, entries);
    forall i | 0 <= i < |entries|
      ensures Meaning(isIP, EntryLines(entries)[i]) == Some(Mapping(entries[i].address, entries[i].names))
    {
      EntryLineMeaning(isIP, entries[i]);
    }
    BlockMeaning(isIP, EntryLines(entries), entries, name, address);
    LinesMapAppend(isIP, outer.above + BlockLines(entries), outer.below, name, address);
    LinesMapAppend(isIP, outer.above, BlockLines(entries), name, address);
    LinesMapAppend(isIP, outer.above, outer.below, name, address);
    assert Meaning(isIP, "") == None;
    ConflictFreeSame(isIP, Split(Strip(before), '\n'), outside, entries);
    assert LinesMap(isIP, outside, name, address) <==> Maps(isIP, Strip(before), name, address);
  }

  /** A declared name has one address. */
  lemma DeclaredOnce(entries: seq<Entry>, name: string, first: string, second: string)
    requires EntriesValid(entries)
    requires Declares(entries, name, first) && Declares(entries, name, second)
    ensures first == second
  {
    var a :| a in entries && a.address == first && name in a.names;
    var b :| b in entries && b.address == second && name in b.names;
    var i :| 0 <= i < |entries| && entries[i] == a;
    var j :| 0 <= j < |entries| && entries[j] == b;
    assert i < j ==> Separate(entries[i], entries[j]);
    assert j < i ==> Separate(entries[j], entries[i]);
  }

  // ---------------------------------------------------------------- the limit is on input only

  function Blank(n: nat): seq<string> { seq(n, i => "") }

  lemma {:induction false} BlankLength(n: nat)
    ensures |Unlines(Blank(n))| == n
  {
    if n > 0 {
      assert Blank(n)[1..] == Blank(n - 1);
      BlankLength(n - 1);
    }
  }

  lemma SampleAddress()
    ensures NodeAddress("10.10.10.10")
  {
    var parts := ["10", "10", "10", "10"];
    assert Join(parts[3..], ".") == "10";
    assert Join(parts[2..], ".") == "10.10";
    assert Join(parts[1..], ".") == "10.10.10";
    assert Join(parts, ".") == "10.10.10.10";
    SplitJoin(parts, '.');
    TenIsTen();
  }

  lemma TenIsTen()
    ensures Octet("10") && Decimal("10") == 10
  {
    var ten := "10";
    assert ten[..1] == "1" && "1"[..0] == "";
    assert Decimal("1") == 1;
  }

  lemma SampleName()
    ensures HostName("meta")
  {
    SplitWhole("meta", '.');
    forall i: nat | i <= |"meta"|
      ensures !MatchesAt("meta", "..", i)
    {
      assert i + 2 <= 4 ==> "meta"[i..i + 2][0] == "meta"[i];
    }
  }

  lemma OneEntryValid(entry: Entry)
    requires EntryValid(entry)
    ensures EntriesValid([entry])
  {
  }

  lemma SampleEntry()
    ensures EntriesValid([Entry("10.10.10.10", ["meta"])])
  {
    SampleAddress();
    SampleName();
    OneEntryValid(Entry("10.10.10.10", ["meta"]));
  }

  lemma LimitIsOnInput(isIP: AddressTest, before: string, entries: seq<Entry>)
    requires |before| == MAX_HOSTS_BYTES && Parse(before) == Ok(None)
    requires EntriesValid(entries) && ConflictFree(isIP, Split(before, '\n'), entries)
    ensures var installed := Reconcile(isIP, before, Install, entries);
            installed.Ok? && Parse(installed.value.after) == Err(TooLarge)
  {
    InstalledParses(before, entries);
    assert |Installed(before, entries)| > MAX_HOSTS_BYTES;
  }

  /** An accepted install can write a file that the program refuses to read again: a blank file of exactly the
      limit grows past it. */
  lemma InstallCanOutgrowLimit(isIP: AddressTest)
    ensures var before := Unlines(Blank(MAX_HOSTS_BYTES));
            var installed := Reconcile(isIP, before, Install, [Entry("10.10.10.10", ["meta"])]);
            installed.Ok? && Parse(installed.value.after) == Err(TooLarge)
  {
    BlankLength(MAX_HOSTS_BYTES);
    BlankParses(Blank(MAX_HOSTS_BYTES));
    SampleEntry();
    LimitIsOnInput(isIP, Unlines(Blank(MAX_HOSTS_BYTES)), [Entry("10.10.10.10", ["meta"])]);
  }

  lemma BlankParses(lines: seq<string>)
    requires |Unlines(lines)| <= MAX_HOSTS_BYTES && forall line :: line in lines ==> line == ""
    ensures Parse(Unlines(lines)) == Ok(None)
    ensures forall isIP: AddressTest, entries :: ConflictFree(isIP, Split(Unlines(lines), '\n'), entries)
  {
    var data := Unlines(lines);
    SplitUnlines(lines, "");
    assert data + "" == data && Split("", '\n') == [""];
    assert forall line :: line in Split(data, '\n') ==> line == "";
    assert Kind("") == PlainLine;
    assert forall isIP: AddressTest :: Meaning(isIP, "") == None;
    if '\0' in data {
      UnlinesChars(lines, '\0');
    }
    ParseIsExact(data);
  }
}
