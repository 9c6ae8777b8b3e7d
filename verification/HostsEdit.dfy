/** Installing and uninstalling the owned block, over any test of IP addresses that accepts canonical IPv4. */
module HostsEdit {
  import opened Wrappers
  import opened Texts
  import opened Collections
  import opened Decimals
  import opened HostsFile

  type AddressTest = string -> bool

  // ---------------------------------------------------------------- entries

  predicate Alphanumeric(c: char) { Digit(c) || 'a' <= c <= 'z' || 'A' <= c <= 'Z' }

  /** A canonical decimal byte: no sign, no leading zero, at most 255. */
  predicate Octet(s: string)
  {
    && 1 <= |s| <= 3 && Digits(s)
    && (|s| == 1 || s[0] != '0') && Decimal(s) <= 255
  }

  predicate CanonicalIPv4(address: string)
  {
    var parts := Split(address, '.');
    |parts| == 4 && forall part :: part in parts ==> Octet(part)
  }

  /** A canonical private-range address in the static part of its /24. */
  predicate NodeAddress(address: string)
  {
    CanonicalIPv4(address) &&
    var parts := Split(address, '.');
    assert forall i :: 0 <= i < 4 ==> parts[i] in parts;
    var first, second, last := Decimal(parts[0]), Decimal(parts[1]), Decimal(parts[3]);
    && (first == 10 || (first == 172 && 16 <= second <= 31) || (first == 192 && second == 168))
    && 9 <= last < 255
  }

  predicate HostChar(c: char) { Alphanumeric(c) || c == '_' || c == '.' || c == '-' }

  predicate Label(part: string)
  {
    && 0 < |part| <= 63
    && part[0] != '-' && part[0] != '_' && part[|part| - 1] != '-' && part[|part| - 1] != '_'
  }

  predicate HostName(name: string)
  {
    && 1 <= |name| <= 253 && (forall c :: c in name ==> HostChar(c))
    && Alphanumeric(name[0]) && Alphanumeric(name[|name| - 1])
    && !Contains(name, "..")
    && forall part :: part in Split(name, '.') ==> Label(part)
  }

  predicate EntryValid(entry: Entry)
  {
    && NodeAddress(entry.address) && entry.names != []
    && (forall name :: name in entry.names ==> HostName(name)) && Distinct(entry.names)
  }

  predicate Separate(first: Entry, second: Entry)
  {
    first.address != second.address && forall name :: name in first.names ==> name !in second.names
  }

  predicate EntriesValid(entries: seq<Entry>)
  {
    && entries != []
    && (forall i :: 0 <= i < |entries| ==> EntryValid(entries[i]))
    && forall i, j :: 0 <= i < j < |entries| ==> Separate(entries[i], entries[j])
  }

  // ---------------------------------------------------------------- rendering

  function EntryLine(entry: Entry): string
  {
    entry.address + "\t" + Join(entry.names, " ")
  }

  function EntryLines(entries: seq<Entry>): seq<string>
  {
    seq(|entries|, i requires 0 <= i < |entries| => EntryLine(entries[i]))
  }

  function BlockLines(entries: seq<Entry>): seq<string>
  {
    [BEGIN] + EntryLines(entries) + [END]
  }

  // ---------------------------------------------------------------- meaning of a hosts line

  predicate Space(c: char) { 9 <= c as int <= 13 || c == ' ' }

  function BeforeComment(line: string): string
  {
    if line == "" || line[0] == '#' then "" else [line[0]] + BeforeComment(line[1..])
  }

  function FieldsFrom(s: string, word: string): seq<string>
  {
    if s == "" then (if word == "" then [] else [word])
    else if Space(s[0]) then (if word == "" then [] else [word]) + FieldsFrom(s[1..], "")
    else FieldsFrom(s[1..], word + [s[0]])
  }

  function Fields(s: string): seq<string> { FieldsFrom(s, "") }

  datatype Mapping = Mapping(address: string, names: seq<string>)

  /** The address and names a line declares, if it declares any. */
  function Meaning(isIP: AddressTest, line: string): Option<Mapping>
  {
    var fields := Fields(BeforeComment(line));
    if |fields| < 2 || !isIP(fields[0]) then None else Some(Mapping(fields[0], fields[1..]))
  }

  predicate LineMaps(isIP: AddressTest, line: string, name: string, address: string)
  {
    var meaning := Meaning(isIP, line);
    meaning.Some? && meaning.value.address == address && name in meaning.value.names
  }

  predicate LinesMap(isIP: AddressTest, lines: seq<string>, name: string, address: string)
  {
    exists line :: line in lines && LineMaps(isIP, line, name, address)
  }

  /** The file maps name to address on some line. */
  predicate Maps(isIP: AddressTest, data: string, name: string, address: string)
  {
    LinesMap(isIP, Split(data, '\n'), name, address)
  }

  predicate Declares(entries: seq<Entry>, name: string, address: string)
  {
    exists entry :: entry in entries && entry.address == address && name in entry.names
  }

  // ---------------------------------------------------------------- editing

  function BlockOf(data: string): (block: Option<Block>)
    requires Parse(data).Ok?
    ensures block.Some? ==> block.value.start <= block.value.end <= |data|
  {
    if Parse(data).value.Some? then BlockInside(data); Parse(data).value else None
  }

  lemma BlockInside(data: string)
    requires Parse(data).Ok? && Parse(data).value.Some?
    ensures var block := Parse(data).value.value; block.start <= block.end <= |data|
  {
    var i, j := BlockSplits(data);
  }

  /** The file without its owned block. */
  function Strip(data: string): string
    requires Parse(data).Ok?
  {
    match BlockOf(data)
    case None => data
    case Some(block) => data[..block.start] + data[block.end..]
  }

  /** No line outside the block maps a name of entries to another address. */
  predicate ConflictFree(isIP: AddressTest, lines: seq<string>, entries: seq<Entry>)
  {
    forall line, entry ::
      line in lines && entry in entries && Meaning(isIP, line).Some? ==>
        var meaning := Meaning(isIP, line).value;
        meaning.address == entry.address || forall name :: name in entry.names ==> name !in meaning.names
  }

  function Ended(data: string): string
  {
    if data != "" && data[|data| - 1] != '\n' then data + "\n" else data
  }

  function Installed(data: string, entries: seq<Entry>): string
    requires Parse(data).Ok?
  {
    match BlockOf(data)
    case None => Ended(data) + Unlines(BlockLines(entries))
    case Some(block) => data[..block.start] + Unlines(BlockLines(entries)) + data[block.end..]
  }

  datatype Outcome = Outcome(after: string, lines: seq<string>, changed: bool)

  function Reconcile(isIP: AddressTest, before: string, action: Action, entries: seq<Entry>): Result<Outcome, Error>
  {
    if Parse(before).Err? then Err(Parse(before).error)
    else match action
      case Install =>
        if !EntriesValid(entries) then Err(InvalidEntries)
        else if !ConflictFree(isIP, Split(Strip(before), '\n'), entries) then Err(NameConflict)
        else
          var after := Installed(before, entries);
          Ok(Outcome(after, EntryLines(entries), after != before))
      case Uninstall =>
        if entries != [] then Err(EntriesOnUninstall)
        else Ok(Outcome(Strip(before), [], BlockOf(before).Some?))
      case Unsupported => Err(UnsupportedAction)
  }

  // ---------------------------------------------------------------- the parts around the block

  function CompleteLines(data: string): seq<string>
  {
    var lines := Split(data, '\n');
    if lines[|lines| - 1] == "" then lines[..|lines| - 1] else lines
  }

  /** The lines above the block, and the split text below it. */
  datatype Outer = Outer(above: seq<string>, below: seq<string>)

  function OuterOf(data: string): Outer
    requires Parse(data).Ok?
  {
    match BlockOf(data)
    case None => Outer(CompleteLines(data), [""])
    case Some(block) => Outer(CompleteLines(data[..block.start]), Split(data[block.end..], '\n'))
  }

  lemma CompleteIsEnded(data: string)
    ensures Unlines(CompleteLines(data)) == Ended(data)
    ensures Free(CompleteLines(data), '\n')
  {
    var lines := Split(data, '\n');
    var n := |lines| - 1;
    SplitPartsFree(data, '\n');
    JoinSplit(data, '\n');
    JoinAt(lines, n);
    assert lines[n..] == [lines[n]];
    if lines[n] == "" {
      if n > 0 {
        UnlinesAppend(lines[..n - 1], [lines[n - 1]]);
        assert lines[..n] == lines[..n - 1] + [lines[n - 1]];
        assert Unlines([lines[n - 1]]) == lines[n - 1] + "\n";
      }
    } else {
      assert lines == lines[..n] + [lines[n]];
      UnlinesAppend(lines[..n], [lines[n]]);
      assert Unlines([lines[n]]) == lines[n] + "\n";
      assert lines[n] in lines && '\n' !in lines[n];
      assert data[|data| - 1] == lines[n][|lines[n]| - 1];
    }
  }

  lemma CompleteOfUnlines(lines: seq<string>)
    requires Free(lines, '\n')
    ensures CompleteLines(Unlines(lines)) == lines
  {
    SplitUnlines(lines, "");
    assert Unlines(lines) + "" == Unlines(lines);
    assert Split("", '\n') == [""];
  }

  /** How a parsed file divides at its block. */
  lemma BlockSplits(data: string) returns (i: nat, j: nat)
    requires Parse(data).Ok? && Parse(data).value.Some?
    ensures var lines := Split(data, '\n');
            var block := Parse(data).value.value;
            && OneBlock(lines, i, j)
            && block.start <= block.end <= |data|
            && data[..block.start] == Unlines(lines[..i])
            && Split(data[block.end..], '\n') == if j + 1 < |lines| then lines[j + 1..] else [""]
  {
    i, j := ParseFindsBlock(data);
    var lines := Split(data, '\n');
    var block := Parse(data).value.value;
    JoinSplit(data, '\n');
    SplitPartsFree(data, '\n');
    assert data[..block.start] == Unlines(lines[..i]) by {
      JoinAt(lines, i);
    }
    if j + 1 < |lines| {
      UnlinesAppend(lines[..i], lines[i..j + 1]);
      assert lines[..j + 1] == lines[..i] + lines[i..j + 1];
      assert data == Unlines(lines[..j + 1]) + Join(lines[j + 1..], "\n") by { JoinAt(lines, j + 1); }
      assert block.start <= block.end <= |data|;
      assert data[block.end..] == Join(lines[j + 1..], "\n");
      SplitJoin(lines[j + 1..], '\n');
    }
  }

  /** The lines of the stripped file, apart from blank ones, are the lines around the block. */
  predicate SameLines(lines: seq<string>, others: seq<string>)
  {
    && (forall line :: line in lines && line != "" ==> line in others)
    && forall line :: line in others && line != "" ==> line in lines
  }

  predicate Ordinary(outer: Outer)
  {
    && Plain(outer.above) && Plain(outer.below) && outer.below != []
    && Free(outer.above, '\n') && Free(outer.below, '\n')
  }

  lemma OuterWithoutBlock(data: string, entries: seq<Entry>)
    requires Parse(data) == Ok(None) && Plain(Split(data, '\n'))
    ensures var outer := OuterOf(data);
            && Ordinary(outer) && SameLines(Split(Strip(data), '\n'), outer.above + outer.below)
            && Installed(data, entries) == Unlines(outer.above) + Unlines(BlockLines(entries)) + Join(outer.below, "\n")
  {
    CompleteIsOrdinary(Split(data, '\n'), CompleteLines(data));
    CompleteIsEnded(data);
    assert Join([""], "\n") == "";
  }

  lemma CompleteIsOrdinary(lines: seq<string>, complete: seq<string>)
    requires lines != [] && complete == if lines[|lines| - 1] == "" then lines[..|lines| - 1] else lines
    requires Plain(lines)
    ensures Plain(complete) && Plain([""]) && SameLines(lines, complete + [""])
  {
    assert Kind("") == PlainLine;
    forall line | line in lines && line != ""
      ensures line in complete + [""]
    {
      var i :| 0 <= i < |lines| && lines[i] == line;
      assert complete[i] == line;
      assert line in complete;
    }
  }

  lemma OuterAroundBlock(data: string, entries: seq<Entry>)
    requires Parse(data).Ok? && Parse(data).value.Some?
    ensures var outer := OuterOf(data);
            && Ordinary(outer) && SameLines(Split(Strip(data), '\n'), outer.above + outer.below)
            && Installed(data, entries) == Unlines(outer.above) + Unlines(BlockLines(entries)) + Join(outer.below, "\n")
  {
    var lines := Split(data, '\n');
    var outer := OuterOf(data);
    var block := BlockOf(data).value;
    var i, j := BlockSplits(data);
    SplitPartsFree(data, '\n');
    assert outer.above == lines[..i] by { CompleteOfUnlines(lines[..i]); }
    assert Ordinary(outer) by { assert Kind("") == PlainLine; }
    assert data[block.end..] == Join(outer.below, "\n") by { JoinSplit(data[block.end..], '\n'); }
    assert Split(Strip(data), '\n') == outer.above + outer.below by { SplitUnlines(lines[..i], data[block.end..]); }
  }

  /** The parts around the block are plain, and rebuild both the installed file and the stripped one. */
  lemma OuterFacts(data: string, entries: seq<Entry>)
    requires Parse(data).Ok?
    ensures var outer := OuterOf(data);
            && Ordinary(outer)
            && Installed(data, entries) == Unlines(outer.above) + Unlines(BlockLines(entries)) + Join(outer.below, "\n")
            && SameLines(Split(Strip(data), '\n'), outer.above + outer.below)
  {
    ParseIsExact(data);
    SplitPartsFree(data, '\n');
    if BlockOf(data).None? {
      OuterWithoutBlock(data, entries);
    } else {
      OuterAroundBlock(data, entries);
    }
  }
}
