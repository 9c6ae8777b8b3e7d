/** When an edit of the hosts file is accepted and what it reports, in terms of what the file and the entries map. */
module HostsOutcome {
  import opened Wrappers
  import opened Texts
  import opened Decimals
  import opened HostsFile
  import opened HostsEdit
  import opened HostsLaws

  // ---------------------------------------------------------------- acceptance

  /** No name of the entries is mapped to two addresses, outside the old block and by the entries. */
  ghost predicate Agrees(isIP: AddressTest, data: string, entries: seq<Entry>)
  {
    forall name, outside, declared ::
      Maps(isIP, data, name, outside) && Declares(entries, name, declared) ==> outside == declared
  }

  lemma ConflictFreeAgrees(isIP: AddressTest, data: string, entries: seq<Entry>)
    ensures ConflictFree(isIP, Split(data, '\n'), entries) <==> Agrees(isIP, data, entries)
  {
    var lines := Split(data, '\n');
    if ConflictFree(isIP, lines, entries) {
      forall name, outside, declared | Maps(isIP, data, name, outside) && Declares(entries, name, declared)
        ensures outside == declared
      {
        var line :| line in lines && LineMaps(isIP, line, name, outside);
        var entry :| entry in entries && entry.address == declared && name in entry.names;
      }
    }
    if Agrees(isIP, data, entries) {
      forall line, entry | line in lines && entry in entries && Meaning(isIP, line).Some?
        ensures var meaning := Meaning(isIP, line).value;
                meaning.address == entry.address || forall name :: name in entry.names ==> name !in meaning.names
      {
        var meaning := Meaning(isIP, line).value;
        forall name | name in entry.names && name in meaning.names
          ensures meaning.address == entry.address
        {
          assert LineMaps(isIP, line, name, meaning.address);
          assert Maps(isIP, data, name, meaning.address) && Declares(entries, name, entry.address);
        }
      }
    }
  }

  /** An install is accepted if and only if the file can be parsed, the entries are valid, and outside the old block the
      file maps none of their names to another address: a line that already maps a name to the same one is no obstacle.
      An uninstall is accepted if and only if the file can be parsed and no entries come with it. */
  lemma AcceptanceIsExact(isIP: AddressTest, before: string, action: Action, entries: seq<Entry>)
    ensures Reconcile(isIP, before, action, entries).Ok? <==>
              && Parse(before).Ok?
              && match action
                 case Install => EntriesValid(entries) && Agrees(isIP, Strip(before), entries)
                 case Uninstall => entries == []
                 case Unsupported => false
  {
    if Parse(before).Ok? {
      ConflictFreeAgrees(isIP, Strip(before), entries);
    }
  }

  /** An edit reports a change exactly when the bytes differ, and an install reports one line per entry, which maps
      exactly its names to its address. */
  lemma ReportIsExact(isIP: AddressTest, before: string, action: Action, entries: seq<Entry>)
    requires Reconcile(isIP, before, action, entries).Ok? && forall a :: CanonicalIPv4(a) ==> isIP(a)
    ensures var outcome := Reconcile(isIP, before, action, entries).value;
            && (outcome.changed <==> outcome.after != before)
            && |outcome.lines| == |entries|
            && forall i :: 0 <= i < |entries| ==> Meaning(isIP, outcome.lines[i]) == Some(Mapping(entries[i].address, entries[i].names))
  {
    if action == Install {
      forall i | 0 <= i < |entries|
        ensures Meaning(isIP, EntryLine(entries[i])) == Some(Mapping(entries[i].address, entries[i].names))
      {
        EntryLineMeaning(isIP, entries[i]);
      }
    } else if BlockOf(before).Some? {
      StrippedIsShorter(before);
    }
  }

  lemma StrippedIsShorter(before: string)
    requires Parse(before).Ok? && BlockOf(before).Some?
    ensures |Strip(before)| < |before|
  {
    var i, j := BlockSplits(before);
    var lines, block := Split(before, '\n'), BlockOf(before).value;
    JoinSplit(before, '\n');
    SplitPartsFree(before, '\n');
    JoinAt(lines, i);
    SplitJoin(lines[i..], '\n');
    assert before[block.start..] == Join(lines[i..], "\n");
  }

  // ---------------------------------------------------------------- addresses

  lemma {:induction false} LeadingDigitCounts(s: string)
    requires s != "" && Digits(s) && s[0] != '0'
    ensures Decimal(s) >= 1
  {
    if |s| > 1 {
      LeadingDigitCounts(s[..|s| - 1]);
    }
  }

  /** A plain decimal text is the text of its number. */
  lemma {:induction false} DecimalRoundTrip(s: string)
    requires s != "" && Digits(s) && (|s| == 1 || s[0] != '0')
    ensures Render(Decimal(s)) == s
  {
    var front, digit := s[..|s| - 1], s[|s| - 1] as int - '0' as int;
    assert s == front + [s[|s| - 1]];
    if |s| == 1 {
      assert front == "";
    } else {
      LeadingDigitCounts(front);
      DecimalRoundTrip(front);
      assert Decimal(s) / 10 == Decimal(front) && Decimal(s) % 10 == digit;
    }
  }

  lemma {:induction false} RenderedHasNoZero(n: nat)
    ensures |Render(n)| == 1 || Render(n)[0] != '0'
    ensures |Render(n)| <= if n < 10 then 1 else if n < 100 then 2 else if n < 1000 then 3 else |Render(n)|
  {
    if n >= 10 {
      RenderedHasNoZero(n / 10);
    }
  }

  lemma OctetIsByte(s: string)
    ensures Octet(s) <==> exists n: nat :: n <= 255 && s == Render(n)
  {
    if Octet(s) {
      DecimalRoundTrip(s);
    }
    if n: nat :| n <= 255 && s == Render(n) {
      RenderRoundTrip(n);
      RenderedHasNoZero(n);
    }
  }

  function Dotted(a: nat, b: nat, c: nat, d: nat): string
  {
    Join([Render(a), Render(b), Render(c), Render(d)], ".")
  }

  lemma DigitsHaveNoDot(s: string)
    requires Digits(s)
    ensures '.' !in s
  {
  }

  lemma SplitDotted(a: nat, b: nat, c: nat, d: nat)
    ensures Split(Dotted(a, b, c, d), '.') == [Render(a), Render(b), Render(c), Render(d)]
  {
    var parts := [Render(a), Render(b), Render(c), Render(d)];
    forall part | part in parts
      ensures '.' !in part
    {
      DigitsHaveNoDot(part);
    }
    SplitJoin(parts, '.');
  }

  ghost predicate IsNodeAddress(address: string, a: nat, b: nat, c: nat, d: nat)
  {
    && address == Dotted(a, b, c, d) && b <= 255 && c <= 255 && 9 <= d <= 254
    && (a == 10 || (a == 172 && 16 <= b <= 31) || (a == 192 && b == 168))
  }

  /** A node address is the dotted text of four bytes in a private range, the last one in the static part. */
  lemma NodeAddressIsExact(address: string)
    ensures NodeAddress(address) <==> exists a: nat, b: nat, c: nat, d: nat :: IsNodeAddress(address, a, b, c, d)
  {
    if NodeAddress(address) {
      var parts := Split(address, '.');
      assert forall i :: 0 <= i < 4 ==> parts[i] in parts;
      var a, b, c, d := Decimal(parts[0]), Decimal(parts[1]), Decimal(parts[2]), Decimal(parts[3]);
      assert parts == [Render(a), Render(b), Render(c), Render(d)] by {
        forall i | 0 <= i < 4
          ensures parts[i] == Render(Decimal(parts[i]))
        {
          DecimalRoundTrip(parts[i]);
        }
      }
      JoinSplit(address, '.');
        assert IsNodeAddress(address, a, b, c, d);
    }
    if a: nat, b: nat, c: nat, d: nat :| IsNodeAddress(address, a, b, c, d) {
      DottedIsAddress(a, b, c, d);
    }
  }

  lemma DottedIsAddress(a: nat, b: nat, c: nat, d: nat)
    requires IsNodeAddress(Dotted(a, b, c, d), a, b, c, d)
    ensures NodeAddress(Dotted(a, b, c, d))
  {
    SplitDotted(a, b, c, d);
    OctetIsByte(Render(a));
    OctetIsByte(Render(b));
    OctetIsByte(Render(c));
    OctetIsByte(Render(d));
    RenderRoundTrip(a);
    RenderRoundTrip(b);
    RenderRoundTrip(d);
  }
}
