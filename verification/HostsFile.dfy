/** The marker-delimited block that Farrow owns in the hosts file: its parser, its
    renderer and the editor, over the bytes of the whole file (one char per byte). */
module HostsFile {
  import opened Wrappers
  import opened Texts

  const MAX_HOSTS_BYTES := 1048576
  const MARKER := "# farrow:"
  const BEGIN := "# farrow:begin"
  const END := "# farrow:end"

  datatype Entry = Entry(address: string, names: seq<string>)

  /** Byte offsets of an owned block, from its begin line to the end of its end line. */
  datatype Block = Block(start: nat, end: nat)

  datatype Action = Install | Uninstall | Unsupported

  datatype Error =
    | TooLarge | NulByte
    | MalformedMarker | NestedBlock | DuplicateBlock | UnmatchedEnd | UnterminatedBlock
    | InvalidEntries | NameConflict | EntriesOnUninstall | UnsupportedAction

  // ---------------------------------------------------------------- parsing

  datatype LineKind = PlainLine | BeginLine | EndLine | BadLine

  function Kind(line: string): LineKind
  {
    if !Contains(line, MARKER) then PlainLine
    else if line == BEGIN then BeginLine
    else if line == END then EndLine
    else BadLine
  }

  datatype Phase = Outside | Open(start: nat) | Closed(block: Block)

  /** What the line-by-line scan makes of the remaining lines, the first of which starts at offset start
      in a file of total bytes. */
  function Scan(lines: seq<string>, start: nat, total: nat, phase: Phase): Result<Option<Block>, Error>
  {
    if lines == [] then
      match phase
      case Outside => Ok(None)
      case Open(_) => Err(UnterminatedBlock)
      case Closed(block) => Ok(Some(block))
    else
      var line, rest := lines[0], lines[1..];
      var next := if start + |line| + 1 <= total then start + |line| + 1 else total;
      match Kind(line)
      case PlainLine => Scan(rest, next, total, phase)
      case BadLine => Err(MalformedMarker)
      case BeginLine =>
        (match phase
         case Outside => Scan(rest, next, total, Open(start))
         case Open(_) => Err(NestedBlock)
         case Closed(_) => Err(DuplicateBlock))
      case EndLine =>
        match phase
        case Open(first) => Scan(rest, next, total, Closed(Block(first, next)))
        case _ => Err(UnmatchedEnd)
  }

  function Parse(data: string): Result<Option<Block>, Error>
  {
    if |data| > MAX_HOSTS_BYTES then Err(TooLarge)
    else if '\0' in data then Err(NulByte)
    else Scan(Split(data, '\n'), 0, |data|, Outside)
  }

  predicate Plain(lines: seq<string>)
  {
    forall line :: line in lines ==> Kind(line) == PlainLine
  }

  /** The file holds one owned block, from line i to line j, and no other marker. */
  predicate OneBlock(lines: seq<string>, i: nat, j: nat)
  {
    && i < j < |lines|
    && lines[i] == BEGIN && lines[j] == END
    && Plain(lines[..i]) && Plain(lines[i + 1..j]) && Plain(lines[j + 1..])
  }

  function Offset(lines: seq<string>, n: nat): nat
    requires n <= |lines|
  {
    |Unlines(lines[..n])|
  }

  lemma MarkersAreMarkers()
    ensures Kind(BEGIN) == BeginLine && Kind(END) == EndLine
  {
    assert MatchesAt(BEGIN, MARKER, 0);
    assert MatchesAt(END, MARKER, 0);
  }

  lemma {:induction false} OffsetStep(lines: seq<string>, n: nat)
    requires 0 < n <= |lines|
    ensures Offset(lines, n) == |lines[0]| + 1 + Offset(lines[1..], n - 1)
  {
    assert lines[..n][1..] == lines[1..][..n - 1];
  }

  lemma {:induction false} ScanPlain(lines: seq<string>, start: nat, total: nat, phase: Phase)
    requires Plain(lines)
    ensures Scan(lines, start, total, phase) == Scan([], start, total, phase)
  {
    if lines != [] {
      var next := if start + |lines[0]| + 1 <= total then start + |lines[0]| + 1 else total;
      ScanPlain(lines[1..], next, total, phase);
    }
  }

  /** A successful scan that sees no block saw only plain lines. */
  lemma {:induction false} ScanNothing(lines: seq<string>, start: nat, total: nat)
    requires Scan(lines, start, total, Outside) == Ok(None)
    ensures Plain(lines)
  {
    if lines != [] {
      var next := if start + |lines[0]| + 1 <= total then start + |lines[0]| + 1 else total;
      if Kind(lines[0]) == BeginLine {
        ScanOpenCloses(lines[1..], next, total, start);
        assert false;
      } else {
        ScanNothing(lines[1..], next, total);
        assert lines == [lines[0]] + lines[1..];
      }
    }
  }

  /** Once a block is open, the scan succeeds exactly by closing it once. */
  lemma {:induction false} ScanOpenCloses(lines: seq<string>, start: nat, total: nat, first: nat)
    requires Scan(lines, start, total, Open(first)).Ok?
    ensures Scan(lines, start, total, Open(first)).value.Some?
  {
    if lines != [] {
      var next := if start + |lines[0]| + 1 <= total then start + |lines[0]| + 1 else total;
      if Kind(lines[0]) == EndLine {
        var block := Block(first, next);
        ScanClosedIsPlain(lines[1..], next, total, block);
        ScanPlain(lines[1..], next, total, Closed(block));
      } else {
        ScanOpenCloses(lines[1..], next, total, first);
      }
    }
  }

  lemma {:induction false} ScanClosedIsPlain(lines: seq<string>, start: nat, total: nat, block: Block)
    requires Scan(lines, start, total, Closed(block)).Ok?
    ensures Plain(lines)
  {
    if lines != [] {
      var next := if start + |lines[0]| + 1 <= total then start + |lines[0]| + 1 else total;
      ScanClosedIsPlain(lines[1..], next, total, block);
      assert lines == [lines[0]] + lines[1..];
    }
  }

  /** Where the scan of an open block puts its end. */
  lemma {:induction false} ScanOpenFinds(lines: seq<string>, start: nat, total: nat, first: nat) returns (j: nat)
    requires total + 1 == start + Offset(lines, |lines|)
    requires Scan(lines, start, total, Open(first)).Ok?
    ensures j < |lines| && lines[j] == END && Plain(lines[..j]) && Plain(lines[j + 1..])
  {
    j := 0;
    if lines == [] {
      assert false;
    } else {
      var next := if start + |lines[0]| + 1 <= total then start + |lines[0]| + 1 else total;
      if Kind(lines[0]) == EndLine {
        ScanClosedIsPlain(lines[1..], next, total, Block(first, next));
      } else {
        OffsetStep(lines, |lines|);
        if lines[1..] == [] {
          assert false;
        } else {
          var k := ScanOpenFinds(lines[1..], next, total, first);
          j := k + 1;
          assert lines[..j] == [lines[0]] + lines[1..][..k];
          assert lines[j + 1..] == lines[1..][k + 1..];
        }
      }
    }
  }

  lemma {:induction false} ScanFinds(lines: seq<string>, start: nat, total: nat) returns (i: nat, j: nat)
    requires total + 1 == start + Offset(lines, |lines|)
    requires Scan(lines, start, total, Outside).Ok? && Scan(lines, start, total, Outside).value.Some?
    ensures OneBlock(lines, i, j)
  {
    i, j := 0, 0;
    if lines == [] {
      assert false;
    } else {
      var next := if start + |lines[0]| + 1 <= total then start + |lines[0]| + 1 else total;
      OffsetStep(lines, |lines|);
      if lines[1..] == [] {
        assert false;
      } else if Kind(lines[0]) == BeginLine {
        var k := ScanOpenFinds(lines[1..], next, total, start);
        i, j := 0, k + 1;
        assert lines[1..j] == lines[1..][..k];
        assert lines[j + 1..] == lines[1..][k + 1..];
      } else {
        var k, m := ScanFinds(lines[1..], next, total);
        i, j := k + 1, m + 1;
        assert lines[..i] == [lines[0]] + lines[1..][..k];
        assert lines[i + 1..j] == lines[1..][k + 1..m];
        assert lines[j + 1..] == lines[1..][m + 1..];
      }
    }
  }

  lemma {:induction false} ScanOpenAccepts(lines: seq<string>, j: nat, start: nat, total: nat, first: nat)
    requires total + 1 == start + Offset(lines, |lines|)
    requires j < |lines| && lines[j] == END && Plain(lines[..j]) && Plain(lines[j + 1..])
    ensures var end := start + Offset(lines, j + 1);
            Scan(lines, start, total, Open(first))
            == Ok(Some(Block(first, if end <= total then end else total)))
  {
    MarkersAreMarkers();
    OffsetStep(lines, |lines|);
    OffsetStep(lines, j + 1);
    var next := if start + |lines[0]| + 1 <= total then start + |lines[0]| + 1 else total;
    if j == 0 {
      assert lines[0 + 1..] == lines[1..];
      ScanPlain(lines[1..], next, total, Closed(Block(first, next)));
    } else {
      assert lines[0] == lines[..j][0];
      assert lines[1..][..j - 1] == lines[..j][1..];
      assert lines[1..][j..] == lines[j + 1..];
      ScanOpenAccepts(lines[1..], j - 1, next, total, first);
    }
  }

  lemma {:induction false} ScanAccepts(lines: seq<string>, i: nat, j: nat, start: nat, total: nat)
    requires total + 1 == start + Offset(lines, |lines|)
    requires OneBlock(lines, i, j)
    ensures var end := start + Offset(lines, j + 1);
            Scan(lines, start, total, Outside)
            == Ok(Some(Block(start + Offset(lines, i), if end <= total then end else total)))
  {
    MarkersAreMarkers();
    OffsetStep(lines, |lines|);
    OffsetStep(lines, j + 1);
    var next := if start + |lines[0]| + 1 <= total then start + |lines[0]| + 1 else total;
    if i == 0 {
      assert lines[1..][..j - 1] == lines[1..j];
      assert lines[1..][j..] == lines[j + 1..];
      ScanOpenAccepts(lines[1..], j - 1, next, total, start);
    } else {
      assert lines[0] == lines[..i][0];
      assert lines[1..][..i - 1] == lines[..i][1..];
      assert lines[1..][i..j - 1] == lines[i + 1..j];
      assert lines[1..][j..] == lines[j + 1..];
      OffsetStep(lines, i);
      ScanAccepts(lines[1..], i - 1, j - 1, next, total);
    }
  }

  lemma TotalOffset(data: string)
    ensures var lines := Split(data, '\n'); |data| + 1 == Offset(lines, |lines|)
  {
    var lines := Split(data, '\n');
    var n := |lines| - 1;
    JoinSplit(data, '\n');
    JoinAt(lines, n);
    assert lines[..|lines|] == lines == lines[..n] + [lines[n]];
    UnlinesAppend(lines[..n], [lines[n]]);
    assert Unlines([lines[n]]) == lines[n] + "\n";
    assert lines[n..] == [lines[n]];
  }

  lemma OffsetBound(lines: seq<string>, n: nat)
    requires n < |lines|
    ensures Offset(lines, n) < Offset(lines, |lines|)
  {
    UnlinesAppend(lines[..n], lines[n..]);
    assert lines[..|lines|] == lines == lines[..n] + lines[n..];
  }

  /** Lines i to j of the file are its owned block, and block is their byte range. */
  predicate BlockAt(data: string, block: Block, i: nat, j: nat)
  {
    var lines := Split(data, '\n');
    && OneBlock(lines, i, j)
    && block.start == Offset(lines, i)
    && block.end == if j + 1 == |lines| then |data| else Offset(lines, j + 1)
  }

  predicate Readable(data: string)
  {
    |data| <= MAX_HOSTS_BYTES && '\0' !in data
  }

  lemma ParseFindsBlock(data: string) returns (i: nat, j: nat)
    requires Parse(data).Ok? && Parse(data).value.Some?
    ensures BlockAt(data, Parse(data).value.value, i, j)
  {
    TotalOffset(data);
    i, j := ScanFinds(Split(data, '\n'), 0, |data|);
    ParseAcceptsBlock(data, i, j);
  }

  lemma ParseAcceptsBlock(data: string, i: nat, j: nat)
    requires Readable(data) && OneBlock(Split(data, '\n'), i, j)
    ensures Parse(data).Ok? && Parse(data).value.Some? && BlockAt(data, Parse(data).value.value, i, j)
  {
    var lines := Split(data, '\n');
    TotalOffset(data);
    ScanAccepts(lines, i, j, 0, |data|);
    if j + 1 < |lines| {
      OffsetBound(lines, j + 1);
    }
  }

  /** The parser accepts exactly the files without a marker and the files with one well-formed block; for
      the latter it reports the byte range of that block. */
  lemma ParseIsExact(data: string)
    ensures Parse(data) == Ok(None) <==> Readable(data) && Plain(Split(data, '\n'))
    ensures forall block :: Parse(data) == Ok(Some(block))
                            <==> Readable(data) && exists i: nat, j: nat :: BlockAt(data, block, i, j)
  {
    var lines := Split(data, '\n');
    if Parse(data) == Ok(None) {
      ScanNothing(lines, 0, |data|);
    }
    if Plain(lines) {
      ScanPlain(lines, 0, |data|, Outside);
    }
    if Parse(data).Ok? && Parse(data).value.Some? {
      var i, j := ParseFindsBlock(data);
    }
    forall i: nat, j: nat, block | Readable(data) && BlockAt(data, block, i, j)
      ensures Parse(data) == Ok(Some(block))
    {
      ParseAcceptsBlock(data, i, j);
    }
  }
}
