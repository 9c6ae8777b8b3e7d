/** The bounded diagnostic log: records are appended as lines, and a log that would outgrow its limit is first cut down
    to the whole lines of its last four mebibytes. */
module EventLog {
  import opened Texts

  const MAX_EVENT_BYTES := 0x1_0000
  const MAX_LOG_BYTES := 0x80_0000
  const RETAINED_BYTES := 0x40_0000

  function Line(record: string): string { record + "\n" }

  /** Every record is one line of bounded length. */
  predicate Records(records: seq<string>)
  {
    forall i :: 0 <= i < |records| ==> '\n' !in records[i] && |Line(records[i])| <= MAX_EVENT_BYTES
  }

  /** The first newline at or after a position ends a line: what follows are the whole lines behind it, and no more than
      one line's length lies in between. */
  lemma {:induction false} CutEndsALine(records: seq<string>, p: nat, q: nat) returns (j: nat)
    requires Records(records) && p <= q < |Unlines(records)|
    requires Unlines(records)[q] == '\n' && '\n' !in Unlines(records)[p..q]
    ensures 0 < j <= |records| && q + 1 == |Unlines(records[..j])|
    ensures Unlines(records)[q + 1..] == Unlines(records[j..])
    ensures q + 1 - p <= MAX_EVENT_BYTES
    decreases |records|
  {
    var first, rest := records[0], records[1..];
    var text := Unlines(records);
    assert text == first + "\n" + Unlines(rest);
    if p <= |first| {
      FirstNewline(first, Unlines(rest), p, q);
      j := 1;
      assert records[..1] == [first] && Unlines([first]) == first + "\n" + "";
      assert text[q + 1..] == Unlines(rest);
    } else {
      var n := |first| + 1;
      assert text[n..] == Unlines(rest);
      assert text[p..q] == Unlines(rest)[p - n..q - n];
      var k := CutEndsALine(rest, p - n, q - n);
      j := k + 1;
      assert records[..j] == [first] + rest[..k];
      assert records[..j][1..] == rest[..k];
      assert records[j..] == rest[k..];
      assert text[q + 1..] == Unlines(rest)[q - n + 1..];
    }
  }

  lemma FirstNewline(first: string, rest: string, p: nat, q: nat)
    requires '\n' !in first && p <= |first| && p <= q < |first + "\n" + rest|
    requires (first + "\n" + rest)[q] == '\n' && '\n' !in (first + "\n" + rest)[p..q]
    ensures q == |first|
  {
    var text := first + "\n" + rest;
    assert text[|first|] == '\n';
    assert forall i :: p <= i < q ==> text[i] in text[p..q];
    assert forall i :: 0 <= i < |first| ==> text[i] == first[i];
  }

  lemma {:induction false} EndsWithNewline(records: seq<string>)
    requires records != []
    ensures Unlines(records) != "" && Unlines(records)[|Unlines(records)| - 1] == '\n'
  {
    if |records| > 1 {
      EndsWithNewline(records[1..]);
    }
  }

  /** The first newline at or after a position. */
  method NextNewline(text: string, from: nat) returns (newline: nat)
    requires from < |text| && text[|text| - 1] == '\n'
    ensures from <= newline < |text| && text[newline] == '\n' && '\n' !in text[from..newline]
  {
    newline := from;
    while text[newline] != '\n'
      invariant from <= newline < |text| && '\n' !in text[from..newline]
      decreases |text| - newline
    {
      assert newline != |text| - 1;
      assert text[from..newline + 1] == text[from..newline] + [text[newline]];
      newline := newline + 1;
    }
  }

  class Log {
    var content: string
    ghost var history: seq<string>

    constructor ()
      ensures Valid() && content == "" && history == []
    {
      content, history := "", [];
      new;
      assert history[0..] == [];
    }

    /** The log is a whole-line suffix of the history within the limit, and holds the newest record. */
    ghost predicate Valid()
      reads this
    {
      && Records(history) && |content| <= MAX_LOG_BYTES
      && exists k :: 0 <= k <= |history| && content == Unlines(history[k..]) && (history != [] ==> k < |history|)
    }

    /** Cutting the log down to the whole lines of its retained tail. */
    method Compact() returns (tail: string, ghost start: nat)
      requires Valid() && RETAINED_BYTES < |content|
      ensures start <= |history| && tail == Unlines(history[start..])
      ensures RETAINED_BYTES - MAX_EVENT_BYTES <= |tail| <= RETAINED_BYTES && tail == content[|content| - |tail|..]
    {
      var from := |content| - RETAINED_BYTES;
      ghost var k :| 0 <= k <= |history| && content == Unlines(history[k..]) && (history != [] ==> k < |history|);
      ghost var lines := history[k..];
      assert lines != [];
      EndsWithNewline(lines);
      var newline := NextNewline(content, from);
      assert Records(lines);
      ghost var j := CutEndsALine(lines, from, newline);
      start := k + j;
      assert history[start..] == lines[j..];
      tail := content[newline + 1..];
    }

    /** Appending one record. Within its limit it always succeeds; a log that would outgrow its own limit keeps at least
        four mebibytes less one record of its old lines. */
    method Append(record: string) returns (ok: bool)
      requires Valid() && '\n' !in record
      modifies this
      ensures Valid()
      ensures ok == (|Line(record)| <= MAX_EVENT_BYTES)
      ensures history == if ok then old(history) + [record] else old(history)
      ensures !ok ==> content == old(content)
      ensures ok && |old(content)| + |Line(record)| <= MAX_LOG_BYTES ==> content == old(content) + Line(record)
      ensures ok && |old(content)| + |Line(record)| > MAX_LOG_BYTES ==>
                var kept := |content| - |Line(record)|;
                && RETAINED_BYTES - MAX_EVENT_BYTES <= kept <= |old(content)|
                && content == old(content)[|old(content)| - kept..] + Line(record)
    {
      var line := record + "\n";
      if |line| > MAX_EVENT_BYTES {
        return false;
      }
      ghost var start: nat;
      var kept := content;
      if |content| + |line| > MAX_LOG_BYTES {
        kept, start := Compact();
      } else {
        start :| 0 <= start <= |history| && content == Unlines(history[start..]) && (history != [] ==> start < |history|);
      }
      ghost var grown := history + [record];
      AppendedLine(history, start, record);
      content := kept + line;
      history := grown;
      return true;
    }
  }

  lemma AppendedLine(history: seq<string>, start: nat, record: string)
    requires start <= |history|
    ensures Unlines((history + [record])[start..]) == Unlines(history[start..]) + Line(record)
  {
    assert (history + [record])[start..] == history[start..] + [record];
    UnlinesAppend(history[start..], [record]);
    assert Unlines([record]) == record + "\n" + "";
  }

  /** Any run of appends from an empty log: it holds the newest record last, is a whole-line suffix of everything that
      was accepted, and stays within its limit. */
  method AppendAll(records: seq<string>) returns (log: Log)
    requires forall i :: 0 <= i < |records| ==> '\n' !in records[i]
    ensures fresh(log) && log.Valid() && log.history == Accepted(records)
  {
    log := new Log();
    for i := 0 to |records|
      invariant fresh(log) && log.Valid() && log.history == Accepted(records[..i])
    {
      assert records[..i + 1][..i] == records[..i];
      var ok := log.Append(records[i]);
    }
    assert records[..|records|] == records;
  }

  function Accepted(records: seq<string>): seq<string>
  {
    if records == [] then []
    else
      var last := records[|records| - 1];
      Accepted(records[..|records| - 1]) + if |Line(last)| <= MAX_EVENT_BYTES then [last] else []
  }
}
