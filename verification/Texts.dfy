/** The string operations of the Go standard library that the components rely on:
    strings.Split with a one-character separator, strings.Join and strings.Contains. */
module Texts {

  function Split(s: string, sep: char): (parts: seq<string>)
    ensures |parts| >= 1
  {
    if s == "" then [""]
    else if s[0] == sep then [""] + Split(s[1..], sep)
    else
      var rest := Split(s[1..], sep);
      [[s[0]] + rest[0]] + rest[1..]
  }

  function Join(parts: seq<string>, sep: string): string
  {
    if parts == [] then ""
    else if |parts| == 1 then parts[0]
    else parts[0] + sep + Join(parts[1..], sep)
  }

  predicate HasPrefix(s: string, prefix: string)
  {
    |prefix| <= |s| && s[..|prefix|] == prefix
  }

  predicate MatchesAt(s: string, pattern: string, i: nat)
  {
    i + |pattern| <= |s| && s[i..i + |pattern|] == pattern
  }

  predicate Contains(s: string, pattern: string)
  {
    exists i: nat :: i <= |s| && MatchesAt(s, pattern, i)
  }

  /** Every line followed by a newline. */
  function Unlines(lines: seq<string>): string
  {
    if lines == [] then "" else lines[0] + "\n" + Unlines(lines[1..])
  }

  predicate Free(parts: seq<string>, sep: char)
  {
    forall part :: part in parts ==> sep !in part
  }

  lemma {:induction false} SplitPartsFree(s: string, sep: char)
    ensures Free(Split(s, sep), sep)
  {
    if s != "" {
      SplitPartsFree(s[1..], sep);
    }
  }

  lemma {:induction false} JoinSplit(s: string, sep: char)
    ensures Join(Split(s, sep), [sep]) == s
  {
    if s == "" {
    } else if s[0] == sep {
      JoinSplit(s[1..], sep);
      assert Split(s, sep)[1..] == Split(s[1..], sep);
      assert s == "" + [sep] + s[1..];
    } else {
      JoinSplit(s[1..], sep);
      var rest := Split(s[1..], sep);
      var parts := Split(s, sep);
      assert parts[1..] == rest[1..];
      assert s == [s[0]] + s[1..];
      if |rest| > 1 {
        assert [s[0]] + (rest[0] + [sep] + Join(rest[1..], [sep])) == ([s[0]] + rest[0]) + [sep] + Join(rest[1..], [sep]);
      }
    }
  }

  /** Splitting at a separator that ends a separator-free prefix. */
  lemma {:induction false} SplitAfter(first: string, rest: string, sep: char)
    requires sep !in first
    ensures Split(first + [sep] + rest, sep) == [first] + Split(rest, sep)
  {
    var s := first + [sep] + rest;
    if first == "" {
      assert s[1..] == rest;
    } else {
      assert s[1..] == first[1..] + [sep] + rest;
      SplitAfter(first[1..], rest, sep);
      assert [s[0]] + first[1..] == first;
    }
  }

  lemma {:induction false} SplitWhole(s: string, sep: char)
    requires sep !in s
    ensures Split(s, sep) == [s]
  {
    if s != "" {
      SplitWhole(s[1..], sep);
      assert [s[0]] + s[1..] == s;
    }
  }

  lemma {:induction false} SplitJoin(parts: seq<string>, sep: char)
    requires parts != []
    requires Free(parts, sep)
    ensures Split(Join(parts, [sep]), sep) == parts
  {
    if |parts| == 1 {
      SplitWhole(parts[0], sep);
    } else {
      SplitJoin(parts[1..], sep);
      SplitAfter(parts[0], Join(parts[1..], [sep]), sep);
    }
  }

  lemma Regroup<T>(first: seq<T>, second: seq<T>, third: seq<T>)
    ensures (first + second) + third == first + (second + third)
  {
  }

  lemma {:induction false} SplitUnlines(lines: seq<string>, rest: string)
    requires Free(lines, '\n')
    ensures Split(Unlines(lines) + rest, '\n') == lines + Split(rest, '\n')
  {
    if lines == [] {
      assert Unlines(lines) + rest == rest;
    } else {
      var first, more := lines[0], Unlines(lines[1..]);
      Regroup(first + ['\n'], more, rest);
      SplitAfter(first, more + rest, '\n');
      SplitUnlines(lines[1..], rest);
      Regroup([first], lines[1..], Split(rest, '\n'));
      assert lines == [first] + lines[1..];
    }
  }

  lemma {:induction false} UnlinesAppend(first: seq<string>, second: seq<string>)
    ensures Unlines(first + second) == Unlines(first) + Unlines(second)
  {
    if first == [] {
      assert first + second == second;
    } else {
      assert (first + second)[1..] == first[1..] + second;
      UnlinesAppend(first[1..], second);
    }
  }

  /** A text is its first lines, each with its newline, followed by the joined rest. */
  lemma {:induction false} JoinAt(lines: seq<string>, n: nat)
    requires n < |lines|
    ensures Join(lines, "\n") == Unlines(lines[..n]) + Join(lines[n..], "\n")
  {
    if n == 0 {
      assert lines[0..] == lines;
    } else {
      JoinAt(lines[1..], n - 1);
      assert lines[..n][1..] == lines[1..][..n - 1];
      assert lines[1..][n - 1..] == lines[n..];
    }
  }
}
