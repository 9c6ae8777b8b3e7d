/** Commands printed for the user: each argument is quoted so that a POSIX shell reads the same arguments back. */
module Shell {
  import opened Wrappers
  import opened Texts

  // ---------------------------------------------------------------- printing

  predicate Safe(c: char)
  {
    || 'a' <= c <= 'z' || 'A' <= c <= 'Z' || '0' <= c <= '9' || c == '_' || c == '@' || c == '%' || c == '+'
    || c == '=' || c == ':' || c == ',' || c == '.' || c == '/' || c == '-'
  }

  predicate AllSafe(argument: string)
  {
    forall i :: 0 <= i < |argument| ==> Safe(argument[i])
  }

  /** Every single quote leaves the quoted text, stands escaped, and opens it again. */
  function Escaped(argument: string): string
  {
    if argument == "" then ""
    else (if argument[0] == '\'' then "'\\''" else [argument[0]]) + Escaped(argument[1..])
  }

  function Quote(argument: string): string
  {
    if argument == "" then "''"
    else if AllSafe(argument) then argument
    else "'" + Escaped(argument) + "'"
  }

  function Quotes(arguments: seq<string>): seq<string>
  {
    seq(|arguments|, i requires 0 <= i < |arguments| => Quote(arguments[i]))
  }

  function Format(arguments: seq<string>): string
  {
    Join(Quotes(arguments), " ")
  }

  method ShellQuote(argument: string) returns (text: string)
    ensures text == Quote(argument)
  {
    if argument == "" {
      return "''";
    }
    for i := 0 to |argument|
      invariant forall j :: 0 <= j < i ==> Safe(argument[j])
    {
      if !Safe(argument[i]) {
        var escaped := ReplaceQuotes(argument);
        return "'" + escaped + "'";
      }
    }
    return argument;
  }

  method ReplaceQuotes(argument: string) returns (text: string)
    ensures text == Escaped(argument)
  {
    text := "";
    for i := 0 to |argument|
      invariant Escaped(argument) == text + Escaped(argument[i..])
    {
      assert argument[i..][1..] == argument[i + 1..];
      text := text + if argument[i] == '\'' then "'\\''" else [argument[i]];
    }
  }

  method FormatSetupCommand(arguments: seq<string>) returns (text: string)
    ensures text == Format(arguments)
  {
    var quoted: seq<string> := [];
    for i := 0 to |arguments|
      invariant quoted == Quotes(arguments[..i])
    {
      var argument := ShellQuote(arguments[i]);
      quoted := quoted + [argument];
    }
    assert arguments[..|arguments|] == arguments;
    return Join(quoted, " ");
  }

  // ---------------------------------------------------------------- reading

  /** The reader's position: between words, in a word, inside single quotes, or behind a backslash. */
  datatype Reader = Between | Word(text: string) | Quoted(text: string) | Behind(text: string)

  /** Characters with a meaning of their own when unquoted, beyond quotes, backslashes and blanks; where the shell
      would do more than split words, the reader gives no answer. */
  predicate Special(c: char)
  {
    || c == '|' || c == '&' || c == ';' || c == '<' || c == '>' || c == '(' || c == ')' || c == '$' || c == '`'
    || c == '"' || c == '\n' || c == '*' || c == '?' || c == '[' || c == '#' || c == '~'
  }

  predicate Blank(c: char) { c == ' ' || c == '\t' }

  /** One character: the word it completes, if any, and the next position. */
  function Next(reader: Reader, c: char): Option<(seq<string>, Reader)>
  {
    match reader
    case Quoted(text) => Some(([], if c == '\'' then Word(text) else Quoted(text + [c])))
    case Behind(text) => if c == '\n' then None else Some(([], Word(text + [c])))
    case Between =>
      if Blank(c) then Some(([], Between))
      else if c == '\'' then Some(([], Quoted("")))
      else if c == '\\' then Some(([], Behind("")))
      else if Special(c) then None
      else Some(([], Word([c])))
    case Word(text) =>
      if Blank(c) then Some(([text], Between))
      else if c == '\'' then Some(([], Quoted(text)))
      else if c == '\\' then Some(([], Behind(text)))
      else if Special(c) then None
      else Some(([], Word(text + [c])))
  }

  /** Token recognition and quote removal, sections 2.2 and 2.3 of the Shell Command Language in IEEE Std 1003.1. */
  function Read(s: string, reader: Reader): Option<seq<string>>
  {
    if s == "" then
      match reader
      case Between => Some([])
      case Word(text) => Some([text])
      case _ => None
    else
      match Next(reader, s[0])
      case None => None
      case Some((words, next)) =>
        match Read(s[1..], next)
        case None => None
        case Some(rest) => Some(words + rest)
  }

  /** A character that completes no word only moves the reader. */
  lemma ReadSilent(c: char, rest: string, reader: Reader, next: Reader)
    requires Next(reader, c) == Some(([], next))
    ensures Read([c] + rest, reader) == Read(rest, next)
  {
    assert ([c] + rest)[0] == c && ([c] + rest)[1..] == rest;
    var tail := Read(rest, next);
    assert tail.Some? ==> [] + tail.value == tail.value;
  }

  lemma Uncons(s: string, rest: string)
    requires s != ""
    ensures s + rest == [s[0]] + (s[1..] + rest) && [s[0]] + s[1..] == s
  {
  }

  lemma {:induction false} ReadSafe(argument: string, text: string, rest: string)
    requires AllSafe(argument)
    ensures Read(argument + rest, Word(text)) == Read(rest, Word(text + argument))
  {
    if argument == "" {
      assert argument + rest == rest && text + argument == text;
    } else {
      var c, more := argument[0], argument[1..];
      assert Safe(c) && AllSafe(more);
      SafeIsLiteral(c, text);
      ReadSilent(c, more + rest, Word(text), Word(text + [c]));
      ReadSafe(more, text + [c], rest);
      Uncons(argument, rest);
      Regroup(text, [c], more);
    }
  }

  lemma SafeIsLiteral(c: char, text: string)
    requires Safe(c)
    ensures Next(Between, c) == Some(([], Word([c]))) && Next(Word(text), c) == Some(([], Word(text + [c])))
  {
  }

  lemma ReadEscapedQuote(text: string, rest: string)
    ensures Read("'\\''" + rest, Quoted(text)) == Read(rest, Quoted(text + "'"))
  {
    var q, b := '\'', '\\';
    ReadSilent(q, [b] + ([q] + ([q] + rest)), Quoted(text), Word(text));
    ReadSilent(b, [q] + ([q] + rest), Word(text), Behind(text));
    ReadSilent(q, [q] + rest, Behind(text), Word(text + [q]));
    ReadSilent(q, rest, Word(text + [q]), Quoted(text + [q]));
    assert "'\\''" + rest == [q] + ([b] + ([q] + ([q] + rest)));
  }

  lemma EscapedCons(argument: string, end: string)
    requires argument != ""
    ensures Escaped(argument) + end == (if argument[0] == '\'' then "'\\''" else [argument[0]]) + (Escaped(argument[1..]) + end)
  {
  }

  lemma {:induction false} ReadEscaped(argument: string, text: string, rest: string)
    ensures Read(Escaped(argument) + (['\''] + rest), Quoted(text)) == Read(rest, Word(text + argument))
  {
    var q := '\'';
    if argument == "" {
      assert Escaped(argument) + ([q] + rest) == [q] + rest && text + argument == text;
      ReadSilent(q, rest, Quoted(text), Word(text));
    } else {
      var c, more := argument[0], argument[1..];
      var tail := Escaped(more) + ([q] + rest);
      ReadEscaped(more, text + [c], rest);
      assert text + [c] + more == text + argument;
      EscapedCons(argument, [q] + rest);
      if c == q {
        ReadEscapedQuote(text, tail);
      } else {
        ReadSilent(c, tail, Quoted(text), Quoted(text + [c]));
      }
    }
  }

  lemma ReadPlain(argument: string, rest: string)
    requires argument != "" && AllSafe(argument)
    ensures Read(argument + rest, Between) == Read(rest, Word(argument))
  {
    var c, more := argument[0], argument[1..];
    assert Safe(c) && AllSafe(more);
    SafeIsLiteral(c, "");
    ReadSilent(c, more + rest, Between, Word([c]));
    ReadSafe(more, [c], rest);
    Uncons(argument, rest);
  }

  lemma ReadWrapped(argument: string, rest: string)
    ensures Read("'" + Escaped(argument) + "'" + rest, Between) == Read(rest, Word(argument))
  {
    var q := '\'';
    ReadSilent(q, Escaped(argument) + ([q] + rest), Between, Quoted(""));
    ReadEscaped(argument, "", rest);
    assert "'" + Escaped(argument) + "'" + rest == [q] + (Escaped(argument) + ([q] + rest));
    assert "" + argument == argument;
  }

  /** A quoted argument reads as one word. */
  lemma ReadQuote(argument: string, rest: string)
    ensures Read(Quote(argument) + rest, Between) == Read(rest, Word(argument))
  {
    if argument == "" {
      ReadWrapped("", rest);
      assert Quote(argument) == "'" + Escaped("") + "'";
    } else if AllSafe(argument) {
      ReadPlain(argument, rest);
    } else {
      ReadWrapped(argument, rest);
    }
  }

  /** Printing any list of arguments and reading it back gives the same list. */
  lemma {:induction false} ReadsBack(arguments: seq<string>)
    ensures Read(Format(arguments), Between) == Some(arguments)
  {
    if arguments != [] {
      var first, rest := arguments[0], arguments[1..];
      assert Quotes(arguments)[1..] == Quotes(rest);
      ReadsBack(rest);
      if rest == [] {
        ReadQuote(first, "");
        assert Format(arguments) == Quote(first) + "";
        assert arguments == [first];
      } else {
        var tail := [' '] + Format(rest);
        assert Format(arguments) == Quote(first) + tail;
        ReadQuote(first, tail);
        assert tail[0] == ' ' && tail[1..] == Format(rest);
        assert Read(tail, Word(first)) == Some([first] + rest);
        assert arguments == [first] + rest;
      }
    }
  }
}
