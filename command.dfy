/** The command line: `open`/`download host[:port][/path]`, `help`, `quit`. */
module Command {
  import opened Basics
  import opened Text

  /** Where a request goes: host, port and the path after the first '/'. */
  datatype Target = Target(url: string, port: string, urn: string)

  datatype Command =
    | Open(target: Target)
    | Download(target: Target)
    | Help
    | Quit
    | Unrecognized(name: string)
    | Blank

  const SCHEME: string := "http://"

  /** The argument after the command word: every leading "http://"
      stripped, split once on '/', each part split on every ':'. */
  function Arguments(rest: string): (r: seq<seq<string>>)
    ensures 1 <= |r| <= 2
    ensures forall k :: 0 <= k < |r| ==> |r[k]| >= 1
    ensures forall k, e :: 0 <= k < |r| && 0 <= e < |r[k]| ==> Avoids(r[k][e], {':'})
  {
    SplitColons(SplitN(StripPrefixes(rest, SCHEME), '/', 2))
  }

  /** Each piece split on every ':'. */
  function SplitColons(parts: seq<string>): (r: seq<seq<string>>)
    ensures |r| == |parts|
    ensures forall k :: 0 <= k < |r| ==> |r[k]| >= 1
    ensures forall k, e :: 0 <= k < |r| && 0 <= e < |r[k]| ==> Avoids(r[k][e], {':'})
  {
    seq(|parts|, k requires 0 <= k < |parts| => Split(parts[k], {':'}))
  }

  /** Host, port and path picked from the arguments, with the defaults
      "localhost", "80" and "". */
  function TargetOf(args: seq<seq<string>>): Target
    requires forall k :: 0 <= k < |args| ==> |args[k]| >= 1
  {
    Target(
      if |args| == 0 then "localhost" else args[0][0],
      if |args| == 0 || |args[0]| == 1 then "80" else args[0][1],
      if |args| < 2 then "" else args[1][0])
  }

  /** The command a word names: `open` and `download` with the target
      their arguments give, `help`, `quit`, nothing for an empty word, and
      any other word unrecognized. */
  function Dispatch(name: string, args: seq<seq<string>>): (r: Command)
    requires forall k :: 0 <= k < |args| ==> |args[k]| >= 1
    ensures r.Open? <==> name == "open"
    ensures r.Download? <==> name == "download"
    ensures r.Help? <==> name == "help"
    ensures r.Quit? <==> name == "quit"
    ensures r.Blank? <==> name == ""
    ensures r.Unrecognized? ==> r.name == name
    ensures (r.Open? || r.Download?) ==> r.target == TargetOf(args)
  {
    if name == "" then Blank
    else if name == "open" then Open(TargetOf(args))
    else if name == "download" then Download(TargetOf(args))
    else if name == "help" then Help
    else if name == "quit" then Quit
    else Unrecognized(name)
  }

  /** One line as typed. The trimmed line is cut at its first space into
      the command word and its argument; a line without an inner space keeps
      as command word the text before its first space, end-trimmed. */
  function ParseCommand(line: string): (r: Command)
    ensures (r.Open? || r.Download?) && ' ' !in Trim(line) ==> r.target == Target("localhost", "80", "")
  {
    match SplitOnce(Trim(line), ' ')
    case Some((name, rest)) =>
      Dispatch(name, Arguments(rest))
    case None =>
      Dispatch(TrimEnd(Split(line, {' '})[0]), [])
  }

  /** A line whose trimmed text is a word, a space and an argument runs the
      command that word names on that argument. */
  lemma CommandWord(line: string, word: string, rest: string)
    requires Trim(line) == word + " " + rest && ' ' !in word
    ensures ParseCommand(line) == Dispatch(word, Arguments(rest))
  {
    assert word + " " + rest == word + [' '] + rest;
    SplitOnceUnique(Trim(line), ' ', word, rest);
  }

  /** A line whose trimmed text has no inner space runs the command named
      by its text before the first space, end-trimmed, without arguments. */
  lemma SingleWord(line: string)
    requires ' ' !in Trim(line)
    ensures ParseCommand(line) == Dispatch(TrimEnd(Before(line, ' ')), [])
  {
    assert SplitOnce(Trim(line), ' ').None?;
    SplitHead(line, ' ');
  }

  /** A word typed alone, as `quit` or `open` followed by the line feed that
      `read_line` keeps, runs the command that word names without
      arguments. */
  lemma WordAlone(w: string)
    requires forall i :: 0 <= i < |w| ==> !IsSpace(w[i])
    ensures ParseCommand(w + "\n") == Dispatch(w, [])
  {
    var line := w + "\n";
    assert ' ' !in line by {
      forall i | 0 <= i < |line| ensures line[i] != ' ' {
        if i < |w| { assert line[i] == w[i]; }
      }
    }
    assert TrimEnd(line) == w by {
      assert line[..|line| - 1] == w;
    }
    if |w| > 0 {
      assert line[0] == w[0];
      assert TrimStart(line) == line;
    } else {
      assert TrimStart(line) == TrimStart([]);
    }
    assert Trim(line) == w;
    assert SplitOnce(line, ' ').None?;
    assert Before(line, ' ') == line;
    SingleWord(line);
  }

  /** The target is read off the argument by position: the host runs up to
      the first ':' or '/', the port sits between the first ':' and the next
      ':' before the first '/', the path runs from after the first '/' to the
      next ':'. */
  lemma TargetFields(rest: string)
    ensures var a := StripPrefixes(rest, SCHEME);
            var host := Before(a, '/');
            TargetOf(Arguments(rest)) == Target(
              Before(host, ':'),
              if ':' in host then Before(After(host, ':'), ':') else "80",
              if '/' in a then Before(After(a, '/'), ':') else "")
  {
    var a := StripPrefixes(rest, SCHEME);
    var parts := SplitN(a, '/', 2);
    var host := Before(a, '/');
    if '/' in a {
      assert parts == [host, After(a, '/')];
      SplitHead(After(a, '/'), ':');
    } else {
      assert parts == [a];
      assert host == a;
    }
    SplitHead(host, ':');
  }

  /** A line of whitespace is no command. */
  lemma BlankLine(line: string)
    requires forall i :: 0 <= i < |line| ==> IsSpace(line[i])
    ensures ParseCommand(line) == Blank
  {
    assert Trim(line) == [];
    var first := Split(line, {' '})[0];
    SplitHead(line, ' ');
    assert first <= line;
    assert TrimEnd(first) == [];
  }

  /** An indented single word is read as no command at all: the command
      word is taken from before the line's first space. */
  lemma IndentedWordIsBlank(word: string)
    requires |word| > 0 && ' ' !in word && !IsSpace(word[0]) && !IsSpace(word[|word| - 1])
    ensures ParseCommand(" " + word + "\n") == Blank
  {
    var line := " " + word + "\n";
    assert TrimStart(line) == word + "\n" by {
      assert line[1..] == word + "\n";
    }
    assert TrimEnd(word + "\n") == word by {
      assert (word + "\n")[..|word|] == word;
    }
    assert Trim(line) == word;
    assert Split(line, {' '})[0] == [] by {
      assert IndexOf(line, {' '}) == Some(0);
    }
  }
}
