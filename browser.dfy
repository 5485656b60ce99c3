/** The command loop: read a command line, run `open` or `download`
    through the request loop, show the page or save the file, until `quit`,
    a panic, an I/O error, or the end of the input. Standard input is one
    sequence of lines shared by commands and credential prompts; the server
    is one sequence of replies, one per connection; the HTML parser is a
    given function. */
module Browser {
  import opened Basics
  import opened Text
  import opened Numbers
  import opened Response
  import opened Command
  import opened Fetch
  import opened Download
  import opened Page

  /** The `downloads` directory: its names in listing order (`None` when it
      cannot be listed) and the contents of each file. */
  datatype Disk = Disk(listing: Option<seq<string>>, files: map<string, seq<byte>>)

  /** What a command shows. */
  datatype Event =
    | HelpShown
    | NotRecognized(name: string)
    | NothingEntered
    | Declined                                        // a 401 answered with an empty line
    | Failed(code: nat, reason: string)               // "ERROR: <code> <reason>"
    | Shown(target: Target, page: Option<Rendered>)   // `open` finished; a page for text/html
    | Stored(name: string, length: nat, unit: Unit)   // `download` finished
    | NotStored                                       // `download` of an unsupported type: prints nothing

  /** Why the loop ended. */
  datatype End = Quitted | InputEnded | RepliesEnded | IoError | Panicked(fault: Fault)

  /** The whole session: what was shown, the sessions each request was
      built from, how it ended, and the directory afterwards. */
  datatype Log = Log(events: seq<Event>, requests: seq<Session>, end: End, disk: Disk)

  /** What finishing a command leaves: its events, the directory, and the
      end of the program when it stops here. */
  datatype Finish = Finish(events: seq<Event>, disk: Disk, end: Option<End>)

  /** Every file and every listed name of `d` is still in `e`. */
  predicate Grows(d: Disk, e: Disk)
  {
    d.files.Keys <= e.files.Keys
    && (d.listing.Some? ==> e.listing.Some? && forall n :: n in d.listing.value ==> n in e.listing.value)
  }

  lemma GrowsTrans(d: Disk, e: Disk, f: Disk)
    requires Grows(d, e) && Grows(e, f)
    ensures Grows(d, f)
  {
  }

  /** The directory after writing `data` as `name`. */
  function Store(disk: Disk, name: string, data: seq<byte>): (d: Disk)
    requires disk.listing.Some?
    ensures d.listing.Some? && name in d.listing.value && d.files == disk.files[name := data]
    ensures forall n :: n in disk.listing.value ==> n in d.listing.value
  {
    var names := disk.listing.value;
    Disk(Some(if name in names then names else names + [name]), disk.files[name := data])
  }

  /** Showing a loaded HTML page: parse, render, print; a link without a
      target panics after the lines before it are printed. */
  function ShowPage(target: Target, document: Option<seq<Node>>, disk: Disk): (f: Finish)
    ensures f.disk == disk
    ensures f.end.None? <==> RenderPage(document).Ok? && !RenderPage(document).value.printout.aborted
    ensures RenderPage(document).Ok? ==> f.events == [Shown(target, Some(RenderPage(document).value))]
    ensures RenderPage(document).Err? ==> f.events == [] && f.end == Some(Panicked(RenderPage(document).error))
  {
    match RenderPage(document)
    case Err(e) => Finish([], disk, Some(Panicked(e)))
    case Ok(page) =>
      Finish([Shown(target, Some(page))], disk, if page.printout.aborted then Some(Panicked(MissingHref)) else None)
  }

  /** Saving a loaded body: plan it, write the file, and report its size
      (a missing or non-numeric Content-Length panics after the write). */
  function SaveFile(mime: string, headers: HeaderMap, body: seq<byte>, disk: Disk): (f: Finish)
    requires WellFormed(headers)
    ensures f.end.None? ==> disk.listing.Some? && f.disk.listing.Some?
    ensures f.disk != disk ==> disk.listing.Some? && mime in SUPPORTED
    ensures Grows(disk, f.disk)
  {
    match PlanDownload(disk.listing, SUPPORTED, mime, headers, body)
    case Err(DirectoryUnreadable) => Finish([], disk, Some(IoError))
    case Err(e) => Finish([], disk, Some(Panicked(e)))
    case Ok(Skipped) => Finish([NotStored], disk, None)
    case Ok(Saved(name, data, length)) =>
      var stored := Store(disk, name, data);
      match length
      case None => Finish([], stored, Some(Panicked(BadContentLength)))
      case Some(n) => Finish([Stored(name, n, SizeUnit(n))], stored, None)
  }

  /** What saving does for each plan: a saved plan writes its data under
      its name and reports the length, or panics after the write when the
      length is missing; a skip prints nothing; a failed plan is an I/O
      error for an unreadable directory and a panic otherwise. */
  lemma SaveFileOutcome(mime: string, headers: HeaderMap, body: seq<byte>, disk: Disk)
    requires WellFormed(headers)
    ensures var p := PlanDownload(disk.listing, SUPPORTED, mime, headers, body);
            var f := SaveFile(mime, headers, body, disk);
            p.Ok? && p.value.Saved? ==>
              disk.listing.Some? && f.disk == Store(disk, p.value.name, p.value.data)
              && (p.value.length.Some? ==>
                    f == Finish([Stored(p.value.name, p.value.length.value, SizeUnit(p.value.length.value))], f.disk, None))
              && (p.value.length.None? ==> f == Finish([], f.disk, Some(Panicked(BadContentLength))))
    ensures var p := PlanDownload(disk.listing, SUPPORTED, mime, headers, body);
            p.Ok? && p.value.Skipped? ==> SaveFile(mime, headers, body, disk) == Finish([NotStored], disk, None)
    ensures var p := PlanDownload(disk.listing, SUPPORTED, mime, headers, body);
            p.Err? ==>
              SaveFile(mime, headers, body, disk)
              == Finish([], disk, Some(if p.error == DirectoryUnreadable then IoError else Panicked(p.error)))
  {
  }

  /** A download of a supported type into a readable directory stores the
      whole body under the name the headers or the next index give. */
  lemma SaveSupported(mime: string, headers: HeaderMap, body: seq<byte>, disk: Disk)
    requires WellFormed(headers) && mime in SUPPORTED
    requires disk.listing.Some? && NextUnnamedIndex(disk.listing.value).Ok?
    requires "Content-Disposition" in headers ==>
      |headers["Content-Disposition"]| >= 2 && |headers["Content-Disposition"][1]| >= 2
    ensures var name := if "Content-Disposition" in headers
                        then TrimMatches(headers["Content-Disposition"][1][1], '"')
                        else UnnamedName(NextUnnamedIndex(disk.listing.value).value, SUPPORTED[mime]);
            var f := SaveFile(mime, headers, body, disk);
            name in f.disk.files && f.disk.files[name] == body && name in f.disk.listing.value
  {
    SupportedSaved(disk.listing.value, SUPPORTED, mime, headers, body);
    SaveFileOutcome(mime, headers, body, disk);
  }

  /** What the end of a fetch leads to. */
  function AfterFetch(download: bool, outcome: Outcome, disk: Disk, parser: seq<byte> -> Option<seq<Node>>): (f: Finish)
    ensures Grows(disk, f.disk)
    ensures f.disk != disk ==> download && outcome.Loaded?
  {
    match outcome
    case Crashed(e) => Finish([], disk, Some(Panicked(e)))
    case IoFailed => Finish([], disk, Some(IoError))
    case OutOfReplies => Finish([], disk, Some(RepliesEnded))
    case AuthDeclined => Finish([Declined], disk, None)
    case HttpError(code, reason) => Finish([Failed(code, reason)], disk, None)
    case Loaded(target, mime, headers, body) =>
      if download then SaveFile(mime, headers, body, disk)
      else if mime == "text/html" then ShowPage(target, parser(body), disk)
      else Finish([Shown(target, None)], disk, None)
  }

  /** The event of a command that does not fetch. */
  function Reply(c: Command): (r: Event)
    requires !c.Open? && !c.Download? && !c.Quit?
    ensures r.HelpShown? <==> c.Help?
    ensures r.NothingEntered? <==> c.Blank?
    ensures r.NotRecognized? <==> c.Unrecognized?
    ensures r.NotRecognized? ==> r.name == c.name
  {
    match c
    case Help => HelpShown
    case Unrecognized(name) => NotRecognized(name)
    case Blank => NothingEntered
  }

  /** `f` applied to each element, in order. */
  function MapSeq<A, B>(f: A -> B, s: seq<A>): (r: seq<B>)
    ensures |r| == |s|
  {
    if |s| == 0 then [] else [f(s[0])] + MapSeq(f, s[1..])
  }

  lemma {:induction false} MapSeqAt<A, B>(f: A -> B, s: seq<A>, i: nat)
    requires i < |s|
    ensures MapSeq(f, s)[i] == f(s[i])
    decreases i
  {
    if i > 0 {
      MapSeqAt(f, s[1..], i - 1);
    }
  }

  /** One input line read as a command. */
  function LineCommand(line: seq<byte>): Command
  {
    ParseCommand(ToText(line))
  }

  /** Each input line read as a command (only the lines read at the prompt
      are used as such). */
  function Commands(lines: seq<seq<byte>>): (r: seq<Command>)
    ensures |r| == |lines|
  {
    MapSeq(LineCommand, lines)
  }

  /** Line `i` read as a command. */
  lemma CommandsAt(lines: seq<seq<byte>>, i: nat)
    requires i < |lines|
    ensures Commands(lines)[i] == ParseCommand(ToText(lines[i]))
  {
    MapSeqAt(LineCommand, lines, i);
  }

  /** The command loop from directory `disk`: `commands[k]` is line `k` read
      as a command. */
  function Browse(disk: Disk, lines: seq<seq<byte>>, commands: seq<Command>, answers: seq<Parsed>,
                  parser: seq<byte> -> Option<seq<Node>>): (log: Log)
    requires |commands| == |lines|
    decreases |lines|, 1
  {
    if |lines| == 0 then Log([], [], InputEnded, disk)
    else
      var command := commands[0];
      if command.Quit? then Log([], [], Quitted, disk)
      else if !command.Open? && !command.Download? then
        var log := Browse(disk, lines[1..], commands[1..], answers, parser);
        Log([Reply(command)] + log.events, log.requests, log.end, log.disk)
      else Fetched(disk, command, lines[1..], commands[1..], answers, parser)
  }

  /** An `open` or `download` command: the request loop runs from an empty
      `auth` over the following lines, the command is finished, and the loop
      goes on with the lines and replies the fetch left. */
  function Fetched(disk: Disk, command: Command, lines: seq<seq<byte>>, commands: seq<Command>,
                   answers: seq<Parsed>, parser: seq<byte> -> Option<seq<Node>>): (log: Log)
    requires command.Open? || command.Download?
    requires |commands| == |lines|
    decreases |lines|, 2
  {
    var target := command.target;
    var t := Run(Session(target.url, target.port, target.urn, ""), answers, lines);
    var f := AfterFetch(command.Download?, t.outcome, disk, parser);
    if f.end.Some? then Log(f.events, t.sent, f.end.value, f.disk)
    else
      var log := Browse(f.disk, lines[t.inputs..], commands[t.inputs..], answers[t.replies..], parser);
      Log(f.events + log.events, t.sent + log.requests, log.end, log.disk)
  }

  /** `log` after `events` were shown and `sent` requests made. */
  function Prefix(events: seq<Event>, sent: seq<Session>, log: Log): Log
  {
    Log(events + log.events, sent + log.requests, log.end, log.disk)
  }

  lemma PrefixTwice(e1: seq<Event>, s1: seq<Session>, e2: seq<Event>, s2: seq<Session>, log: Log)
    ensures Prefix(e1, s1, Prefix(e2, s2, log)) == Prefix(e1 + e2, s1 + s2, log)
  {
    assert e1 + (e2 + log.events) == e1 + e2 + log.events;
    assert s1 + (s2 + log.requests) == s1 + s2 + log.requests;
  }

  lemma DropDrop<T>(s: seq<T>, a: nat, b: nat)
    requires a + b <= |s|
    ensures s[a..][b..] == s[a + b..]
  {
  }

  /** `quit` ends the loop at once. */
  lemma BrowseQuit(disk: Disk, lines: seq<seq<byte>>, commands: seq<Command>, answers: seq<Parsed>,
                   parser: seq<byte> -> Option<seq<Node>>)
    requires |commands| == |lines| > 0 && commands[0].Quit?
    ensures Browse(disk, lines, commands, answers, parser) == Log([], [], Quitted, disk)
  {
  }

  /** A command that fetches nothing shows its event and reads the next
      line. */
  lemma BrowseLocal(disk: Disk, lines: seq<seq<byte>>, commands: seq<Command>, answers: seq<Parsed>,
                    parser: seq<byte> -> Option<seq<Node>>)
    requires |commands| == |lines| > 0
    requires !commands[0].Quit? && !commands[0].Open? && !commands[0].Download?
    ensures Browse(disk, lines, commands, answers, parser)
         == Prefix([Reply(commands[0])], [], Browse(disk, lines[1..], commands[1..], answers, parser))
  {
    var log := Browse(disk, lines[1..], commands[1..], answers, parser);
    assert [] + log.requests == log.requests;
  }

  /** `open` and `download` hand the following lines to the fetch. */
  lemma BrowseFetch(disk: Disk, lines: seq<seq<byte>>, commands: seq<Command>, answers: seq<Parsed>,
                    parser: seq<byte> -> Option<seq<Node>>)
    requires |commands| == |lines| > 0
    requires commands[0].Open? || commands[0].Download?
    ensures Browse(disk, lines, commands, answers, parser) == Fetched(disk, commands[0], lines[1..], commands[1..], answers, parser)
  {
  }

  /** One command read from `lines[i]` and carried out, with `replies[j..]`
      still to come: `stop` is the end of the program when the command ends
      it; otherwise the loop goes on from `next`, line `k` and reply `m`. */
  method Perform(disk: Disk, command: Command, lines: seq<seq<byte>>, ghost commands: seq<Command>, replies: seq<Reply>,
                 i: nat, j: nat, parser: seq<byte> -> Option<seq<Node>>)
    returns (events: seq<Event>, sent: seq<Session>, requests: seq<string>, stop: Option<End>,
             next: Disk, k: nat, m: nat)
    requires |commands| == |lines| && i < |lines| && j <= |replies| && commands[i] == command
    ensures i < k <= |lines| && j <= m <= |replies|
    ensures requests == Requests(sent)
    ensures Browse(disk, lines[i..], commands[i..], Answers(replies[j..]), parser) ==
              if stop.Some? then Log(events, sent, stop.value, next)
              else Prefix(events, sent, Browse(next, lines[k..], commands[k..], Answers(replies[m..]), parser))
  {
    ghost var answers := Answers(replies[j..]);
    DropDrop(lines, i, 1);
    DropDrop(commands, i, 1);
    if command.Quit? {
      BrowseQuit(disk, lines[i..], commands[i..], answers, parser);
      return [], [], [], Some(Quitted), disk, i + 1, j;
    }
    if !command.Open? && !command.Download? {
      BrowseLocal(disk, lines[i..], commands[i..], answers, parser);
      return [Reply(command)], [], [], None, disk, i + 1, j;
    }
    events, sent, requests, stop, next, k, m := FetchCommand(disk, command, lines, commands, replies, i, j, parser);
  }

  /** `open` or `download` at line `i` and reply `j`. */
  method FetchCommand(disk: Disk, command: Command, lines: seq<seq<byte>>, ghost commands: seq<Command>, replies: seq<Reply>,
                      i: nat, j: nat, parser: seq<byte> -> Option<seq<Node>>)
    returns (events: seq<Event>, sent: seq<Session>, requests: seq<string>, stop: Option<End>,
             next: Disk, k: nat, m: nat)
    requires |commands| == |lines| && i < |lines| && j <= |replies| && commands[i] == command
    requires command.Open? || command.Download?
    ensures i < k <= |lines| && j <= m <= |replies|
    ensures requests == Requests(sent)
    ensures Browse(disk, lines[i..], commands[i..], Answers(replies[j..]), parser) ==
              if stop.Some? then Log(events, sent, stop.value, next)
              else Prefix(events, sent, Browse(next, lines[k..], commands[k..], Answers(replies[m..]), parser))
  {
    ghost var answers := Answers(replies[j..]);
    DropDrop(lines, i, 1);
    DropDrop(commands, i, 1);
    BrowseFetch(disk, lines[i..], commands[i..], answers, parser);
    assert Browse(disk, lines[i..], commands[i..], answers, parser)
        == Fetched(disk, command, lines[i + 1..], commands[i + 1..], answers, parser);
    var usedLines, usedReplies;
    events, sent, requests, stop, next, usedLines, usedReplies :=
      Visit(disk, command, lines[i + 1..], commands[i + 1..], replies[j..], parser);
    k, m := i + 1 + usedLines, j + usedReplies;
    ghost var rel := Browse(next, lines[i + 1..][usedLines..], commands[i + 1..][usedLines..],
                            Answers(replies[j..][usedReplies..]), parser);
    assert Fetched(disk, command, lines[i + 1..], commands[i + 1..], answers, parser) ==
             if stop.Some? then Log(events, sent, stop.value, next) else Prefix(events, sent, rel);
    BrowseFrom(next, lines, commands, replies, i + 1, j, usedLines, usedReplies, parser);
    assert lines[i + 1..][usedLines..] == lines[k..];
    assert commands[i + 1..][usedLines..] == commands[k..];
    assert Answers(replies[j..][usedReplies..]) == Answers(replies[m..]);
    assert rel == Browse(next, lines[k..], commands[k..], Answers(replies[m..]), parser);
    assert Browse(disk, lines[i..], commands[i..], answers, parser) ==
              if stop.Some? then Log(events, sent, stop.value, next)
              else Prefix(events, sent, Browse(next, lines[k..], commands[k..], Answers(replies[m..]), parser));
  }

  /** `open` or `download` of `command.target`, with `lines` the input after
      the command line. */
  method Visit(disk: Disk, command: Command, lines: seq<seq<byte>>, ghost commands: seq<Command>, replies: seq<Reply>,
               parser: seq<byte> -> Option<seq<Node>>)
    returns (events: seq<Event>, sent: seq<Session>, requests: seq<string>, stop: Option<End>,
             next: Disk, usedLines: nat, usedReplies: nat)
    requires command.Open? || command.Download?
    requires |commands| == |lines|
    ensures usedLines <= |lines| && usedReplies <= |replies|
    ensures requests == Requests(sent)
    ensures Fetched(disk, command, lines, commands, Answers(replies), parser) ==
              if stop.Some? then Log(events, sent, stop.value, next)
              else Prefix(events, sent, Browse(next, lines[usedLines..], commands[usedLines..], Answers(replies[usedReplies..]), parser))
  {
    var outcome, leftover;
    sent, requests, outcome, leftover, usedReplies, usedLines :=
      Fetch.Fetch(command.target, "", replies, lines);
    var f := AfterFetch(command.Download?, outcome, disk, parser);
    events, stop, next := f.events, f.end, f.disk;
    AnswersSuffix(replies, usedReplies);
  }

  /** The loop from line `i + u` and reply `j + v`, reached in two steps. */
  lemma BrowseFrom(disk: Disk, lines: seq<seq<byte>>, commands: seq<Command>, replies: seq<Reply>,
                   i: nat, j: nat, u: nat, v: nat, parser: seq<byte> -> Option<seq<Node>>)
    requires |commands| == |lines| && i + u <= |lines| && j + v <= |replies|
    ensures Browse(disk, lines[i..][u..], commands[i..][u..], Answers(replies[j..][v..]), parser)
         == Browse(disk, lines[i + u..], commands[i + u..], Answers(replies[j + v..]), parser)
  {
    DropDrop(replies, j, v);
    DropDrop(lines, i, u);
    DropDrop(commands, i, u);
  }

  /** The command loop. Each fetch starts with an empty `auth`; the text the
      request loop leaves in `auth` is dropped (see `DeclinedAuthLeaks` for
      what keeping it does). */
  method Repl(disk0: Disk, lines: seq<seq<byte>>, replies: seq<Reply>, parser: seq<byte> -> Option<seq<Node>>)
    returns (events: seq<Event>, sent: seq<Session>, requests: seq<string>, end: End, disk: Disk)
    ensures Log(events, sent, end, disk) == Browse(disk0, lines, Commands(lines), Answers(replies), parser)
    ensures requests == Requests(sent)
  {
    var i, j := 0, 0;
    events, sent, requests, disk := [], [], [], disk0;
    ghost var commands := Commands(lines);
    ghost var total := Browse(disk0, lines, commands, Answers(replies), parser);
    assert lines[0..] == lines && commands[0..] == commands && replies[0..] == replies;
    assert [] + total.events == total.events && [] + total.requests == total.requests;
    while i < |lines|
      invariant i <= |lines| && j <= |replies|
      invariant requests == Requests(sent)
      invariant Prefix(events, sent, Browse(disk, lines[i..], commands[i..], Answers(replies[j..]), parser)) == total
      decreases |lines| - i
    {
      var command := ParseCommand(ToText(lines[i]));
      CommandsAt(lines, i);
      var e, s, r, stop, next, k, m := Perform(disk, command, lines, commands, replies, i, j, parser);
      RequestsAppend(sent, s);
      if stop.Some? {
        events, sent, requests, end, disk := events + e, sent + s, requests + r, stop.value, next;
        return;
      }
      ghost var rest := Browse(next, lines[k..], commands[k..], Answers(replies[m..]), parser);
      PrefixTwice(events, sent, e, s, rest);
      events, sent, requests, disk := events + e, sent + s, requests + r, next;
      i, j := k, m;
    }
    end := InputEnded;
    assert events + [] == events && sent + [] == sent;
  }

  lemma AllValidAppend(a: seq<Session>, b: seq<Session>)
    requires AllValid(a) && AllValid(b)
    ensures AllValid(a + b)
  {
    assert forall k :: |a| <= k < |a + b| ==> (a + b)[k] == b[k - |a|];
  }

  /** Since every fetch starts from an empty `auth`, no request of the
      session carries anything but one well-formed Authorization header at
      most. */
  lemma {:induction false} BrowseSendsValidAuth(disk: Disk, lines: seq<seq<byte>>, commands: seq<Command>,
                                                answers: seq<Parsed>, parser: seq<byte> -> Option<seq<Node>>)
    requires |commands| == |lines|
    ensures AllValid(Browse(disk, lines, commands, answers, parser).requests)
    decreases |lines|, 1
  {
    if |lines| > 0 && !commands[0].Quit? {
      if !commands[0].Open? && !commands[0].Download? {
        BrowseSendsValidAuth(disk, lines[1..], commands[1..], answers, parser);
      } else {
        FetchedSendsValidAuth(disk, commands[0], lines[1..], commands[1..], answers, parser);
      }
    }
  }

  lemma {:induction false} FetchedSendsValidAuth(disk: Disk, command: Command, lines: seq<seq<byte>>, commands: seq<Command>,
                                                 answers: seq<Parsed>, parser: seq<byte> -> Option<seq<Node>>)
    requires command.Open? || command.Download?
    requires |commands| == |lines|
    ensures AllValid(Fetched(disk, command, lines, commands, answers, parser).requests)
    decreases |lines|, 2
  {
    var target := command.target;
    var s := Session(target.url, target.port, target.urn, "");
    var t := Run(s, answers, lines);
    RunSendsValidAuth(s, answers, lines);
    var f := AfterFetch(command.Download?, t.outcome, disk, parser);
    if f.end.None? {
      var log := Browse(f.disk, lines[t.inputs..], commands[t.inputs..], answers[t.replies..], parser);
      BrowseSendsValidAuth(f.disk, lines[t.inputs..], commands[t.inputs..], answers[t.replies..], parser);
      AllValidAppend(t.sent, log.requests);
    }
  }

  /** The command loop never removes a file or a listed name from the
      downloads directory. */
  lemma {:induction false} BrowseKeepsFiles(disk: Disk, lines: seq<seq<byte>>, commands: seq<Command>,
                                            answers: seq<Parsed>, parser: seq<byte> -> Option<seq<Node>>)
    requires |commands| == |lines|
    ensures Grows(disk, Browse(disk, lines, commands, answers, parser).disk)
    decreases |lines|, 1
  {
    if |lines| > 0 && !commands[0].Quit? {
      if !commands[0].Open? && !commands[0].Download? {
        BrowseKeepsFiles(disk, lines[1..], commands[1..], answers, parser);
      } else {
        FetchedKeepsFiles(disk, commands[0], lines[1..], commands[1..], answers, parser);
      }
    }
  }

  lemma {:induction false} FetchedKeepsFiles(disk: Disk, command: Command, lines: seq<seq<byte>>, commands: seq<Command>,
                                             answers: seq<Parsed>, parser: seq<byte> -> Option<seq<Node>>)
    requires command.Open? || command.Download?
    requires |commands| == |lines|
    ensures Grows(disk, Fetched(disk, command, lines, commands, answers, parser).disk)
    decreases |lines|, 2
  {
    var target := command.target;
    var t := Run(Session(target.url, target.port, target.urn, ""), answers, lines);
    var f := AfterFetch(command.Download?, t.outcome, disk, parser);
    if f.end.None? {
      var log := Browse(f.disk, lines[t.inputs..], commands[t.inputs..], answers[t.replies..], parser);
      BrowseKeepsFiles(f.disk, lines[t.inputs..], commands[t.inputs..], answers[t.replies..], parser);
      GrowsTrans(disk, f.disk, log.disk);
    }
  }

  /** As written, `auth` lives across commands: after a 401 answered with
      an empty line it still holds "\n", and the next command's first
      request carries that bare line feed inside its header block. */
  lemma DeclinedAuthLeaks(s: Session, answers: seq<Parsed>, inputs: seq<seq<byte>>, next: Target)
    requires |answers| > 0 && IsChallenge(answers[0])
    requires |inputs| > 0 && ToText(inputs[0]) == "\n"
    ensures var t := Run(s, answers, inputs);
            t.outcome == AuthDeclined && t.auth == "\n" && !ValidAuth(t.auth)
            && Request(Session(next.url, next.port, next.urn, t.auth))
               == "GET /" + next.urn + " HTTP/1.0\r\nHost: " + next.url + "\n\r\n\r\n"
  {
    DeclinedChallengeStops(s, answers, inputs);
  }
}
