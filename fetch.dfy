/** The request loop of one `open` or `download`: send a request, read the
    whole reply, then retry with credentials after a 401, follow a Refresh
    header, or stop. The server is an abstract sequence of replies, one per
    connection, and the user's typing a sequence of input lines. */
module Fetch {
  import opened Basics
  import opened Text
  import opened Response
  import opened Command
  import Base64

  /** The loop's mutable variables: host, port, path and the pending
      Authorization header text. */
  datatype Session = Session(url: string, port: string, urn: string, auth: string)

  /** What one connection yields: the connection is refused (an I/O error
      that ends the program through `?`), or the server's bytes up to close. */
  datatype Reply = Unreachable | Answered(bytes: seq<byte>)

  /** A header map as the parser builds it. */
  type Headers = m: HeaderMap | WellFormed(m) witness map[]

  datatype Outcome =
    | Loaded(target: Target, mime: string, headers: Headers, body: seq<byte>)  // a usable response
    | AuthDeclined                          // the user answered a 401 with an empty line
    | HttpError(code: nat, reason: string)  // any other status of 400 and up
    | Crashed(fault: Fault)                 // a panic on malformed input
    | IoFailed                              // `?` returned an I/O error from `main`
    | OutOfReplies                          // the reply sequence ran out

  /** The whole of one fetch: the sessions each request was built from, how
      the loop ended, the `auth` text it left behind, and how many replies
      and input lines it consumed. */
  datatype Trace = Trace(sent: seq<Session>, outcome: Outcome, auth: string, replies: nat, inputs: nat)

  const AUTH_PREFIX: string := "\r\nAuthorization: "

  /** The request text: the path after "GET /", the host in the Host
      header, then whatever `auth` holds, then the blank line. */
  function Request(s: Session): string
  {
    "GET /" + s.urn + " HTTP/1.0\r\nHost: " + s.url + s.auth + "\r\n\r\n"
  }

  /** The request text of each session, in order. */
  function Requests(sent: seq<Session>): (r: seq<string>)
    ensures |r| == |sent|
  {
    if |sent| == 0 then [] else Requests(sent[..|sent| - 1]) + [Request(sent[|sent| - 1])]
  }

  /** One more session adds its request at the end. */
  lemma RequestsSnoc(sent: seq<Session>, s: Session)
    ensures Requests(sent + [s]) == Requests(sent) + [Request(s)]
  {
    assert (sent + [s])[..|sent|] == sent;
  }

  /** The requests of two runs of sessions are those of each, in order. */
  lemma {:induction false} RequestsAppend(a: seq<Session>, b: seq<Session>)
    ensures Requests(a + b) == Requests(a) + Requests(b)
    decreases |b|
  {
    if |b| == 0 {
      assert a + b == a;
    } else {
      var init := b[..|b| - 1];
      assert a + b == (a + init) + [b[|b| - 1]];
      assert b == init + [b[|b| - 1]];
      RequestsSnoc(a + init, b[|b| - 1]);
      RequestsSnoc(init, b[|b| - 1]);
      RequestsAppend(a, init);
    }
  }

  /** The `k`-th request is built from the `k`-th session. */
  lemma {:induction false} RequestsAt(sent: seq<Session>, k: nat)
    requires k < |sent|
    ensures Requests(sent)[k] == Request(sent[k])
    decreases |sent|
  {
    if k < |sent| - 1 {
      RequestsAt(sent[..|sent| - 1], k);
    }
  }

  /** `auth` is empty or one Authorization header. */
  predicate ValidAuth(a: string)
  {
    a == "" || AUTH_PREFIX <= a
  }

  /** A byte that `char::is_whitespace` accepts, on ASCII. */
  predicate IsSpaceByte(b: byte)
  {
    IsSpace(b as int as char)
  }

  /** The typed line with every space turned into ':' and trailing
      whitespace dropped ("user pass\n" becomes "user:pass"). */
  function Credentials(line: seq<byte>): (r: seq<byte>)
    ensures |r| <= |line|
    ensures r == [] || !IsSpaceByte(r[|r| - 1])
  {
    var replaced := Replace(ToText(line), ' ', ':');
    var trimmed := TrimEnd(replaced);
    assert IsByteText(trimmed) by {
      assert forall i :: 0 <= i < |trimmed| ==> trimmed[i] == replaced[i];
    }
    TextBytes(trimmed)
  }

  /** The credentials are a prefix of the line with its spaces replaced by
      ':', and every byte dropped after them is whitespace other than a
      space. */
  lemma CredentialsBytes(line: seq<byte>)
    ensures var r := Credentials(line);
            (forall i :: 0 <= i < |r| ==> r[i] == if line[i] == 32 then 58 else line[i])
            && (forall i :: |r| <= i < |line| ==> IsSpaceByte(line[i]) && line[i] != 32)
  {
    var replaced := Replace(ToText(line), ' ', ':');
    var trimmed := TrimEnd(replaced);
    var r := Credentials(line);
    assert ToText(r) == trimmed;
    assert forall i :: 0 <= i < |r| ==> r[i] as int == trimmed[i] as int == replaced[i] as int;
    forall i | |r| <= i < |line| ensures IsSpaceByte(line[i]) && line[i] != 32 {
      assert IsSpace(replaced[i]);
      assert ToText(line)[i] as int == line[i] as int;
    }
  }

  /** The scheme of a challenge: the first space-separated word of the
      first parameter of WWW-Authenticate. */
  function Challenge(headers: HeaderMap): (r: Option<string>)
    requires WellFormed(headers)
    ensures r.Some? <==> "WWW-Authenticate" in headers
    ensures r.Some? ==> ' ' !in r.value
  {
    if "WWW-Authenticate" in headers then Some(Split(headers["WWW-Authenticate"][0][0], {' '})[0]) else None
  }

  /** The Authorization header sent after a challenge (section 2 of RFC
      7617). */
  function AuthHeader(scheme: string, line: seq<byte>): (r: string)
    ensures ValidAuth(r) && r != ""
  {
    AUTH_PREFIX + scheme + " " + Base64.Encode(Credentials(line))
  }

  /** The header is the prefix, the scheme and a space, followed by text
      that decodes as Base64 to the credentials. */
  lemma AuthHeaderDecodes(scheme: string, line: seq<byte>)
    ensures var r, n := AuthHeader(scheme, line), |AUTH_PREFIX| + |scheme| + 1;
            n <= |r| && r[..n] == AUTH_PREFIX + scheme + " "
            && Base64.Decode(r[n..]) == Some(Credentials(line))
  {
    var head := AUTH_PREFIX + scheme + " ";
    var e := Base64.Encode(Credentials(line));
    Base64.RoundTrip(Credentials(line));
    assert AuthHeader(scheme, line) == head + e;
    assert (head + e)[..|head|] == head;
    assert (head + e)[|head|..] == e;
  }

  /** `u` is three '/'-free parts, each followed by '/', then `p`. */
  predicate ThirdSlashSplits(u: string, a: string, b: string, c: string, p: string)
  {
    u == a + ['/'] + (b + ['/'] + (c + ['/'] + p)) && '/' !in a && '/' !in b && '/' !in c
  }

  /** The new path of a Refresh header: the text after the third '/' of its
      second parameter's value (`[1][1]`). */
  function RedirectPath(value: HeaderValue): (r: Option<string>)
    ensures r.Some? ==> |value| >= 2 && |value[1]| >= 2
  {
    if |value| < 2 || |value[1]| < 2 then None
    else
      var parts := SplitN(value[1][1], '/', 4);
      if |parts| < 4 then None else Some(parts[3])
  }

  /** One step of a split into at most `n` pieces at a known first '/'. */
  lemma SplitNStep(s: string, a: string, b: string, n: nat)
    requires n >= 2 && s == a + ['/'] + b && '/' !in a
    ensures SplitN(s, '/', n) == [a] + SplitN(b, '/', n - 1)
  {
    SplitOnceUnique(s, '/', a, b);
  }

  /** Joining four pieces puts a '/' between each. */
  lemma JoinFour(parts: seq<string>)
    requires |parts| == 4
    ensures Join(parts, '/') == parts[0] + ['/'] + (parts[1] + ['/'] + (parts[2] + ['/'] + parts[3]))
  {
    assert parts[1..][1..] == parts[2..];
    assert parts[2..][1..] == [parts[3]];
    assert Join(parts[2..], '/') == parts[2] + ['/'] + parts[3];
  }

  /** Four pieces of a split on '/' are three '/'-free parts and the rest. */
  lemma FourPieces(u: string)
    requires |SplitN(u, '/', 4)| == 4
    ensures var parts := SplitN(u, '/', 4);
            ThirdSlashSplits(u, parts[0], parts[1], parts[2], parts[3])
  {
    var parts := SplitN(u, '/', 4);
    JoinFour(parts);
  }

  /** A string cut at its first three '/' splits into exactly those parts. */
  lemma PiecesOfThirdSlash(u: string, a: string, b: string, c: string, p: string)
    requires ThirdSlashSplits(u, a, b, c, p)
    ensures SplitN(u, '/', 4) == [a, b, c, p]
  {
    var t2 := c + ['/'] + p;
    var t1 := b + ['/'] + t2;
    SplitNStep(t2, c, p, 2);
    assert SplitN(p, '/', 1) == [p];
    assert SplitN(t2, '/', 2) == [c, p];
    SplitNStep(t1, b, t2, 3);
    assert SplitN(t1, '/', 3) == [b, c, p];
    SplitNStep(u, a, t1, 4);
  }

  /** A redirect path is found exactly when the URL has three '/', and it is
      what follows the third. */
  lemma RedirectAfterThirdSlash(value: HeaderValue)
    requires |value| >= 2 && |value[1]| >= 2
    ensures RedirectPath(value).Some? ==>
      exists a, b, c :: ThirdSlashSplits(value[1][1], a, b, c, RedirectPath(value).value)
    ensures forall a, b, c, p :: ThirdSlashSplits(value[1][1], a, b, c, p) ==> RedirectPath(value) == Some(p)
  {
    var u := value[1][1];
    if |SplitN(u, '/', 4)| == 4 {
      FourPieces(u);
    }
    forall a, b, c, p | ThirdSlashSplits(u, a, b, c, p)
      ensures RedirectPath(value) == Some(p)
    {
      PiecesOfThirdSlash(u, a, b, c, p);
    }
  }

  /** What the loop has in hand after one connection: nothing (the
      connection failed), or the parser's verdict on the reply. */
  datatype Answer = Lost | Got(response: Result<Response>)

  /** Answers as the parser produces them: a parsed header map is well
      formed. */
  type Parsed = a: Answer | a.Got? && a.response.Ok? ==> WellFormed(a.response.value.headers) witness Lost

  function AnswerOf(reply: Reply): Parsed
  {
    match reply
    case Unreachable => Lost
    case Answered(bytes) => Got(ParseResponse(bytes))
  }

  /** The answer to each reply, in order. */
  function Answers(replies: seq<Reply>): (r: seq<Parsed>)
    ensures |r| == |replies|
  {
    seq(|replies|, k requires 0 <= k < |replies| => AnswerOf(replies[k]))
  }

  /** The answers to the later replies are the later answers. */
  lemma AnswersSuffix(replies: seq<Reply>, j: nat)
    requires j <= |replies|
    ensures Answers(replies[j..]) == Answers(replies)[j..]
  {
  }

  /** An answer is a parsable 401. */
  predicate IsChallenge(a: Answer)
  {
    a.Got? && a.response.Ok? && a.response.value.status.code == 401
  }

  /** What the loop decides after one request.  */
  datatype Step =
    | Stop(outcome: Outcome, auth: string, readInput: bool)
    | Again(next: Session, readInput: bool)

  /** One pass through the loop body once the request is sent and `auth`
      cleared: parse the reply, then 401 (read a line; a bare "\n" gives up,
      anything else becomes credentials), other codes of 400 and up, a
      Refresh header (new path), or success. `line` is what the user types
      if asked. */
  function Decide(s: Session, parsed: Result<Response>, line: seq<byte>): Step
    requires parsed.Ok? ==> WellFormed(parsed.value.headers)
  {
    match parsed
    case Err(e) => Stop(Crashed(e), s.auth, false)
    case Ok(resp) =>
      var code := resp.status.code;
      if code == 401 then
        var typed := ToText(line);
        if typed == "\n" then Stop(AuthDeclined, typed, true)
        else match Challenge(resp.headers)
          case None => Stop(Crashed(MissingChallenge), typed, true)
          case Some(scheme) => Again(s.(auth := AuthHeader(scheme, line)), true)
      else if code >= 400 then Stop(HttpError(code, resp.status.reason), s.auth, false)
      else if "Refresh" in resp.headers && |resp.headers["Refresh"]| > 0 then
        match RedirectPath(resp.headers["Refresh"])
        case None => Stop(Crashed(BadRefresh), s.auth, false)
        case Some(path) => Again(s.(urn := path), false)
      else if "Content-Type" !in resp.headers then Stop(Crashed(MissingContentType), s.auth, false)
      else Stop(Loaded(Target(s.url, s.port, s.urn), resp.headers["Content-Type"][0][0], resp.headers, resp.body), s.auth, false)
  }

  /** A decision never moves to another host or port, and a new `auth` is
      one Authorization header, set only after a 401 and keeping the path. */
  lemma DecideKeepsHost(s: Session, parsed: Result<Response>, line: seq<byte>)
    requires parsed.Ok? ==> WellFormed(parsed.value.headers)
    ensures var r := Decide(s, parsed, line);
            r.Again? ==>
              r.next.url == s.url && r.next.port == s.port
              && (r.next.auth == s.auth || (r.readInput && ValidAuth(r.next.auth) && r.next.urn == s.urn))
              && (r.readInput || r.next.auth == s.auth)
  {
    match parsed
    case Err(_) =>
    case Ok(resp) =>
      if resp.status.code == 401 && ToText(line) != "\n" {
        match Challenge(resp.headers)
        case None =>
        case Some(scheme) =>
          assert ValidAuth(AuthHeader(scheme, line));
      }
  }

  /** Input is read only for a parsable 401; a stop without reading keeps
      `auth`; declining leaves "\n" behind. */
  lemma DecideReadsOnChallenge(s: Session, parsed: Result<Response>, line: seq<byte>)
    requires parsed.Ok? ==> WellFormed(parsed.value.headers)
    ensures var r := Decide(s, parsed, line);
            (r.readInput ==> parsed.Ok? && parsed.value.status.code == 401)
            && (r.Stop? && !r.readInput ==> r.auth == s.auth)
            && (r.Stop? && r.outcome == AuthDeclined ==> r.auth == "\n" && ToText(line) == "\n")
  {
  }

  /** A page is loaded only from a success code without a Refresh header,
      from the session's own host, port and path; an error outcome carries a
      code of 400 and up other than 401. */
  lemma DecideLoadsOnSuccess(s: Session, parsed: Result<Response>, line: seq<byte>)
    requires parsed.Ok? ==> WellFormed(parsed.value.headers)
    ensures var r := Decide(s, parsed, line);
            (r.Stop? && r.outcome.Loaded? ==>
              r.outcome.target == Target(s.url, s.port, s.urn)
              && parsed.Ok? && parsed.value.status.code < 400
              && "Refresh" !in parsed.value.headers
              && r.outcome.headers == parsed.value.headers && r.outcome.body == parsed.value.body)
            && (r.Stop? && r.outcome.HttpError? ==> 400 <= r.outcome.code != 401)
  {
    match parsed
    case Err(_) =>
    case Ok(resp) =>
      if "Refresh" in resp.headers {
        assert WellFormedValue(resp.headers["Refresh"]);
      }
  }

  /** The line the user would type next; an exhausted input reads as end of
      file, which leaves the buffer empty. */
  function NextLine(inputs: seq<seq<byte>>): seq<byte>
  {
    if |inputs| > 0 then inputs[0] else []
  }

  /** The request loop from session `s`: one reply per request, one input
      line per 401. */
  function Run(s: Session, answers: seq<Parsed>, inputs: seq<seq<byte>>): (t: Trace)
    ensures |t.sent| <= t.replies <= |answers| && t.inputs <= |inputs|
    ensures |t.sent| > 0 ==> t.sent[0] == s
    decreases |answers|
  {
    if |answers| == 0 then Trace([], OutOfReplies, s.auth, 0, 0)
    else match answers[0]
      case Lost => Trace([], IoFailed, s.auth, 1, 0)
      case Got(parsed) =>
        var step := Decide(s.(auth := ""), parsed, NextLine(inputs));
        var used := if step.readInput && |inputs| > 0 then 1 else 0;
        match step
        case Stop(o, auth, _) => Trace([s], o, auth, 1, used)
        case Again(next, _) =>
          var t := Run(next, answers[1..], inputs[used..]);
          Trace([s] + t.sent, t.outcome, t.auth, 1 + t.replies, used + t.inputs)
  }

  /** Every request of a fetch goes to the host and port it started from,
      and so does a loaded page. */
  lemma {:induction false} RunKeepsHost(s: Session, answers: seq<Parsed>, inputs: seq<seq<byte>>)
    ensures var t := Run(s, answers, inputs);
            (forall k :: 0 <= k < |t.sent| ==> t.sent[k].url == s.url && t.sent[k].port == s.port)
            && (t.outcome.Loaded? ==> t.outcome.target.url == s.url && t.outcome.target.port == s.port)
    decreases |answers|
  {
    if |answers| > 0 && answers[0].Got? {
      var parsed := answers[0].response;
      var step := Decide(s.(auth := ""), parsed, NextLine(inputs));
      DecideKeepsHost(s.(auth := ""), parsed, NextLine(inputs));
      DecideLoadsOnSuccess(s.(auth := ""), parsed, NextLine(inputs));
      if step.Again? {
        var used := if step.readInput && |inputs| > 0 then 1 else 0;
        RunKeepsHost(step.next, answers[1..], inputs[used..]);
      }
    }
  }

  /** Every session of the list has a valid `auth`. */
  predicate AllValid(sent: seq<Session>)
  {
    forall k :: 0 <= k < |sent| ==> ValidAuth(sent[k].auth)
  }

  lemma AllValidCons(s: Session, rest: seq<Session>)
    requires ValidAuth(s.auth) && AllValid(rest)
    ensures AllValid([s] + rest)
  {
    assert forall k :: 0 < k < |[s] + rest| ==> ([s] + rest)[k] == rest[k - 1];
  }

  /** Starting from a valid `auth`, every request carries no Authorization
      header or exactly one at its start. */
  lemma {:induction false} RunSendsValidAuth(s: Session, answers: seq<Parsed>, inputs: seq<seq<byte>>)
    requires ValidAuth(s.auth)
    ensures AllValid(Run(s, answers, inputs).sent)
    decreases |answers|
  {
    var t := Run(s, answers, inputs);
    if |answers| > 0 && answers[0].Got? {
      var parsed := answers[0].response;
      var step := Decide(s.(auth := ""), parsed, NextLine(inputs));
      if step.Again? {
        DecideKeepsHost(s.(auth := ""), parsed, NextLine(inputs));
        assert ValidAuth(step.next.auth);
        var used := if step.readInput && |inputs| > 0 then 1 else 0;
        var rest := Run(step.next, answers[1..], inputs[used..]);
        RunSendsValidAuth(step.next, answers[1..], inputs[used..]);
        AllValidCons(s, rest.sent);
        assert t.sent == [s] + rest.sent;
      }
    }
  }

  /** Each request after the first that carries credentials follows a 401
      answer and repeats the previous path. */
  predicate CredentialsFollowChallenges(sent: seq<Session>, answers: seq<Parsed>)
  {
    forall k :: 0 < k < |sent| && sent[k].auth != "" ==>
      k - 1 < |answers| && IsChallenge(answers[k - 1]) && sent[k].urn == sent[k - 1].urn
  }

  lemma CredentialsCons(s: Session, rest: seq<Session>, answers: seq<Parsed>)
    requires |answers| > 0 && CredentialsFollowChallenges(rest, answers[1..])
    requires |rest| > 0 && rest[0].auth != "" ==> IsChallenge(answers[0]) && rest[0].urn == s.urn
    ensures CredentialsFollowChallenges([s] + rest, answers)
  {
    var sent := [s] + rest;
    forall k | 0 < k < |sent| && sent[k].auth != ""
      ensures k - 1 < |answers| && IsChallenge(answers[k - 1]) && sent[k].urn == sent[k - 1].urn
    {
      assert sent[k] == rest[k - 1];
      if k > 1 {
        assert sent[k - 1] == rest[k - 2];
        assert answers[1..][k - 2] == answers[k - 1];
      }
    }
  }

  /** Credentials are sent only on the request right after a 401, to the
      same path; every other retry goes without them. */
  lemma {:induction false} CredentialsOnlyAfterChallenge(s: Session, answers: seq<Parsed>, inputs: seq<seq<byte>>)
    ensures CredentialsFollowChallenges(Run(s, answers, inputs).sent, answers)
    decreases |answers|
  {
    var t := Run(s, answers, inputs);
    if |answers| > 0 && answers[0].Got? {
      var parsed := answers[0].response;
      var step := Decide(s.(auth := ""), parsed, NextLine(inputs));
      if step.Again? {
        DecideKeepsHost(s.(auth := ""), parsed, NextLine(inputs));
        DecideReadsOnChallenge(s.(auth := ""), parsed, NextLine(inputs));
        var used := if step.readInput && |inputs| > 0 then 1 else 0;
        var rest := Run(step.next, answers[1..], inputs[used..]);
        CredentialsOnlyAfterChallenge(step.next, answers[1..], inputs[used..]);
        CredentialsCons(s, rest.sent, answers);
        assert t.sent == [s] + rest.sent;
      }
    }
  }

  /** A 401 answered with an empty line ends the fetch after that one
      request, leaving "\n" in `auth`. */
  lemma DeclinedChallengeStops(s: Session, answers: seq<Parsed>, inputs: seq<seq<byte>>)
    requires |answers| > 0 && IsChallenge(answers[0])
    requires |inputs| > 0 && ToText(inputs[0]) == "\n"
    ensures Run(s, answers, inputs) == Trace([s], AuthDeclined, "\n", 1, 1)
  {
  }

  /** A 401 answered with a line other than "\n" when the challenge names a
      scheme: the request is repeated with that scheme and the line's
      credentials, and the loop goes on with the remaining replies and
      lines. */
  lemma RunAnswersChallenge(s: Session, answers: seq<Parsed>, inputs: seq<seq<byte>>, resp: Response, scheme: string)
    requires |answers| > 0 && answers[0] == Got(Ok(resp)) && resp.status.code == 401
    requires |inputs| > 0 && ToText(inputs[0]) != "\n" && Challenge(resp.headers) == Some(scheme)
    ensures var t := Run(s.(auth := AuthHeader(scheme, inputs[0])), answers[1..], inputs[1..]);
            Run(s, answers, inputs) == Trace([s] + t.sent, t.outcome, t.auth, 1 + t.replies, 1 + t.inputs)
  {
    DecideOnChallenge(s.(auth := ""), resp, inputs[0], scheme);
    RunAgain(s, answers, inputs, Ok(resp), s.(auth := AuthHeader(scheme, inputs[0])), true, 1);
  }

  /** The decision on such a 401: ask again with the credentials. */
  lemma DecideOnChallenge(s: Session, resp: Response, line: seq<byte>, scheme: string)
    requires WellFormed(resp.headers) && resp.status.code == 401
    requires ToText(line) != "\n" && Challenge(resp.headers) == Some(scheme)
    ensures Decide(s, Ok(resp), line) == Again(s.(auth := AuthHeader(scheme, line)), true)
  {
  }

  /** The loop after a decision to ask again goes on from the new session
      with the remaining replies and input lines. */
  lemma RunAgain(s: Session, answers: seq<Parsed>, inputs: seq<seq<byte>>, parsed: Result<Response>,
                 next: Session, readInput: bool, used: nat)
    requires |answers| > 0 && answers[0] == Got(parsed)
    requires Decide(s.(auth := ""), parsed, NextLine(inputs)) == Again(next, readInput)
    requires used == if readInput && |inputs| > 0 then 1 else 0
    ensures used <= |inputs|
    ensures var t := Run(next, answers[1..], inputs[used..]);
            Run(s, answers, inputs) == Trace([s] + t.sent, t.outcome, t.auth, 1 + t.replies, used + t.inputs)
  {
  }

  /** A status of 400 and up other than 401 ends the fetch after that one
      request with the code and reason. */
  lemma RunStopsOnError(s: Session, answers: seq<Parsed>, inputs: seq<seq<byte>>, resp: Response)
    requires |answers| > 0 && answers[0] == Got(Ok(resp))
    requires 400 <= resp.status.code != 401
    ensures Run(s, answers, inputs) == Trace([s], HttpError(resp.status.code, resp.status.reason), "", 1, 0)
  {
  }

  /** A status below 400 with a Refresh header whose value has a third '/'
      repeats the request on the same host and port with the path after it,
      without credentials. */
  lemma RunFollowsRefresh(s: Session, answers: seq<Parsed>, inputs: seq<seq<byte>>, resp: Response, path: string)
    requires |answers| > 0 && answers[0] == Got(Ok(resp)) && resp.status.code < 400
    requires "Refresh" in resp.headers && |resp.headers["Refresh"]| > 0
    requires RedirectPath(resp.headers["Refresh"]) == Some(path)
    ensures var t := Run(Session(s.url, s.port, path, ""), answers[1..], inputs);
            Run(s, answers, inputs) == Trace([s] + t.sent, t.outcome, t.auth, 1 + t.replies, t.inputs)
  {
    var next := Session(s.url, s.port, path, "");
    DecideOnRefresh(s.(auth := ""), resp, NextLine(inputs), path);
    assert s.(auth := "").(urn := path) == next;
    RunAgain(s, answers, inputs, Ok(resp), next, false, 0);
    assert inputs[0..] == inputs;
  }

  /** The decision on such an answer: ask again for the new path. */
  lemma DecideOnRefresh(s: Session, resp: Response, line: seq<byte>, path: string)
    requires WellFormed(resp.headers) && resp.status.code < 400
    requires "Refresh" in resp.headers && |resp.headers["Refresh"]| > 0
    requires RedirectPath(resp.headers["Refresh"]) == Some(path)
    ensures Decide(s, Ok(resp), line) == Again(s.(urn := path), false)
  {
  }

  /** A status below 400 without a Refresh value loads the page from the
      session's own target after that one request, provided it names a
      Content-Type. */
  lemma RunLoadsWithoutRefresh(s: Session, answers: seq<Parsed>, inputs: seq<seq<byte>>, resp: Response)
    requires |answers| > 0 && answers[0] == Got(Ok(resp)) && resp.status.code < 400
    requires "Refresh" !in resp.headers || |resp.headers["Refresh"]| == 0
    ensures var h := resp.headers;
            Run(s, answers, inputs) ==
              if "Content-Type" in h then
                Trace([s], Loaded(Target(s.url, s.port, s.urn), h["Content-Type"][0][0], h, resp.body), "", 1, 0)
              else Trace([s], Crashed(MissingContentType), "", 1, 0)
  {
  }

  /** The `auth` left behind is "\n" only when the user declined. */
  lemma LeftoverAuth(s: Session, answers: seq<Parsed>, inputs: seq<seq<byte>>)
    requires ValidAuth(s.auth)
    ensures var t := Run(s, answers, inputs);
            t.outcome != AuthDeclined && !t.outcome.Crashed? ==> ValidAuth(t.auth)
    decreases |answers|
  {
    if |answers| > 0 && answers[0].Got? {
      var parsed := answers[0].response;
      var step := Decide(s.(auth := ""), parsed, NextLine(inputs));
      DecideKeepsHost(s.(auth := ""), parsed, NextLine(inputs));
      DecideReadsOnChallenge(s.(auth := ""), parsed, NextLine(inputs));
      if step.Again? {
        var used := if step.readInput && |inputs| > 0 then 1 else 0;
        LeftoverAuth(step.next, answers[1..], inputs[used..]);
      }
    }
  }

  /** `t` after `sent` requests, `replies` replies and `inputs` lines. */
  function Extend(sent: seq<Session>, replies: nat, inputs: nat, t: Trace): Trace
  {
    Trace(sent + t.sent, t.outcome, t.auth, replies + t.replies, inputs + t.inputs)
  }

  /** One reply handled: parse it, then on 401 take the typed line (a bare
      "\n" gives up, otherwise the challenge's scheme and the credentials make
      the next `auth`), stop on other codes of 400 and up, follow a Refresh
      header, or take the content type. `s.auth` is already cleared. */
  method Respond(s: Session, bytes: seq<byte>, line: seq<byte>) returns (step: Step)
    ensures step == Decide(s, ParseResponse(bytes), line)
  {
    var parsed := ReadResponse(bytes);
    if parsed.Err? {
      return Stop(Crashed(parsed.error), s.auth, false);
    }
    var response := parsed.value;
    var code := response.status.code;
    if code == 401 {
      var auth := ToText(line);
      if auth == "\n" {
        return Stop(AuthDeclined, auth, true);
      }
      if "WWW-Authenticate" !in response.headers {
        return Stop(Crashed(MissingChallenge), auth, true);
      }
      var scheme := Split(response.headers["WWW-Authenticate"][0][0], {' '})[0];
      auth := AUTH_PREFIX + scheme + " " + Base64.Encode(Credentials(line));
      return Again(s.(auth := auth), true);
    }
    if code >= 400 {
      return Stop(HttpError(code, response.status.reason), s.auth, false);
    }
    var refresh := if "Refresh" in response.headers then response.headers["Refresh"] else [];
    if |refresh| > 0 {
      var path := RedirectPath(refresh);
      if path.None? {
        return Stop(Crashed(BadRefresh), s.auth, false);
      }
      return Again(s.(urn := path.value), false);
    }
    if "Content-Type" !in response.headers {
      return Stop(Crashed(MissingContentType), s.auth, false);
    }
    var mime := response.headers["Content-Type"][0][0];
    return Stop(Loaded(Target(s.url, s.port, s.urn), mime, response.headers, response.body), s.auth, false);
  }

  /** `Run` after an answered first reply. */
  lemma RunAnswered(s: Session, answers: seq<Parsed>, inputs: seq<seq<byte>>)
    requires |answers| > 0 && answers[0].Got?
    ensures var step := Decide(s.(auth := ""), answers[0].response, NextLine(inputs));
            var used := if step.readInput && |inputs| > 0 then 1 else 0;
            Run(s, answers, inputs) == match step
              case Stop(o, a, _) => Trace([s], o, a, 1, used)
              case Again(next, _) => Extend([s], 1, used, Run(next, answers[1..], inputs[used..]))
  {
  }

  /** Extending by one request and then by the rest is one extension. */
  lemma ExtendTwice(sent: seq<Session>, replies: nat, inputs: nat, s: Session, used: nat, t: Trace)
    ensures Extend(sent, replies, inputs, Extend([s], 1, used, t))
         == Extend(sent + [s], replies + 1, inputs + used, t)
  {
    assert sent + ([s] + t.sent) == sent + [s] + t.sent;
  }

  /** Build and send the request of `current`. */
  method Send(sent: seq<Session>, requests: seq<string>, current: Session)
    returns (sent': seq<Session>, requests': seq<string>)
    requires requests == Requests(sent)
    ensures sent' == sent + [current] && requests' == Requests(sent')
  {
    var request := Request(current);
    RequestsSnoc(sent, current);
    sent', requests' := sent + [current], requests + [request];
  }

  /** Where the loop stands after an answered reply: it has stopped with the
      whole trace, or it goes on from the next session. */
  lemma Resume(sent: seq<Session>, done: nat, read: nat, s: Session,
               answers: seq<Parsed>, inputs: seq<seq<byte>>, total: Trace)
    requires done < |answers| && answers[done].Got? && read <= |inputs|
    requires Extend(sent, done, read, Run(s, answers[done..], inputs[read..])) == total
    ensures var step := Decide(s.(auth := ""), answers[done].response, NextLine(inputs[read..]));
            var used := if step.readInput && read < |inputs| then 1 else 0;
            match step
            case Stop(o, a, _) => Trace(sent + [s], o, a, done + 1, read + used) == total
            case Again(next, _) =>
              Extend(sent + [s], done + 1, read + used, Run(next, answers[done + 1..], inputs[read + used..])) == total
  {
    var rest, lines := answers[done..], inputs[read..];
    RunAnswered(s, rest, lines);
    assert rest[1..] == answers[done + 1..];
    var step := Decide(s.(auth := ""), answers[done].response, NextLine(lines));
    var used := if step.readInput && read < |inputs| then 1 else 0;
    assert lines[used..] == inputs[read + used..];
    if step.Again? {
      ExtendTwice(sent, done, read, s, used, Run(step.next, answers[done + 1..], inputs[read + used..]));
    }
  }

  /** One connection that was answered: send the request built from
      `current`, handle the reply, and read a line if it was a 401. */
  method Turn(ghost total: Trace, ghost answers: seq<Parsed>,
              sent: seq<Session>, requests: seq<string>, done: nat, read: nat,
              current: Session, replies: seq<Reply>, inputs: seq<seq<byte>>)
    returns (sent': seq<Session>, requests': seq<string>, read': nat, step: Step)
    requires answers == Answers(replies)
    requires done < |replies| && replies[done].Answered? && read <= |inputs|
    requires requests == Requests(sent)
    requires Extend(sent, done, read, Run(current, answers[done..], inputs[read..])) == total
    ensures requests' == Requests(sent') && read' <= |inputs|
    ensures step.Stop? ==> Trace(sent', step.outcome, step.auth, done + 1, read') == total
    ensures step.Again? ==>
      Extend(sent', done + 1, read', Run(step.next, answers[done + 1..], inputs[read'..])) == total
  {
    assert answers[done] == Got(ParseResponse(replies[done].bytes));
    Resume(sent, done, read, current, answers, inputs, total);
    sent', requests' := Send(sent, requests, current);
    var line := if read < |inputs| then inputs[read] else [];
    step := Respond(current.(auth := ""), replies[done].bytes, line);
    read' := if step.readInput && read < |inputs| then read + 1 else read;
  }

  /** The loop over connections: build the request, clear `auth`, handle
      the reply, then retry, follow or stop. */
  method Fetch(target: Target, carried: string, replies: seq<Reply>, inputs: seq<seq<byte>>)
    returns (sent: seq<Session>, requests: seq<string>, outcome: Outcome, auth: string,
             usedReplies: nat, usedInputs: nat)
    ensures Trace(sent, outcome, auth, usedReplies, usedInputs)
         == Run(Session(target.url, target.port, target.urn, carried), Answers(replies), inputs)
    ensures requests == Requests(sent)
  {
    var url, port, urn := target.url, target.port, target.urn;
    auth := carried;
    sent, requests := [], [];
    usedReplies, usedInputs := 0, 0;
    ghost var answers := Answers(replies);
    ghost var total := Run(Session(url, port, urn, carried), answers, inputs);
    assert answers[0..] == answers && inputs[0..] == inputs;
    while usedReplies < |replies|
      invariant usedReplies <= |replies| && usedInputs <= |inputs|
      invariant requests == Requests(sent)
      invariant Extend(sent, usedReplies, usedInputs,
                  Run(Session(url, port, urn, auth), answers[usedReplies..], inputs[usedInputs..])) == total
      decreases |replies| - usedReplies
    {
      var current := Session(url, port, urn, auth);
      if replies[usedReplies].Unreachable? {
        assert answers[usedReplies..][0] == Lost;
        outcome := IoFailed;
        usedReplies := usedReplies + 1;
        return;
      }
      var step;
      sent, requests, usedInputs, step :=
        Turn(total, answers, sent, requests, usedReplies, usedInputs, current, replies, inputs);
      usedReplies := usedReplies + 1;
      match step {
        case Stop(o, a, _) =>
          outcome, auth := o, a;
          return;
        case Again(next, _) =>
          url, port, urn, auth := next.url, next.port, next.urn, next.auth;
      }
    }
    outcome := OutOfReplies;
  }
}
