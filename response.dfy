/** Cutting a raw HTTP/1.0 response into status line, header block and body
    (section 4.1 of RFC 1945), and parsing the status line and the header
    fields the way the client does. */
module Response {
  import opened Basics
  import opened Text
  import opened Numbers
  import opened Search

  const CRLF: seq<byte> := [13, 10]
  const CRLFCRLF: seq<byte> := [13, 10, 13, 10]
  const LF: byte := 10

  /** The three byte ranges of a response. */
  datatype RawResponse = RawResponse(statusLine: seq<byte>, headerBlock: seq<byte>, body: seq<byte>)

  /** The status line runs up to and including the first CRLF, the header
      block from there up to and including the first CRLFCRLF, the body is
      the rest. A missing marker is an `unwrap` on `None`. */
  function SplitResponse(h: seq<byte>): (r: Result<RawResponse>)
    ensures r.Ok? ==> r.value.statusLine + r.value.headerBlock + r.value.body == h
    ensures r.Ok? ==> |r.value.statusLine| >= 2
                      && FindSubsequence(h, CRLF) == Some(|r.value.statusLine| - 2)
    ensures r.Ok? ==> |r.value.statusLine| + |r.value.headerBlock| >= 4
                      && FindSubsequence(h, CRLFCRLF) == Some(|r.value.statusLine| + |r.value.headerBlock| - 4)
    ensures r.Ok? ==> |r.value.headerBlock| >= 2
                      && r.value.headerBlock[|r.value.headerBlock| - 2..] == CRLF
    ensures r.Err? <==> FindSubsequence(h, CRLFCRLF).None?
    ensures r == Err(NoStatusLineEnd) <==> FindSubsequence(h, CRLF).None?
  {
    ResponseMarkers(h);
    CutResponse(h, FindSubsequence(h, CRLF), FindSubsequence(h, CRLFCRLF))
  }

  /** The two markers of a response are consistent: there is no CRLFCRLF
      without a CRLF, and the first CRLF ends no later than the first CRLFCRLF
      starts plus two. */
  predicate Markers(h: seq<byte>, line: Option<nat>, head: Option<nat>)
  {
    (line.None? ==> head.None?)
    && (line.Some? && head.Some? ==>
          line.value <= head.value && head.value + 4 <= |h|
          && h[line.value + 2..head.value + 4][head.value - line.value..] == CRLF)
  }

  /** The cut at the two marker positions `line` (first CRLF) and `head`
      (first CRLFCRLF). */
  function CutResponse(h: seq<byte>, line: Option<nat>, head: Option<nat>): (r: Result<RawResponse>)
    requires Markers(h, line, head)
    ensures r.Ok? ==> r.value.statusLine + r.value.headerBlock + r.value.body == h
    ensures r.Ok? ==> |r.value.statusLine| >= 2 && line == Some(|r.value.statusLine| - 2)
    ensures r.Ok? ==> |r.value.statusLine| + |r.value.headerBlock| >= 4
                      && head == Some(|r.value.statusLine| + |r.value.headerBlock| - 4)
    ensures r.Ok? ==> |r.value.headerBlock| >= 2
                      && r.value.headerBlock[|r.value.headerBlock| - 2..] == CRLF
    ensures r.Err? <==> head.None?
    ensures r == Err(NoStatusLineEnd) <==> line.None?
  {
    if line.None? then Err(NoStatusLineEnd)
    else if head.None? then Err(NoHeaderEnd)
    else Ok(Cut(h, line.value + 2, head.value + 4))
  }

  /** The three ranges of `h` cut at `a` and `b`. */
  function Cut(h: seq<byte>, a: nat, b: nat): (r: RawResponse)
    requires 2 <= a <= b - 2 && b <= |h|
    ensures r.statusLine + r.headerBlock + r.body == h
    ensures |r.statusLine| == a && |r.headerBlock| == b - a
    ensures r.headerBlock[b - a - 2..] == h[b - 4..b][2..]
  {
    ThreeCuts(h, a, b);
    RawResponse(h[..a], h[a..b], h[b..])
  }

  /** The markers `find_subsequence` finds are consistent. */
  lemma ResponseMarkers(h: seq<byte>)
    ensures Markers(h, FindSubsequence(h, CRLF), FindSubsequence(h, CRLFCRLF))
  {
    if FindSubsequence(h, CRLFCRLF).Some? {
      PrefixFoundFirst(h, CRLF, CRLFCRLF);
      var j := FindSubsequence(h, CRLFCRLF).value;
      var i := FindSubsequence(h, CRLF).value;
      ThreeCuts(h, i + 2, j + 4);
      assert h[j..j + 4] == CRLFCRLF;
    }
  }

  /** Cutting a sequence twice and gluing the three pieces gives it back; the
      middle piece ends with the last two elements before the second cut. */
  lemma ThreeCuts<T>(h: seq<T>, a: nat, b: nat)
    requires 2 <= a <= b - 2 && b <= |h|
    ensures h[..a] + h[a..b] + h[b..] == h
    ensures h[a..b][b - a - 2..] == h[b - 4..b][2..]
  {
  }

  /** The body with one trailing line feed dropped, if there is one. */
  function TrimBody(body: seq<byte>): (r: seq<byte>)
    ensures r <= body && |body| - |r| <= 1
    ensures |r| < |body| <==> (|body| > 0 && body[|body| - 1] == LF)
  {
    if |body| > 0 && body[|body| - 1] == LF then body[..|body| - 1] else body
  }

  /** The three fields of a status line. */
  datatype StatusLine = StatusLine(version: string, code: nat, reason: string)

  /** `splitn(3, ' ')` with every piece end-trimmed; the second piece must
      parse as a `usize` and a third piece must exist. */
  function ParseStatusLine(line: string): (r: Result<StatusLine>)
    ensures r.Ok? ==> r.value.code < USIZE_BOUND
    ensures r.Ok? ==> ' ' !in r.value.version
  {
    var parts := SplitN(line, ' ', 3);
    var fields := seq(|parts|, k requires 0 <= k < |parts| => TrimEnd(parts[k]));
    if |fields| < 2 then Err(MissingStatusCode)
    else match ParseUsize(fields[1])
      case None => Err(BadStatusCode(fields[1]))
      case Some(code) =>
        if |fields| < 3 then Err(MissingReason)
        else Ok(StatusLine(fields[0], code, fields[2]))
  }

  /** `line` is a version, a space, a code, a space and the reason. */
  predicate StatusFields(line: string, v: string, c: string, rest: string)
  {
    line == v + [' '] + c + [' '] + rest && ' ' !in v && ' ' !in c
  }

  /** A status line parses exactly when it has two spaces and a numeric
      second field; the reason is the end-trimmed rest, spaces included. */
  lemma {:induction false} StatusLineFields(line: string, v: string, c: string, rest: string)
    requires StatusFields(line, v, c, rest)
    ensures ParseStatusLine(line) == match ParseUsize(TrimEnd(c))
      case None => Err(BadStatusCode(TrimEnd(c)))
      case Some(code) => Ok(StatusLine(TrimEnd(v), code, TrimEnd(rest)))
  {
    var tail := c + [' '] + rest;
    assert line == v + [' '] + tail;
    SplitOnceUnique(line, ' ', v, tail);
    assert tail == c + [' '] + rest;
    SplitOnceUnique(tail, ' ', c, rest);
    assert SplitN(tail, ' ', 2) == [c] + SplitN(rest, ' ', 1);
    assert SplitN(line, ' ', 3) == [v, c, rest];
  }

  /** Only a line with two spaces can parse, and then it has that shape. */
  lemma {:induction false} StatusLineShape(line: string)
    requires ParseStatusLine(line).Ok?
    ensures exists v, c, rest :: StatusFields(line, v, c, rest)
  {
    var parts := SplitN(line, ' ', 3);
    assert |parts| == 3;
    JoinThree(parts, ' ');
    assert StatusFields(line, parts[0], parts[1], parts[2]);
  }

  /** Three pieces joined with `c` between them. */
  lemma JoinThree(parts: seq<string>, c: char)
    requires |parts| == 3
    ensures Join(parts, c) == parts[0] + [c] + parts[1] + [c] + parts[2]
  {
    assert parts[1..][1..] == [parts[2]];
    assert Join(parts[1..], c) == parts[1] + [c] + parts[2];
  }

  /** A header value: its `;`-separated parameters, each split on `=`. */
  type HeaderValue = seq<seq<string>>

  /** Header names to values; a later line with the same name replaces
      the earlier entry. */
  type HeaderMap = map<string, HeaderValue>

  /** Every parameter list and every parameter has at least one element, as
      `str::split` always yields one piece. */
  predicate WellFormedValue(v: HeaderValue)
  {
    |v| >= 1 && forall k :: 0 <= k < |v| ==> |v[k]| >= 1
  }

  predicate WellFormed(m: HeaderMap)
  {
    forall name :: name in m ==> WellFormedValue(m[name])
  }

  /** `value.split(';')`, each segment trimmed and split on every `=`. */
  function Parameters(value: string): (r: HeaderValue)
    ensures WellFormedValue(r)
    ensures forall k, e :: 0 <= k < |r| && 0 <= e < |r[k]| ==> '=' !in r[k][e]
  {
    var segments := Split(value, {';'});
    var r := seq(|segments|, k requires 0 <= k < |segments| => Split(Trim(segments[k]), {'='}));
    assert forall k, e :: 0 <= k < |r| && 0 <= e < |r[k]| ==> Avoids(r[k][e], {'='});
    r
  }

  /** Each parameter list, glued back with `=`, is the trimmed segment it
      came from. */
  lemma ParametersRejoin(value: string)
    ensures |Parameters(value)| == |Split(value, {';'})|
    ensures forall k :: 0 <= k < |Parameters(value)| ==>
      Join(Parameters(value)[k], '=') == Trim(Split(value, {';'})[k])
  {
    var segments := Split(value, {';'});
    forall k | 0 <= k < |segments|
      ensures Join(Parameters(value)[k], '=') == Trim(segments[k])
    {
      SplitJoin(Trim(segments[k]), '=');
    }
  }

  /** One header line: the name is the text before the first space with
      trailing ':' removed, the value the parameters of the rest. A line
      without a space is an `unwrap` on `None`. */
  function ParseHeaderLine(line: string): (r: Result<(string, HeaderValue)>)
    ensures r.Err? <==> ' ' !in line
    ensures r.Err? ==> r.error == HeaderLineWithoutSpace(line)
    ensures r.Ok? ==> r.value.0 <= line && ' ' !in r.value.0
    ensures r.Ok? ==> r.value.0 == [] || r.value.0[|r.value.0| - 1] != ':'
    ensures r.Ok? ==> WellFormedValue(r.value.1)
  {
    match SplitOnce(line, ' ')
    case None => Err(HeaderLineWithoutSpace(line))
    case Some((before, rest)) =>
      var name := TrimEndMatches(before, ':');
      assert before <= line;
      Ok((name, Parameters(rest)))
  }

  /** The name and value of a line are fixed by its first space. */
  lemma HeaderLineParts(before: string, rest: string)
    requires ' ' !in before
    ensures ParseHeaderLine(before + " " + rest) == Ok((TrimEndMatches(before, ':'), Parameters(rest)))
  {
    SplitOnceUnique(before + " " + rest, ' ', before, rest);
  }

  /** The header loop: lines are inserted in order until the first empty
      line; a line without a space stops everything. */
  function HeadersFrom(acc: HeaderMap, lines: seq<string>): (r: Result<HeaderMap>)
    ensures WellFormed(acc) && r.Ok? ==> WellFormed(r.value)
    ensures r.Ok? ==> acc.Keys <= r.value.Keys
    ensures r.Err? ==> r.error.HeaderLineWithoutSpace?
    decreases |lines|
  {
    if |lines| == 0 || lines[0] == "" then Ok(acc)
    else match ParseHeaderLine(lines[0])
      case Err(e) => Err(e)
      case Ok((name, value)) => HeadersFrom(acc[name := value], lines[1..])
  }

  /** The headers of a header block. */
  function HeaderMapOf(block: string): (r: Result<HeaderMap>)
    ensures r.Ok? ==> WellFormed(r.value)
  {
    HeadersFrom(map[], Lines(block))
  }

  /** The lines before the first empty one. */
  function UpToBlank(lines: seq<string>): (r: seq<string>)
    ensures r <= lines
    ensures forall k :: 0 <= k < |r| ==> r[k] != ""
    ensures |r| < |lines| ==> lines[|r|] == ""
  {
    if |lines| == 0 || lines[0] == "" then [] else [lines[0]] + UpToBlank(lines[1..])
  }

  /** The value given by the last line in `lines` that names `name`. */
  function LastDefinition(lines: seq<string>, name: string): Option<HeaderValue>
  {
    if |lines| == 0 then None
    else match LastDefinition(lines[1..], name)
      case Some(v) => Some(v)
      case None =>
        match ParseHeaderLine(lines[0])
        case Ok((n, v)) => if n == name then Some(v) else None
        case Err(_) => None
  }

  function Lookup(m: HeaderMap, name: string): Option<HeaderValue>
  {
    if name in m then Some(m[name]) else None
  }

  /** `first` if it holds a value, else `fallback`. */
  function Otherwise(first: Option<HeaderValue>, fallback: Option<HeaderValue>): Option<HeaderValue>
  {
    if first.Some? then first else fallback
  }

  predicate AllHaveSpace(lines: seq<string>)
  {
    forall k :: 0 <= k < |lines| ==> ' ' in lines[k]
  }

  /** When every line before the blank one has a space, parsing succeeds and
      each name maps to the value of its last line (last write wins). */
  lemma {:induction false} HeadersLastWriteWins(acc: HeaderMap, lines: seq<string>)
    requires AllHaveSpace(UpToBlank(lines))
    ensures HeadersFrom(acc, lines).Ok?
    ensures forall name ::
              Lookup(HeadersFrom(acc, lines).value, name)
              == Otherwise(LastDefinition(UpToBlank(lines), name), Lookup(acc, name))
    decreases |lines|
  {
    if |lines| == 0 || lines[0] == "" {
    } else {
      var u := UpToBlank(lines[1..]);
      assert UpToBlank(lines) == [lines[0]] + u;
      assert ([lines[0]] + u)[1..] == u;
      assert ' ' in lines[0];
      var (n, v) := ParseHeaderLine(lines[0]).value;
      assert AllHaveSpace(u) by {
        forall k | 0 <= k < |u| ensures ' ' in u[k] {
          assert u[k] == UpToBlank(lines)[k + 1];
        }
      }
      HeadersLastWriteWins(acc[n := v], lines[1..]);
    }
  }

  /** Parsing fails exactly when a line before the blank one has no space. */
  lemma {:induction false} HeadersFailExactly(acc: HeaderMap, lines: seq<string>)
    ensures HeadersFrom(acc, lines).Err? <==> !AllHaveSpace(UpToBlank(lines))
    decreases |lines|
  {
    if |lines| == 0 || lines[0] == "" {
    } else {
      var u := UpToBlank(lines[1..]);
      assert UpToBlank(lines) == [lines[0]] + u;
      if ' ' in lines[0] {
        var (n, v) := ParseHeaderLine(lines[0]).value;
        HeadersFailExactly(acc[n := v], lines[1..]);
        if !AllHaveSpace(u) {
          var k :| 0 <= k < |u| && ' ' !in u[k];
          assert UpToBlank(lines)[k + 1] == u[k];
        }
        if !AllHaveSpace(UpToBlank(lines)) {
          var k :| 0 <= k < |UpToBlank(lines)| && ' ' !in UpToBlank(lines)[k];
          assert k > 0 && u[k - 1] == UpToBlank(lines)[k];
        }
      } else {
        assert ' ' !in UpToBlank(lines)[0];
      }
    }
  }

  /** The header loop as the client runs it: walk the lines of the block,
      stop at the first empty one, insert each parsed line into the map. */
  method ParseHeaders(block: string) returns (r: Result<HeaderMap>)
    ensures r == HeaderMapOf(block)
  {
    var lines := Lines(block);
    var headers: HeaderMap := map[];
    var k := 0;
    while k < |lines|
      invariant 0 <= k <= |lines|
      invariant HeadersFrom(headers, lines[k..]) == HeadersFrom(map[], lines)
    {
      if lines[k] == "" {
        break;
      }
      var parts := SplitOnce(lines[k], ' ');
      if parts.None? {
        return Err(HeaderLineWithoutSpace(lines[k]));
      }
      var (name, value) := parts.value;
      assert lines[k..][1..] == lines[k + 1..];
      headers := headers[TrimEndMatches(name, ':') := Parameters(value)];
      k := k + 1;
    }
    return Ok(headers);
  }

  /** A parsed response: status line, headers and the trimmed body. */
  datatype Response = Response(status: StatusLine, headers: HeaderMap, body: seq<byte>)

  /** The parser in the order the client runs it: split, headers, body,
      then the status code and reason. */
  function ParseResponse(h: seq<byte>): (r: Result<Response>)
    ensures r.Ok? ==> WellFormed(r.value.headers)
    ensures r.Ok? <==> SplitResponse(h).Ok?
                       && HeaderMapOf(ToText(SplitResponse(h).value.headerBlock)).Ok?
                       && ParseStatusLine(ToText(SplitResponse(h).value.statusLine)).Ok?
    ensures r.Ok? ==> r.value.headers == HeaderMapOf(ToText(SplitResponse(h).value.headerBlock)).value
                      && r.value.status == ParseStatusLine(ToText(SplitResponse(h).value.statusLine)).value
    ensures r.Ok? ==> exists j :: FindSubsequence(h, CRLFCRLF) == Some(j) && r.value.body == TrimBody(h[j + 4..])
  {
    match SplitResponse(h)
    case Err(e) => Err(e)
    case Ok(raw) =>
      match HeaderMapOf(ToText(raw.headerBlock))
      case Err(e) => Err(e)
      case Ok(headers) =>
        match ParseStatusLine(ToText(raw.statusLine))
        case Err(e) => Err(e)
        case Ok(status) =>
          ThirdPiece(raw.statusLine, raw.headerBlock, raw.body, h);
          Ok(Response(status, headers, TrimBody(raw.body)))
  }

  /** The last of three glued pieces is the rest after the first two. */
  lemma ThirdPiece<T>(a: seq<T>, b: seq<T>, c: seq<T>, h: seq<T>)
    requires a + b + c == h
    ensures c == h[|a| + |b|..]
  {
  }

  /** The parsing block of the request loop, with the header loop run as a
      loop. */
  method ReadResponse(h: seq<byte>) returns (r: Result<Response>)
    ensures r == ParseResponse(h)
  {
    var raw := SplitResponse(h);
    if raw.Err? {
      return Err(raw.error);
    }
    var headers := ParseHeaders(ToText(raw.value.headerBlock));
    if headers.Err? {
      return Err(headers.error);
    }
    var status := ParseStatusLine(ToText(raw.value.statusLine));
    if status.Err? {
      return Err(status.error);
    }
    return Ok(Response(status.value, headers.value, TrimBody(raw.value.body)));
  }
}
