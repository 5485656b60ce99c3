/** The `str` operations the client applies to status lines, header lines and
    command lines: trimming, splitting and line iteration. */
module Text {
  import opened Basics

  /** `char::is_whitespace` on ASCII: space, tab, LF, VT, FF, CR. */
  predicate IsSpace(c: char)
  {
    c == ' ' || '\t' <= c <= '\r'
  }

  /** `str::trim_end`: drops all trailing whitespace. */
  function TrimEnd(s: string): (r: string)
    ensures r <= s
    ensures r == [] || !IsSpace(r[|r| - 1])
    ensures forall i :: |r| <= i < |s| ==> IsSpace(s[i])
  {
    if |s| > 0 && IsSpace(s[|s| - 1]) then TrimEnd(s[..|s| - 1]) else s
  }

  /** `str::trim_start`: drops all leading whitespace. */
  function TrimStart(s: string): (r: string)
    ensures |r| <= |s| && r == s[|s| - |r|..]
    ensures r == [] || !IsSpace(r[0])
    ensures forall i :: 0 <= i < |s| - |r| ==> IsSpace(s[i])
  {
    if |s| > 0 && IsSpace(s[0]) then TrimStart(s[1..]) else s
  }

  /** `s` is whitespace, then `r` from index `k`, then whitespace. */
  predicate PaddedAt(s: string, r: string, k: int)
  {
    0 <= k <= |s| - |r| && r == s[k..k + |r|]
    && (forall i :: 0 <= i < k ==> IsSpace(s[i]))
    && (forall i :: k + |r| <= i < |s| ==> IsSpace(s[i]))
  }

  /** `str::trim`: `s` is whitespace, then `r`, then whitespace, and `r`
      neither starts nor ends with whitespace. */
  function Trim(s: string): (r: string)
    ensures r == [] || (!IsSpace(r[0]) && !IsSpace(r[|r| - 1]))
    ensures exists k :: PaddedAt(s, r, k)
  {
    TrimPadded(s);
    TrimEnd(TrimStart(s))
  }

  lemma TrimPadded(s: string)
    ensures PaddedAt(s, TrimEnd(TrimStart(s)), |s| - |TrimStart(s)|)
  {
    PaddedBetween(s, TrimStart(s), TrimEnd(TrimStart(s)));
  }

  /** Whitespace cut from the front of `s` leaving `t`, then from the back
      of `t` leaving `r`, leaves `r` padded in `s`. */
  lemma PaddedBetween(s: string, t: string, r: string)
    requires |t| <= |s| && t == s[|s| - |t|..]
    requires forall i :: 0 <= i < |s| - |t| ==> IsSpace(s[i])
    requires r <= t
    requires forall i :: |r| <= i < |t| ==> IsSpace(t[i])
    ensures PaddedAt(s, r, |s| - |t|)
  {
    var k := |s| - |t|;
    assert r == s[k..k + |r|];
    forall i | k + |r| <= i < |s| ensures IsSpace(s[i]) {
      assert s[i] == t[i - k];
    }
  }

  /** `str::trim_end_matches(c)`: drops every trailing `c`. */
  function TrimEndMatches(s: string, c: char): (r: string)
    ensures r <= s
    ensures r == [] || r[|r| - 1] != c
    ensures forall i :: |r| <= i < |s| ==> s[i] == c
  {
    if |s| > 0 && s[|s| - 1] == c then TrimEndMatches(s[..|s| - 1], c) else s
  }

  /** `str::trim_start_matches(c)`: drops every leading `c`. */
  function TrimStartMatches(s: string, c: char): (r: string)
    ensures |r| <= |s| && r == s[|s| - |r|..]
    ensures r == [] || r[0] != c
    ensures forall i :: 0 <= i < |s| - |r| ==> s[i] == c
  {
    if |s| > 0 && s[0] == c then TrimStartMatches(s[1..], c) else s
  }

  /** `s` is `c`s, then `r` from index `k`, then `c`s. */
  predicate PaddedWithAt(s: string, r: string, k: int, c: char)
  {
    0 <= k <= |s| - |r| && r == s[k..k + |r|]
    && (forall i :: 0 <= i < k ==> s[i] == c)
    && (forall i :: k + |r| <= i < |s| ==> s[i] == c)
  }

  /** `str::trim_matches(c)`: `s` is `c`s, then `r`, then `c`s, and `r`
      neither starts nor ends with `c`. */
  function TrimMatches(s: string, c: char): (r: string)
    ensures r == [] || (r[0] != c && r[|r| - 1] != c)
    ensures exists k :: PaddedWithAt(s, r, k, c)
  {
    MatchesPadded(s, c);
    TrimEndMatches(TrimStartMatches(s, c), c)
  }

  lemma MatchesPadded(s: string, c: char)
    ensures PaddedWithAt(s, TrimEndMatches(TrimStartMatches(s, c), c), |s| - |TrimStartMatches(s, c)|, c)
  {
    var t := TrimStartMatches(s, c);
    PaddedWithBetween(s, t, TrimEndMatches(t, c), c);
  }

  /** A suffix `t` after `c`s, and a prefix `r` of it before `c`s, leave `s`
      as `c`s, `r`, `c`s. */
  lemma PaddedWithBetween(s: string, t: string, r: string, c: char)
    requires |t| <= |s| && t == s[|s| - |t|..]
    requires forall i :: 0 <= i < |s| - |t| ==> s[i] == c
    requires r <= t && forall i :: |r| <= i < |t| ==> t[i] == c
    ensures PaddedWithAt(s, r, |s| - |t|, c)
  {
    var k := |s| - |t|;
    assert r == s[k..k + |r|];
    forall i | k + |r| <= i < |s| ensures s[i] == c {
      assert s[i] == t[i - k];
    }
  }

  /** `p` written `k` times. */
  function Repeat(p: string, k: nat): string
  {
    if k == 0 then [] else p + Repeat(p, k - 1)
  }

  lemma PrefixRepeat(p: string, k: nat, r: string)
    ensures p + (Repeat(p, k) + r) == Repeat(p, k + 1) + r
  {
    assert Repeat(p, k + 1) == p + Repeat(p, k);
  }

  /** `str::trim_start_matches(p)` for a string pattern: drops every
      repetition of `p` at the front. */
  function StripPrefixes(s: string, p: string): (r: string)
    ensures |r| <= |s| && r == s[|s| - |r|..]
    ensures |p| > 0 ==> !(p <= r)
    decreases |s|
  {
    if |p| > 0 && p <= s then StripPrefixes(s[|p|..], p) else s
  }

  /** What was stripped is some number of copies of `p`. */
  lemma {:induction false} StripPrefixesCopies(s: string, p: string)
    ensures exists k: nat :: s == Repeat(p, k) + StripPrefixes(s, p)
    decreases |s|
  {
    if |p| > 0 && p <= s {
      var t := s[|p|..];
      StripPrefixesCopies(t, p);
      var r := StripPrefixes(t, p);
      var k: nat :| t == Repeat(p, k) + r;
      assert StripPrefixes(s, p) == r;
      assert s == p + t;
      PrefixRepeat(p, k, r);
      assert s == Repeat(p, k + 1) + r;
    } else {
      assert s == Repeat(p, 0) + StripPrefixes(s, p);
    }
  }

  /** True when no char of `s` is in `seps`. */
  predicate Avoids(s: string, seps: set<char>)
  {
    forall i :: 0 <= i < |s| ==> s[i] !in seps
  }

  /** Index of the first char of `s` that is in `seps`. */
  function IndexOf(s: string, seps: set<char>): (r: Option<nat>)
    ensures r.Some? ==> r.value < |s| && s[r.value] in seps
    ensures r.Some? ==> Avoids(s[..r.value], seps)
    ensures r.None? ==> Avoids(s, seps)
  {
    if |s| == 0 then None
    else if s[0] in seps then Some(0)
    else match IndexOf(s[1..], seps)
      case None => None
      case Some(k) =>
        assert s[..k + 1] == [s[0]] + s[1..][..k];
        Some(k + 1)
  }

  /** `str::split_once(c)`: the text before and after the first `c`. */
  function SplitOnce(s: string, c: char): (r: Option<(string, string)>)
    ensures r.None? <==> c !in s
    ensures r.Some? ==> s == r.value.0 + [c] + r.value.1 && c !in r.value.0
  {
    match IndexOf(s, {c})
    case None => None
    case Some(i) =>
      assert s == s[..i] + [c] + s[i + 1..];
      Some((s[..i], s[i + 1..]))
  }

  /** Text cut at a first `c` splits once into exactly those parts. */
  lemma SplitOnceUnique(s: string, c: char, a: string, b: string)
    requires s == a + [c] + b && c !in a
    ensures SplitOnce(s, c) == Some((a, b))
  {
    assert s[|a|] == c;
    assert s[..|a|] == a;
  }

  /** `str::split` on any of the chars in `seps`: the pieces between
      separators, always at least one. */
  function Split(s: string, seps: set<char>): (r: seq<string>)
    ensures |r| >= 1
    ensures forall k :: 0 <= k < |r| ==> Avoids(r[k], seps)
    decreases |s|
  {
    match IndexOf(s, seps)
    case None => [s]
    case Some(i) => [s[..i]] + Split(s[i + 1..], seps)
  }

  /** The pieces glued back together with `c` between them. */
  function Join(parts: seq<string>, c: char): string
  {
    if |parts| == 0 then []
    else if |parts| == 1 then parts[0]
    else parts[0] + [c] + Join(parts[1..], c)
  }

  /** Splitting on one char and joining with it gives the text back. */
  lemma {:induction false} SplitJoin(s: string, c: char)
    ensures Join(Split(s, {c}), c) == s
    decreases |s|
  {
    match IndexOf(s, {c})
    case None =>
    case Some(i) =>
      SplitJoin(s[i + 1..], c);
      var rest := Split(s[i + 1..], {c});
      assert Split(s, {c}) == [s[..i]] + rest;
      assert ([s[..i]] + rest)[1..] == rest;
      assert s == s[..i] + [c] + s[i + 1..];
  }

  /** Splitting text that starts with a separator-free piece and a
      separator yields that piece first. */
  lemma SplitAfterSeparator(a: string, c: char, b: string, seps: set<char>)
    requires Avoids(a, seps) && c in seps
    ensures Split(a + [c] + b, seps) == [a] + Split(b, seps)
  {
    var s := a + [c] + b;
    IndexOfAfter(a, c, b, seps);
    assert s[..|a|] == a;
    assert s[|a| + 1..] == b;
  }

  /** The first separator of `a + [c] + b` is that `c` when `a` has none. */
  lemma {:induction false} IndexOfAfter(a: string, c: char, b: string, seps: set<char>)
    requires Avoids(a, seps) && c in seps
    ensures IndexOf(a + [c] + b, seps) == Some(|a|)
    decreases |a|
  {
    var s := a + [c] + b;
    if |a| == 0 {
      assert s[0] == c;
    } else {
      IndexOfAfter(a[1..], c, b, seps);
      assert s[0] == a[0];
      assert s[1..] == a[1..] + [c] + b;
    }
  }

  /** `str::splitn(n, c)`: at most `n` pieces, the last one holding the
      unsplit rest. */
  function SplitN(s: string, c: char, n: nat): (r: seq<string>)
    ensures n >= 1 ==> 1 <= |r| <= n && Join(r, c) == s
    ensures forall k :: 0 <= k < |r| - 1 ==> c !in r[k]
    ensures 0 < |r| < n ==> c !in r[|r| - 1]
    decreases n
  {
    if n == 0 then []
    else if n == 1 then [s]
    else match SplitOnce(s, c)
      case None => [s]
      case Some((a, b)) =>
        var rest := SplitN(b, c, n - 1);
        assert ([a] + rest)[1..] == rest;
        [a] + rest
  }

  /** A line without its trailing carriage return. */
  function StripCR(a: string): string
  {
    if |a| > 0 && a[|a| - 1] == '\r' then a[..|a| - 1] else a
  }

  /** `str::lines`: the lines of `s`, each without its "\n" or "\r\n"; a
      final line ending does not start an empty line. */
  function Lines(s: string): (r: seq<string>)
    ensures forall k :: 0 <= k < |r| ==> '\n' !in r[k]
    decreases |s|
  {
    match SplitOnce(s, '\n')
    case None => if s == [] then [] else [s]
    case Some((a, b)) => [StripCR(a)] + Lines(b)
  }

  /** Each piece without its trailing carriage return. */
  function StripAll(pieces: seq<string>): (r: seq<string>)
    ensures |r| == |pieces|
    ensures forall i :: 0 <= i < |pieces| ==> r[i] == StripCR(pieces[i])
  {
    seq(|pieces|, i requires 0 <= i < |pieces| => StripCR(pieces[i]))
  }

  /** The lines that pieces of a split on '\n' stand for: each piece but the
      last without its carriage return, then the last when it is not empty. */
  function LinesOf(pieces: seq<string>): seq<string>
    requires |pieces| >= 1
  {
    StripAll(pieces[..|pieces| - 1]) + LastLine(pieces[|pieces| - 1])
  }

  /** The lines are the pieces of a split on '\n', each but the last without
      its carriage return; the last piece is a line only when not empty. */
  lemma {:induction false} LinesOfSplit(s: string)
    ensures Lines(s) == LinesOf(Split(s, {'\n'}))
    decreases |s|
  {
    match IndexOf(s, {'\n'})
    case None =>
      NoLineFeed(s);
    case Some(i) =>
      LinesStep(s, i);
      LinesOfSplit(s[i + 1..]);
      StripCons(s[..i], Split(s[i + 1..], {'\n'}));
  }

  /** Text without a line feed is one piece and at most one line. */
  lemma NoLineFeed(s: string)
    requires IndexOf(s, {'\n'}).None?
    ensures Split(s, {'\n'}) == [s]
    ensures Lines(s) == LastLine(s)
  {
    assert SplitOnce(s, '\n').None?;
  }

  /** The last piece of a split on '\n' as a line, when it is not empty. */
  function LastLine(piece: string): seq<string>
  {
    if piece == [] then [] else [piece]
  }

  /** At a first '\n', lines and pieces both begin with the text before it. */
  lemma LinesStep(s: string, i: nat)
    requires IndexOf(s, {'\n'}) == Some(i)
    ensures Split(s, {'\n'}) == [s[..i]] + Split(s[i + 1..], {'\n'})
    ensures Lines(s) == [StripCR(s[..i])] + Lines(s[i + 1..])
  {
    assert SplitOnce(s, '\n') == Some((s[..i], s[i + 1..]));
  }

  /** Putting a piece in front of the pieces puts its stripped line in front. */
  lemma StripCons(a: string, rest: seq<string>)
    requires |rest| >= 1
    ensures LinesOf([a] + rest) == [StripCR(a)] + LinesOf(rest)
  {
    var pieces := [a] + rest;
    assert pieces[..|pieces| - 1] == [a] + rest[..|rest| - 1];
    assert pieces[|pieces| - 1] == rest[|rest| - 1];
    assert StripAll([a] + rest[..|rest| - 1]) == [StripCR(a)] + StripAll(rest[..|rest| - 1]);
  }

  /** `str::replace(a, b)` for single chars. */
  function Replace(s: string, a: char, b: char): (r: string)
    ensures |r| == |s|
    ensures a == b || a !in r
  {
    seq(|s|, i requires 0 <= i < |s| => if s[i] == a then b else s[i])
  }

  /** The text before the first `c`, or all of `s`. */
  function Before(s: string, c: char): string
  {
    match SplitOnce(s, c)
    case None => s
    case Some((a, _)) => a
  }

  /** The text after the first `c`, or nothing. */
  function After(s: string, c: char): string
  {
    match SplitOnce(s, c)
    case None => []
    case Some((_, b)) => b
  }

  /** The first two pieces of a split on one char are the text before the
      first `c` and the text between the first and second `c`. */
  lemma SplitHead(s: string, c: char)
    ensures Split(s, {c})[0] == Before(s, c)
    ensures |Split(s, {c})| == 1 <==> c !in s
    ensures c in s ==> Split(s, {c})[1] == Before(After(s, c), c)
  {
    match IndexOf(s, {c})
    case None =>
    case Some(i) =>
      var rest := s[i + 1..];
      assert Split(s, {c}) == [s[..i]] + Split(rest, {c});
      match IndexOf(rest, {c})
      case None =>
      case Some(_) =>
  }
}
