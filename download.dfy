/** Saving a response body under `downloads`: the file name comes from
    Content-Disposition or is the next free `unnamed_<n>.<ext>`, and the
    reported size is bucketed into a unit. */
module Download {
  import opened Basics
  import opened Text
  import opened Numbers
  import opened Response

  const UNNAMED: string := "unnamed_"

  /** MIME type to file extension for the types the client will save. */
  const SUPPORTED: map<string, string> := map[
    "text/plain" := "txt", "text/csv" := "csv", "text/css" := "css",
    "text/html" := "html", "text/javascript" := "js",
    "application/octet-stream" := "bin",
    "image/apng" := "apng", "image/png" := "png", "image/avif" := "avif",
    "image/gif" := "gif", "image/jpeg" := "jpg", "image/svg+xml" := "svg",
    "image/webp" := "webp", "image/bmp" := "bmp", "image/tiff" := "tiff",
    "image/vnd.microsoft.icon" := "ico",
    "audio/wav" := "wav", "audio/webm" := "webm", "audio/ogg" := "ogg",
    "audio/aac" := "aac", "audio/mpeg" := "mp3", "audio/mp4" := "m4a",
    "audio/opus" := "opus", "audio/midi" := "midi",
    "video/webm" := "webm", "video/ogg" := "ogg", "video/mp4" := "mp4",
    "video/mpeg" := "mpeg",
    "font/otf" := "otf", "font/ttf" := "ttf", "font/woff" := "woff",
    "font/woff2" := "woff2",
    "application/pdf" := "pdf", "application/ogg" := "ogg",
    "application/vnd.rar" := "rar", "application/zip" := "zip",
    "application/x-7z-compressed" := "7z", "application/x-bzip" := "bz",
    "application/x-bzip2" := "bz2", "application/gzip" := "gz",
    "application/x-tar" := "tar", "application/json" := "json",
    "application/x-httpd-php" := "php", "application/x-sh" := "sh",
    "application/xhtml+xml" := "xhtml", "application/xml" := "xml",
    "application/msword" := "doc",
    "application/vnd.openxmlformats-officedocument.wordprocessingml.document" := "docx",
    "application/vnd.ms-powerpoint" := "ppt",
    "application/vnd.openxmlformats-officedocument.presentationml.presentation" := "pptx",
    "application/vnd.ms-excel" := "xls",
    "application/vnd.openxmlformats-officedocument.spreadsheetml.sheet" := "xlsx"
  ]

  /** The name of the `n`-th unnamed download. */
  function UnnamedName(n: int, ext: string): (r: string)
    ensures UNNAMED <= r && |ext| < |r| && r[|r| - |ext|..] == ext
  {
    UNNAMED + ShowInt(n) + "." + ext
  }

  /** The index of a file whose name starts with "unnamed_": the second
      piece of the name split on '_' and '.', read as an `isize`. */
  function UnnamedIndex(name: string): (r: Result<int>)
    requires UNNAMED <= name
    ensures r.Ok? ==> ISIZE_MIN <= r.value <= ISIZE_MAX
    ensures r.Err? ==> r.error == BadUnnamedName(name)
  {
    var rest := name[|UNNAMED|..];
    assert name == "unnamed" + ['_'] + rest;
    SplitAfterSeparator("unnamed", '_', rest, {'_', '.'});
    match ParseIsize(Split(name, {'_', '.'})[1])
    case None => Err(BadUnnamedName(name))
    case Some(i) => Ok(i)
  }

  /** A formatted number has no '_' or '.'. */
  lemma ShowIntAvoids(n: int)
    ensures Avoids(ShowInt(n), {'_', '.'})
  {
    if n < 0 {
      assert ShowInt(n) == "-" + ShowNat(-n);
      assert forall i :: 1 <= i < |ShowInt(n)| ==> ShowInt(n)[i] == ShowNat(-n)[i - 1];
    }
  }

  /** An unnamed file's name gives back its index. */
  lemma UnnamedRoundTrip(n: int, ext: string)
    requires ISIZE_MIN <= n <= ISIZE_MAX
    ensures UNNAMED <= UnnamedName(n, ext)
    ensures UnnamedIndex(UnnamedName(n, ext)) == Ok(n)
  {
    var name := UnnamedName(n, ext);
    var shown := ShowInt(n);
    ShowIntAvoids(n);
    assert name == "unnamed" + ['_'] + (shown + ['.'] + ext);
    SplitAfterSeparator("unnamed", '_', shown + ['.'] + ext, {'_', '.'});
    SplitAfterSeparator(shown, '.', ext, {'_', '.'});
    ParseShowIsize(n);
  }

  /** Whether a listed name counts for the unnamed index, and its index. */
  predicate Counts(name: string)
  {
    UNNAMED <= name
  }

  /** The largest index among the listed unnamed files, `None` when no
      listed name starts with "unnamed_"; the first malformed one in
      listing order is an error. */
  function MaxIndex(names: seq<string>): (r: Result<Option<int>>)
    ensures r.Ok? && r.value.Some? ==> ISIZE_MIN <= r.value.value <= ISIZE_MAX
    ensures r.Ok? ==> (r.value.None? <==> forall k :: 0 <= k < |names| ==> !Counts(names[k]))
    ensures r.Ok? && r.value.Some? ==> forall k :: 0 <= k < |names| && Counts(names[k]) ==>
      UnnamedIndex(names[k]).Ok? && UnnamedIndex(names[k]).value <= r.value.value
    ensures r.Ok? && r.value.Some? ==>
      exists k :: 0 <= k < |names| && Counts(names[k]) && UnnamedIndex(names[k]) == Ok(r.value.value)
    ensures r.Err? <==> exists k :: 0 <= k < |names| && Counts(names[k]) && UnnamedIndex(names[k]).Err?
    decreases |names|
  {
    if |names| == 0 then Ok(None)
    else
      assert forall k :: 1 <= k < |names| ==> names[k] == names[1..][k - 1];
      MaxStep(names[0], MaxIndex(names[1..]))
  }

  /** One step of the fold: a name that does not start with "unnamed_"
      leaves the maximum, a malformed one is an error, and an index is
      taken into the maximum. */
  function MaxStep(name: string, rest: Result<Option<int>>): Result<Option<int>>
  {
    if !Counts(name) then rest
    else match UnnamedIndex(name)
      case Err(e) => Err(e)
      case Ok(i) =>
        match rest
        case Err(e) => Err(e)
        case Ok(None) => Ok(Some(i))
        case Ok(Some(m)) => if i >= m then Ok(Some(i)) else Ok(Some(m))
  }

  /** A step of the fold commutes with taking one more index into the maximum. */
  lemma MaxStepLarger(name: string, i: int, rest: Option<int>)
    requires MaxStep(name, Ok(rest)).Ok?
    ensures MaxStep(name, Ok(Some(Larger(i, rest)))) == Ok(Some(Larger(i, MaxStep(name, Ok(rest)).value)))
  {
  }

  /** One more than the largest unnamed index, 0 when there is none; the
      increment past `isize::MAX` is an overflow. */
  function NextUnnamedIndex(names: seq<string>): (r: Result<int>)
    ensures r.Err? <==> MaxIndex(names).Err? || MaxIndex(names).value == Some(ISIZE_MAX)
    ensures r.Ok? ==> ISIZE_MIN <= r.value <= ISIZE_MAX
    ensures r.Ok? ==> forall k :: 0 <= k < |names| && Counts(names[k]) ==>
      UnnamedIndex(names[k]).Ok? && UnnamedIndex(names[k]).value < r.value
    ensures r.Ok? ==>
      (r.value == 0 && forall k :: 0 <= k < |names| ==> !Counts(names[k]))
      || (exists k :: 0 <= k < |names| && Counts(names[k]) && UnnamedIndex(names[k]) == Ok(r.value - 1))
  {
    match MaxIndex(names)
    case Err(e) => Err(e)
    case Ok(None) => Ok(0)
    case Ok(Some(m)) => if m == ISIZE_MAX then Err(IndexOverflow) else Ok(m + 1)
  }

  /** Appending a name updates the maximum the same way as a fold would:
      its own index on a listing without unnamed files, else the larger. */
  lemma {:induction false} MaxIndexAppend(names: seq<string>, x: string)
    requires Counts(x) && UnnamedIndex(x).Ok? && MaxIndex(names).Ok?
    ensures MaxIndex(names + [x]) == Ok(Some(Larger(UnnamedIndex(x).value, MaxIndex(names).value)))
    decreases |names|
  {
    var s := names + [x];
    if |names| == 0 {
      assert s[1..] == [];
    } else {
      assert s[0] == names[0];
      assert s[1..] == names[1..] + [x];
      MaxIndexAppend(names[1..], x);
      MaxStepLarger(names[0], UnnamedIndex(x).value, MaxIndex(names[1..]).value);
    }
  }

  /** `i`, or the larger of `i` and a maximum when there is one. */
  function Larger(i: int, m: Option<int>): int
  {
    match m
    case None => i
    case Some(m) => if i >= m then i else m
  }

  /** The next unnamed name is not taken, and once it is saved the index
      after it is the next one. */
  lemma FreshUnnamedName(names: seq<string>, ext: string)
    requires NextUnnamedIndex(names).Ok?
    ensures var n := NextUnnamedIndex(names).value;
            UnnamedName(n, ext) !in names
            && (n < ISIZE_MAX ==> NextUnnamedIndex(names + [UnnamedName(n, ext)]) == Ok(n + 1))
  {
    var n := NextUnnamedIndex(names).value;
    UnnamedRoundTrip(n, ext);
    if n < ISIZE_MAX {
      MaxIndexAppend(names, UnnamedName(n, ext));
    }
  }

  /** A listing whose only unnamed file has index `n` gives `n + 1` next,
      even when `n` is negative. */
  lemma NextAfterOnly(n: int, ext: string)
    requires ISIZE_MIN <= n < ISIZE_MAX
    ensures NextUnnamedIndex([UnnamedName(n, ext)]) == Ok(n + 1)
  {
    UnnamedRoundTrip(n, ext);
    MaxIndexAppend([], UnnamedName(n, ext));
    assert [] + [UnnamedName(n, ext)] == [UnnamedName(n, ext)];
  }

  /** The saved file's name: the Content-Disposition `filename` value
      (`[1][1]`) with surrounding quotes stripped, else the next unnamed name
      with the extension of the MIME type, which must then be supported. */
  function FileName(headers: HeaderMap, types: map<string, string>, mime: string, index: int): (r: Result<string>)
    ensures "Content-Disposition" !in headers ==>
      (r.Ok? <==> mime in types) && (r.Ok? ==> r == Ok(UnnamedName(index, types[mime])))
    ensures "Content-Disposition" in headers ==>
      var v := headers["Content-Disposition"];
      (r.Ok? <==> |v| >= 2 && |v[1]| >= 2) && (r.Ok? ==> r.value == TrimMatches(v[1][1], '"'))
  {
    if "Content-Disposition" in headers then
      var v := headers["Content-Disposition"];
      if |v| < 2 || |v[1]| < 2 then Err(BadDisposition) else Ok(TrimMatches(v[1][1], '"'))
    else if mime in types then Ok(UnnamedName(index, types[mime]))
    else Err(UnsupportedType(mime))
  }

  /** What a download does: nothing for an unsupported type, or write the
      body under `name`; `length` is the Content-Length value, `None` when it
      is missing or not a number, which panics after the file is written. */
  datatype Plan =
    | Skipped
    | Saved(name: string, data: seq<byte>, length: Option<nat>)

  /** The declared length: the first parameter of Content-Length as a
      `usize`. */
  function ContentLength(headers: HeaderMap): (r: Option<nat>)
    requires WellFormed(headers)
    ensures r.Some? ==> "Content-Length" in headers && r.value < USIZE_BOUND
  {
    if "Content-Length" in headers then ParseUsize(headers["Content-Length"][0][0]) else None
  }

  /** The download step as the client orders it: list the directory (its
      absence is an I/O error), find the next unnamed index, pick the file
      name, and only then check that the type is supported. */
  function PlanDownload(listing: Option<seq<string>>, types: map<string, string>, mime: string,
                        headers: HeaderMap, body: seq<byte>): (r: Result<Plan>)
    requires WellFormed(headers)
    ensures listing.None? ==> r == Err(DirectoryUnreadable)
    ensures r.Ok? && r.value.Saved? ==> mime in types && r.value.data == body
    ensures r.Ok? && r.value.Skipped? ==> mime !in types && "Content-Disposition" in headers
    ensures r.Ok? && r.value.Saved? && "Content-Disposition" !in headers ==>
      listing.Some? && NextUnnamedIndex(listing.value).Ok?
      && r.value.name == UnnamedName(NextUnnamedIndex(listing.value).value, types[mime])
      && r.value.name !in listing.value
  {
    match listing
    case None => Err(DirectoryUnreadable)
    case Some(names) =>
      match NextUnnamedIndex(names)
      case Err(e) => Err(e)
      case Ok(n) =>
        FreshUnnamedName(names, if mime in types then types[mime] else "");
        match FileName(headers, types, mime, n)
        case Err(e) => Err(e)
        case Ok(name) =>
          if mime !in types then Ok(Skipped)
          else Ok(Saved(name, body, ContentLength(headers)))
  }

  /** The plan for a readable directory in order: the next index, then the
      file name, then the supported-type check; a supported type is saved
      with the whole body under that name, any other type skipped. */
  lemma PlanSteps(names: seq<string>, types: map<string, string>, mime: string,
                  headers: HeaderMap, body: seq<byte>)
    requires WellFormed(headers)
    ensures var r := PlanDownload(Some(names), types, mime, headers, body);
            NextUnnamedIndex(names).Err? ==> r == Err(NextUnnamedIndex(names).error)
    ensures var r := PlanDownload(Some(names), types, mime, headers, body);
            NextUnnamedIndex(names).Ok? ==>
              var name := FileName(headers, types, mime, NextUnnamedIndex(names).value);
              r == if name.Err? then Err(name.error)
                   else if mime in types then Ok(Saved(name.value, body, ContentLength(headers)))
                   else Ok(Skipped)
  {
  }

  /** A supported type in a readable directory whose next index can be
      taken is written: under the next unnamed name without
      Content-Disposition, under the disposition's file name with a
      well-formed one, and in both cases with the whole body. */
  lemma SupportedSaved(names: seq<string>, types: map<string, string>, mime: string,
                       headers: HeaderMap, body: seq<byte>)
    requires WellFormed(headers) && mime in types && NextUnnamedIndex(names).Ok?
    requires "Content-Disposition" in headers ==>
      |headers["Content-Disposition"]| >= 2 && |headers["Content-Disposition"][1]| >= 2
    ensures var r := PlanDownload(Some(names), types, mime, headers, body);
            r.Ok? && r.value.Saved? && r.value.data == body && r.value.length == ContentLength(headers)
            && r.value.name == (if "Content-Disposition" in headers
                                then TrimMatches(headers["Content-Disposition"][1][1], '"')
                                else UnnamedName(NextUnnamedIndex(names).value, types[mime]))
  {
    PlanSteps(names, types, mime, headers, body);
    var n := NextUnnamedIndex(names).value;
    var name := FileName(headers, types, mime, n);
    assert name.Ok?;
  }

  /** The unit a size is shown in. */
  datatype Unit = Bytes | KB | MB | GB

  function Scale(u: Unit): nat
  {
    match u
    case Bytes => 1
    case KB => 1_000
    case MB => 1_000_000
    case GB => 1_000_000_000
  }

  /** The size bucket: below a thousand in bytes, then KB, MB, and GB for
      everything from a billion up. */
  function SizeUnit(n: nat): (u: Unit)
    ensures u == Bytes || Scale(u) <= n
    ensures u == GB || n < 1_000 * Scale(u)
  {
    if n <= 999 then Bytes
    else if n <= 999_999 then KB
    else if n <= 999_999_999 then MB
    else GB
  }

  /** A larger size never gets a smaller unit. */
  lemma SizeUnitMonotone(n: nat, m: nat)
    requires n <= m
    ensures Scale(SizeUnit(n)) <= Scale(SizeUnit(m))
  {
  }

  /** The unit is the largest one the size reaches. */
  lemma SizeUnitLargest(n: nat, u: Unit)
    requires Scale(u) <= n
    ensures Scale(u) <= Scale(SizeUnit(n))
  {
  }
}
