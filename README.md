# A verified model of a "simple" HTTP/1.0 text-mode web browser

The program is a command-line client. It reads commands at a `> ` prompt:

- `open host[:port][/path]` fetches a page with one HTTP/1.0 `GET` per connection and prints its title and its text lines;
- `download host[:port][/path]` saves the body under `./downloads`;
- `help` and `quit` do what they say.

While fetching, it answers `401` with Basic credentials typed by the user, reports other error statuses, and follows `Refresh` redirects.

This project models that logic in Dafny and proves properties of the model.

| file | module | what it models |
|---|---|---|
| `basics.dfy` | `Basics` | bytes, the byte-per-char text view, `Option`/`Result`, the panic reasons (`Fault`) |
| `text.dfy` | `Text` | the `str` methods the program uses: `trim*`, `split_once`, `split`, `splitn`, `lines`, `replace`, `trim_start_matches` |
| `numbers.dfy` | `Numbers` | `usize`/`isize` parsing (`str::parse`) and decimal printing |
| `search.dfy` | `Search` | `find_subsequence` |
| `base64.dfy` | `Base64` | the standard Base64 alphabet with padding (section 4 of RFC 4648), with a decoder as its partner |
| `response.dfy` | `Response` | cutting a response into status line, header block and body; status-line and header parsing; the body trim |
| `command.dfy` | `Command` | the command line: command word, `http://` stripping, host, port and path with their defaults |
| `fetch.dfy` | `Fetch` | the request/retry loop: request text, the 401 Basic-auth answer, the error stop, the `Refresh` redirect, success |
| `download.dfy` | `Download` | the supported MIME table, `unnamed_N` numbering, the file name, the size unit |
| `page.dfy` | `Page` | the DOM datatype, `recursive_elem_print` as a function to printed lines, the page and title lookup |
| `browser.dfy` | `Browser` | the command loop, finishing a fetch (show the page or store the file), the downloads directory |

## Modelling choices

- **Text is one char per byte.** `ToText` turns a response into text with one char per byte, so the lossy UTF-8 decode is the identity on ASCII input and lengths in bytes and chars agree.
- **Panics are values.** Each `unwrap`, `expect` and out-of-range index that can fail in the modelled code is an `Err(Fault)` value. In the request loop it becomes a `Crashed(fault)` outcome, and in the command loop a `Panicked(fault)` end.
- **The server is a sequence of replies**, one per connection:
  - `Unreachable` stands for a failed connect, read or write (the `?` on I/O). It ends the program with `IoError`.
  - `Answered(bytes)` is the whole response read to end of stream.
- **Standard input is one sequence of lines.** The command prompt and the credential prompt both read from it. Past the end, the credential prompt reads an empty line.
- **The HTML parser is a given function** `seq<byte> -> Option<seq<Node>>`. The model takes its output as a tree of `Element(name, attributes, children) | Text | Comment` nodes.
- **The downloads directory is a `Disk` value**: its listing (`None` when it cannot be read) and the contents of each file.
- **Each loop is a method proved equal to a function.** The request loop is `Fetch.Fetch`; its loop body is `Turn` and its specification is the recursive function `Run`. The command loop is `Browser.Repl`; its loop body is `Perform` and `Visit` and its specification is `Browse`. The header `for` loop is `Response.ParseHeaders`, specified by `HeaderMapOf`.
- **Where the code and its description differ, the model follows the code:**
  - A missing `./downloads` directory is an I/O error (`read_dir(..)?` at src/main.rs:367). It does not create the directory.
  - A `download` of an unsupported type with no `Content-Disposition` panics at src/main.rs:402. That happens before the supported-type check, so it is not a silent skip.
  - `Content-Length` is parsed after the file is written, so a missing or non-numeric length panics with the file already stored.
  - The header map is filled before the status code is parsed. So a header line without a space panics first, even when the status line is also malformed.

## Model

| member | source | states |
|---|---|---|
| Search.FindSubsequence | src/main.rs:17-21 | `Some(i)` only where the needle occurs at `i` and at no smaller index; `None` exactly when it occurs nowhere |
| Search.FindFrom | src/main.rs:17-21 | the first occurrence at or after `start`, and none before it |
| Search.PrefixFoundFirst | src/main.rs:252-259 | when a needle occurs, any nonempty prefix of it (CRLF of CRLFCRLF) is found no later |
| Basics.ToText | src/main.rs:251-253 | the text view keeps the length and every byte value |
| Basics.TextBytes | src/main.rs:332 | `as_bytes` is the inverse of the text view on byte-range text |
| Text.TrimEnd | src/main.rs:272 | the result is a prefix, ends in a non-space, and only whitespace was cut |
| Text.TrimStart | src/main.rs:288 | the result is a suffix, starts with a non-space, and only whitespace was cut |
| Text.Trim | src/main.rs:188 | the result has no space at either end and is the input with whitespace padding cut from both ends |
| Text.TrimEndMatches | src/main.rs:283 | the result is a prefix not ending in `c`, and only `c`s were cut |
| Text.TrimStartMatches | src/main.rs:394 | the result is a suffix not starting with `c`, and only `c`s were cut |
| Text.TrimMatches | src/main.rs:394 | the input is `c`s, then the result, then `c`s, and the result neither starts nor ends with `c` |
| Text.StripPrefixes | src/main.rs:193 | the result is a suffix of the input that no longer starts with the prefix |
| Text.StripPrefixesCopies | src/main.rs:193 | what was removed is the prefix repeated some number of times |
| Text.IndexOf | src/main.rs:281 | the index of the first separator char: everything before it avoids the separators; `None` when none occurs |
| Text.SplitOnce | src/main.rs:281 | `None` exactly when `c` does not occur; otherwise `s == before + [c] + after` with no `c` in `before` |
| Text.Split | src/main.rs:286 | at least one piece, and no piece contains a separator |
| Text.SplitJoin | src/main.rs:289-291 | splitting on `c` and joining with `c` gives the text back |
| Text.SplitAfterSeparator | src/main.rs:379 | a separator-free head followed by a separator is the first piece |
| Text.SplitN | src/main.rs:271 | between 1 and `n` pieces that join back to the input; only the last piece may contain `c`, and only when there are `n` pieces |
| Text.Lines | src/main.rs:277 | no line contains a line feed |
| Text.LinesOfSplit | src/main.rs:277 | the lines are the pieces of a split on line feeds: each but the last with one trailing `\r` stripped, and the last only when it is nonempty |
| Text.Replace | src/main.rs:332 | same length, and no `a` is left unless `a` is `b` (the content is stated by `Fetch.CredentialsBytes`) |
| Text.SplitHead | src/main.rs:200-201 | the first piece is the text before the first `c`; there is one piece exactly when `c` is absent; the second is the text between the first two `c`s |
| Numbers.ShowNat | src/main.rs:398 | decimal digits without a leading zero, whose value is `n` |
| Numbers.ShowInt | src/main.rs:398 | a sign exactly for negative numbers |
| Numbers.ParseUsize | src/main.rs:307 | a result is below 2^64 and comes from an optional `+` and digits only |
| Numbers.ParseIsize | src/main.rs:382 | a result lies in the 64-bit signed range and comes from an optional sign and digits only; a negative one from a leading `-` |
| Numbers.ParseShowUsize | src/main.rs:307 | parsing the printed form of any `usize` gives it back |
| Numbers.ParseShowIsize | src/main.rs:382 | parsing the printed form of any `isize` gives it back |
| Base64.Value | src/main.rs:331-332 | a char's value, when it has one, is below 64 and maps back to that char |
| Base64.ValueOfDigit | src/main.rs:331-332 | every digit value reads back as itself |
| Base64.Encode | src/main.rs:331-332 | the output has a length divisible by 4 and is empty exactly for empty input |
| Base64.GroupRoundTrip | src/main.rs:331-332 | a full three-byte group decodes back to its bytes |
| Base64.OneByteRoundTrip | src/main.rs:331-332 | a one-byte tail with `==` padding decodes back |
| Base64.TwoByteRoundTrip | src/main.rs:331-332 | a two-byte tail with `=` padding decodes back |
| Base64.LastGroupRoundTrip | src/main.rs:331-332 | a last full group decodes back |
| Base64.RoundTrip | src/main.rs:331-332 | `Decode(Encode(bs)) == Some(bs)` for every byte sequence |
| Response.SplitResponse | src/main.rs:250-264 | status line ++ header block ++ body is the input; the status line ends at the first CRLF and the header block at the first CRLFCRLF and with CRLF; it fails exactly when there is no CRLFCRLF, and fails at the status line exactly when there is no CRLF |
| Response.TrimBody | src/main.rs:298-302 | the processed body is the body minus exactly one trailing `\n`, cut exactly when one is present |
| Response.ParseStatusLine | src/main.rs:306-309 | a parsed code is a `usize` and the version has no space |
| Response.StatusLineFields | src/main.rs:270-273 | for `v SP c SP rest` the version and reason are end-trimmed `v` and `rest` (the reason keeps its inner spaces), and the code is `c` parsed, or `BadStatusCode` |
| Response.StatusLineShape | src/main.rs:270-273 | every line that parses has that `v SP c SP rest` shape |
| Response.Parameters | src/main.rs:284-293 | every `;`-segment has at least one `=`-group, and no group contains `=` |
| Response.ParametersRejoin | src/main.rs:286-291 | one entry per `;`-segment, and rejoining an entry with `=` gives the trimmed segment |
| Response.ParseHeaderLine | src/main.rs:281-294 | it fails exactly when the line has no space; the name is a space-free prefix of the line without a trailing `:`; the value is well formed |
| Response.HeaderLineParts | src/main.rs:281-283 | `name SP value` gives the name with trailing `:`s removed and the parameters of the value |
| Response.UpToBlank | src/main.rs:277-280 | the lines before the first empty line |
| Response.HeadersFrom | src/main.rs:276-295 | insertions keep earlier names and well-formed values; failure is always a line without a space |
| Response.HeaderMapOf | src/main.rs:276-295 | the header block read from an empty map over its lines gives a well-formed map; its content is stated by `HeadersLastWriteWins` and `HeadersFailExactly` |
| Response.HeadersLastWriteWins | src/main.rs:282-294 | when every line before the blank one has a space, each name maps to its last definition, otherwise to what it had |
| Response.HeadersFailExactly | src/main.rs:281 | header parsing fails exactly when some line before the blank one has no space |
| Response.ParseHeaders | src/main.rs:276-295 | the `for`/`insert` loop computes the header map of the block |
| Response.ParseResponse | src/main.rs:250-309 | it succeeds exactly when the response splits, the header block gives a header map and the status line parses; the headers and status are those values, and the body is the trimmed bytes after the first CRLFCRLF |
| Response.ReadResponse | src/main.rs:242-309 | the parsing block, with its loop, equals `ParseResponse` |
| Command.Arguments | src/main.rs:189-198 | one or two parts, each with at least one `:`-piece, none containing `:` |
| Command.Dispatch | src/main.rs:209-495 | `open`, `download`, `help`, `quit` and the empty word each give their own command and only they do; any other word is unrecognized with that word; `open` and `download` carry the target picked from the arguments |
| Command.TargetOf | src/main.rs:210-225 | host, port and path by position, with the defaults `localhost`, `80` and `""`; stated on a typed argument by `TargetFields` |
| Command.ParseCommand | src/main.rs:187-207 | `open` or `download` without an argument targets `localhost`, port `80`, empty path |
| Command.SingleWord | src/main.rs:199-206 | a line whose trimmed text has no space runs the command named by its text before the first space, end-trimmed, without arguments |
| Command.WordAlone | src/main.rs:187-207 | a word typed alone with its line feed, such as `quit` or `open`, runs the command that word names without arguments |
| Command.CommandWord | src/main.rs:187-207 | a line whose trimmed text is `word SP rest` runs the command `word` names on the arguments of `rest` |
| Command.TargetFields | src/main.rs:210-224 | host up to the first `:` or `/`; port between the first `:` and the next `:` (or `80`); path from after the first `/` up to its first `:` (or empty); all `http://` prefixes stripped |
| Command.BlankLine | src/main.rs:187-207 | a line of whitespace is no command |
| Command.IndentedWordIsBlank | src/main.rs:199-206 | an indented single word is no command, because the command word is taken before the first space |
| Fetch.Request | src/main.rs:233 | the request text of one session; its format is stated by `RequestsAt` |
| Fetch.Requests | src/main.rs:233 | one request text per sent session |
| Fetch.RequestsAt | src/main.rs:233 | the `k`-th request is `GET /urn HTTP/1.0\r\nHost: url auth\r\n\r\n` of the `k`-th session |
| Fetch.Credentials | src/main.rs:332 | no longer than the input, and the last byte kept is not whitespace |
| Fetch.CredentialsBytes | src/main.rs:332 | each kept byte is the input byte with a space turned into `:`; every dropped byte is whitespace other than a space |
| Fetch.Challenge | src/main.rs:326-329 | the scheme exists exactly when `WWW-Authenticate` is present, and has no space |
| Fetch.AuthHeader | src/main.rs:325-332 | a nonempty text that starts with `\r\nAuthorization: ` |
| Fetch.AuthHeaderDecodes | src/main.rs:325-332 | the header is `\r\nAuthorization: `, the scheme, a space, and a text that Base64-decodes to the credentials |
| Fetch.RedirectPath | src/main.rs:348-352 | a path only when the `Refresh` value has a second group with two parts |
| Fetch.RedirectAfterThirdSlash | src/main.rs:348-352 | the path is exactly the text after the third `/` of the URL parameter, in both directions |
| Fetch.Answers | src/main.rs:246-309 | one parsed answer per reply |
| Fetch.DecideKeepsHost | src/main.rs:310-359 | a retry keeps url and port; it changes `auth` only after reading credentials, to one Authorization header on the same path; a redirect changes only the path |
| Fetch.DecideReadsOnChallenge | src/main.rs:310-324 | input is read only on a 401; an empty line stops with `auth` left as `"\n"` |
| Fetch.DecideLoadsOnSuccess | src/main.rs:334-361 | a loaded page has status below 400, no `Refresh`, and the target, headers and body of the last request; an HTTP error stop is at least 400 and not 401 |
| Fetch.Decide | src/main.rs:304-361 | the sorting of one parsed answer into stop, retry or redirect; its properties are `DecideKeepsHost`, `DecideReadsOnChallenge`, `DecideLoadsOnSuccess`, `DecideOnChallenge` and the `Run*` lemmas below |
| Fetch.DecideOnChallenge | src/main.rs:316-332 | a 401 with `WWW-Authenticate`, answered with a line other than `"\n"`, retries the same session with `auth` set to `AuthHeader` of the scheme and that line |
| Fetch.Run | src/main.rs:228-359 | no more requests than replies used, no more input lines than given, and the first request is the starting session |
| Fetch.DecideOnRefresh | src/main.rs:342-355 | an answer below 400 with a `Refresh` path retries the same session with only the path changed, reading no input |
| Fetch.RunAgain | src/main.rs:228-359 | a retry uses one reply and at most one input line and continues the run from the new session |
| Fetch.RunAnswersChallenge | src/main.rs:316-359 | after a challenged 401 the second request carries `AuthHeader` of the scheme and the typed line, with one reply and one line used |
| Fetch.RunStopsOnError | src/main.rs:334-340 | a first answer of status 400 or above, other than 401, ends the fetch after one request with that code and reason |
| Fetch.RunFollowsRefresh | src/main.rs:342-355 | a first answer below 400 with a `Refresh` path continues from the same url and port, that path and no `auth` |
| Fetch.RunLoadsWithoutRefresh | src/main.rs:342-361 | a first answer below 400 without `Refresh` loads the first target after one request, or panics for a missing `Content-Type` |
| Fetch.RunKeepsHost | src/main.rs:342-359 | every request of a fetch, and the loaded target, keep the starting url and port |
| Fetch.RunSendsValidAuth | src/main.rs:233-235 | from a valid `auth`, every request carries at most one Authorization header, at its start |
| Fetch.CredentialsOnlyAfterChallenge | src/main.rs:233-235 | a request with credentials always follows a 401 answer and repeats the previous path; all other requests go without them |
| Fetch.DeclinedChallengeStops | src/main.rs:316-324 | a 401 answered with an empty line ends the fetch after one request, leaving `"\n"` in `auth` |
| Fetch.LeftoverAuth | src/main.rs:316-324 | unless the user declined or the fetch panicked, the `auth` left behind is valid |
| Fetch.Respond | src/main.rs:242-361 | one reply handled from its bytes equals `Decide` on the parsed response |
| Fetch.Send | src/main.rs:233-235 | building a request appends the request text of the current session |
| Fetch.Turn | src/main.rs:228-359 | one turn of the loop keeps the whole trace equal to `Run` |
| Fetch.Fetch | src/main.rs:228-359 | the loop's requests, outcome, leftover `auth` and consumed replies and lines are those of `Run`, and the texts sent are `Requests(sent)` |
| Download.SUPPORTED | src/main.rs:81-158 | the MIME type to extension table, entry for entry; only its types are saved (`FileName`, `SaveFile`) |
| Download.UnnamedName | src/main.rs:397-403 | the name starts with `unnamed_` and ends in the extension; `UnnamedRoundTrip` reads its index back |
| Download.UnnamedIndex | src/main.rs:378-384 | the index is an `isize`; a name without one fails with `BadUnnamedName` |
| Download.UnnamedRoundTrip | src/main.rs:397-403 | the index of `unnamed_N.ext` is `N` |
| Download.MaxIndex | src/main.rs:375-387 | `None` exactly when no `unnamed_` name is listed; otherwise the largest index, reached by some name; fails exactly when some `unnamed_` name has no index |
| Download.NextUnnamedIndex | src/main.rs:375-387 | one above every listed index: 0 when there is none, else the largest plus one; fails exactly when the maximum cannot be taken or is the largest `isize` |
| Download.NextAfterOnly | src/main.rs:385-387 | with one unnamed file of index `n` listed, the next index is `n + 1`, negative `n` included |
| Download.MaxIndexAppend | src/main.rs:385 | adding a name takes the larger of its index and the maximum so far, or its own index on a listing without one |
| Download.FreshUnnamedName | src/main.rs:375-404 | the next `unnamed_N` name is not in the listing, and after saving it the next index is `N + 1` |
| Download.FileName | src/main.rs:389-404 | without `Content-Disposition` the name is `unnamed_N.ext` exactly for supported types; with it, the name exists exactly when the value has a second group with a second part, and is that part with quotes trimmed |
| Download.PlanDownload | src/main.rs:367-421 | an unreadable directory is an error; a saved file holds the processed body of a supported type; a skip is an unsupported type with `Content-Disposition`; an unnamed file gets a name not in the listing |
| Download.PlanSteps | src/main.rs:375-416 | in a readable directory the plan fails as the next index or the file name fails, and otherwise saves the whole body under that name for a supported type, with the declared length, or skips any other type |
| Download.SupportedSaved | src/main.rs:389-416 | a supported type in a readable directory, with no `Content-Disposition` or a well-formed one, is saved with the whole body under the disposition name or the next unnamed name |
| Download.ContentLength | src/main.rs:418-421 | a length only when `Content-Length` is present, and below 2^64 |
| Download.SizeUnit | src/main.rs:423-430 | the unit is the largest of 1, 10^3, 10^6, 10^9 not above the length (bytes below 1000) |
| Download.SizeUnitMonotone | src/main.rs:423-430 | a larger length never gets a smaller unit |
| Download.SizeUnitLargest | src/main.rs:423-430 | every unit not above the length is at most the chosen one |
| Page.Flatten | src/main.rs:28-64 | every printed line is at least the starting depth and carries the inherited suffix or a link arrow |
| Page.FlattenNode | src/main.rs:31-61 | the same for a single child |
| Page.FlattenShowsVisibleTexts | src/main.rs:28-64 | printing aborts exactly on a link without `href`; otherwise each visible text (outside `script`, not a comment, in document order) is printed at the start depth plus its number of `ol`/`ul` ancestors, with ` -> href` of its innermost `a` ancestor as suffix, or the inherited one |
| Page.FlattenNodeShowsVisibleTexts | src/main.rs:31-61 | the same for a single child |
| Page.Href | src/main.rs:43-47 | the `href` value of an `a` element; `LinkLine` and `FlattenShowsVisibleTexts` state what it prints |
| Page.LinkLine | src/main.rs:36-50 | a link's text line carries ` -> href` in place of whatever suffix was inherited, at the same depth |
| Page.OneText | src/main.rs:57-59 | a text node prints one line at the current depth with the current suffix |
| Page.ListIndents | src/main.rs:33-35 | an `ol` or `ul` prints its children exactly as at the same depth, each line one level deeper |
| Page.FlattenDeeper | src/main.rs:28-64 | printing from one level deeper shifts every line by one and changes nothing else |
| Page.FlattenNodeDeeper | src/main.rs:31-61 | the same for a single child |
| Page.LinkSuffix | src/main.rs:36-54 | with no link among the ancestors the suffix is the inherited one; otherwise the arrow and target of the innermost link |
| Page.ListDepth | src/main.rs:33-35 | at most the number of ancestors, and 0 exactly when none is a list |
| Page.PlaceUnder | src/main.rs:31-61 | texts under one more ancestor are placed one level deeper when it is `ol`/`ul`, with its ` -> href` when it is a link, and otherwise as before |
| Page.FindTitle | src/main.rs:465-468 | the index of the first `title` element, with none before it; `None` exactly when there is none |
| Page.Title | src/main.rs:465-474 | the title is the first child of the first `title` element, which must be text; it fails exactly when there is no such element, it has no child, or its first child is not text |
| Page.PageParts | src/main.rs:453-464 | head and body are the children of the first two children of the last node, which must all be elements |
| Page.RenderPage | src/main.rs:451-476 | an unparsable page fails; a rendered page has the title of its head and the printout of its body from depth 0 |
| Browser.Store | src/main.rs:415-416 | the stored name is listed, the file holds the data, and no listed name is lost |
| Browser.ShowPage | src/main.rs:451-480 | the directory is kept; the program goes on exactly when the page renders without a broken link; a rendered page is shown, a failed render panics with nothing shown |
| Browser.SaveFile | src/main.rs:406-437 | the directory changes only for a supported type in a readable directory, and never loses a file or name |
| Browser.SaveFileOutcome | src/main.rs:406-437 | a saved plan stores its data under its name and reports its length and unit, or panics after the write without a length; a skip shows `NotStored`; a failed plan is an I/O error for an unreadable directory and a panic otherwise |
| Browser.SaveSupported | src/main.rs:389-416 | a supported download into a readable directory leaves the body in the directory under the expected name, which is listed |
| Browser.AfterFetch | src/main.rs:361-482 | only a loaded `download` changes the directory, and it never loses a file or name |
| Browser.Reply | src/main.rs:486-496 | `help` shows the help, an empty line asks for input, and an unknown word is reported with its name |
| Browser.Commands | src/main.rs:187-207 | one command per input line |
| Browser.CommandsAt | src/main.rs:187-207 | the `i`-th command is line `i` parsed |
| Browser.Browse | src/main.rs:177-497 | the command loop as a function; its properties are `BrowseQuit`, `BrowseLocal`, `BrowseFetch`, `BrowseSendsValidAuth` and `BrowseKeepsFiles` |
| Browser.Fetched | src/main.rs:209-484 | one `open` or `download` run from an empty `auth` and finished; `BrowseFetch` and `Visit` state it |
| Browser.BrowseQuit | src/main.rs:488-489 | `quit` ends the program at once, with nothing more shown |
| Browser.BrowseLocal | src/main.rs:486-495 | `help`, an unknown word and an empty line show their message and read the next line |
| Browser.BrowseFetch | src/main.rs:209-228 | `open` and `download` hand the following lines to the request loop |
| Browser.Perform | src/main.rs:186-496 | one command carried out keeps the whole session equal to `Browse` |
| Browser.FetchCommand | src/main.rs:209-484 | an `open` or `download` command carried out keeps the whole session equal to `Browse` |
| Browser.Visit | src/main.rs:228-484 | one fetch and its finish equal `Fetched` |
| Browser.Repl | src/main.rs:177-497 | the command loop's events, requests, end and directory are those of `Browse`, and the texts sent are `Requests(sent)` |
| Browser.BrowseSendsValidAuth | src/main.rs:233-235 | with `auth` cleared for each command, every request of the session carries at most one Authorization header, at its start |
| Browser.BrowseKeepsFiles | src/main.rs:410-416 | the session never removes a file or a listed name from the downloads directory |
| Browser.DeclinedAuthLeaks | src/main.rs:316-324 | as written, after a declined 401 `auth` holds `"\n"`, and a request built from it has a bare line feed after the host |

## Left out

- TCP connect, write, flush and read are not modelled byte by byte. A reply is the whole response or a failure of any of them.
- The spinner is left out. It is a terminal animation on another thread.
- Terminal output and its formatting are left out. Printed messages become `Event` values.
- The `{:.1}` float size is left out. Only the integer unit choice is modelled.
- The help text is left out. It iterates a hash map in unspecified order, so the model records only that help was shown.
- Errors reading standard input are left out: a failed `read_line` only prints a message. Past the end of input, the command loop stops with `InputEnded`. The program itself would keep reading empty lines and printing "Please enter something" forever.
- The HTML parser is a parameter, and its tree is the model's `Node` datatype.
- Lossy UTF-8 decoding is left out. Every byte is one char, which matches the program only on ASCII input.
- Directory entries that fail to read or are not UTF-8 panic in the program. The model's listing is a sequence of strings, so it has neither case.
- `DirBuilder::create` and `File::create`/`write_all` are not modelled as I/O. A write is `Store` on the `Disk` value and cannot fail.
- The `unnamed_N` index `+ 1` overflows at the largest `isize`. The model treats that as a panic (`IndexOverflow`), as a debug build does; a release build would wrap around.
- The MIME table is modelled without its duplicate entry: the key `audio/wav` is listed twice with the same extension.
- `Browser.Browse` starts every fetch from an empty `auth`. This is the corrected behaviour; `Browser.DeclinedAuthLeaks` states what the code as written does (see Findings).

## Findings

| source | as written | input that shows it | evidently intended | confidence | as-written member | corrected member |
|---|---|---|---|---|---|---|
| src/main.rs:322-324 | `auth` (declared once, at line 171) keeps the `"\n"` typed at a 401 prompt when the loop breaks; the next command's first request is built with it | `open h/secret`, a `401` answer with `WWW-Authenticate`, the line `"\n"`, then `open h2`: the second request is `GET / HTTP/1.0\r\nHost: h2\n\r\n\r\n` | `auth` cleared when the user declines (the comment at lines 320-321 says so), so each command starts without credentials | not executed | Browser.DeclinedAuthLeaks | Browser.BrowseSendsValidAuth |
