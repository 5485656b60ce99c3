/** Shared value types of the client model: bytes, optional values, results
    and the ways the client's parsing can fail. */
module Basics {

  /** One octet of the wire format. */
  newtype byte = x: int | 0 <= x < 256

  datatype Option<T> = None | Some(value: T)

  /** The outcome of a step that panics or errors out in the client. */
  datatype Result<T> = Ok(value: T) | Err(error: Fault)

  /** Every place where the client stops on malformed input: an `unwrap`, an
      `expect`, an index out of range, or an I/O error returned through `?`. */
  datatype Fault =
    | NoStatusLineEnd                       // no "\r\n" in the response
    | NoHeaderEnd                           // no "\r\n\r\n" in the response
    | HeaderLineWithoutSpace(line: string)  // `split_once(' ').unwrap()`
    | MissingStatusCode                     // status line has fewer than two fields
    | BadStatusCode(text: string)           // second field is not a usize
    | MissingReason                         // status line has fewer than three fields
    | MissingChallenge                      // 401 without WWW-Authenticate
    | BadRefresh                            // Refresh without `[1][1]` or a third '/'
    | MissingContentType                    // success without Content-Type
    | DirectoryUnreadable                   // `fs::read_dir` failed
    | BadUnnamedName(name: string)          // "unnamed_" file whose index is not an isize
    | IndexOverflow                         // the next unnamed index exceeds isize
    | BadDisposition                        // Content-Disposition without `[1][1]`
    | UnsupportedType(mime: string)         // no extension for the MIME type
    | BadContentLength                      // Content-Length missing or not a usize
    | HtmlUnparsable                        // the HTML parser rejected the body
    | BadDocument                           // the document is not `<html><head/><body/></html>`
    | MissingTitle                          // no usable `<title>` in the head
    | MissingHref                           // an `a` element without an `href` value

  /** The text view of some bytes: one char per byte. For ASCII this is what
      `String::from_utf8_lossy` yields. */
  function ToText(bs: seq<byte>): (s: string)
    ensures |s| == |bs|
    ensures forall i :: 0 <= i < |bs| ==> s[i] as int == bs[i] as int
  {
    seq(|bs|, i requires 0 <= i < |bs| => bs[i] as int as char)
  }

  /** Text whose every char stands for one byte. */
  predicate IsByteText(s: string)
  {
    forall i :: 0 <= i < |s| ==> s[i] as int < 256
  }

  /** `str::as_bytes` on byte text; inverse of `ToText`. */
  function TextBytes(s: string): (bs: seq<byte>)
    requires IsByteText(s)
    ensures ToText(bs) == s
  {
    seq(|s|, i requires 0 <= i < |s| => s[i] as int as byte)
  }
}
