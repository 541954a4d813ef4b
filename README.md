# balu: a minimal HTTP/1.1 server, modelled in Dafny

This project models the core of `balu`, a small single-threaded HTTP/1.1 server library.
It covers the whole life of one connection:

- **Head framing.** The server reads from the stream chunk by chunk. After each read it
  searches the new bytes, plus the four bytes before them, for the blank-line delimiter
  `\r\n\r\n`. It panics if the stream ends first.
- **Head decoding.** An external tokenizer splits the head into method, path, version and
  headers. The server copies the headers up to the first empty slot and remembers the
  value of the last header called exactly `Content-Length`. It maps the method token onto
  the `Method` enum and parses the length as a `usize`.
- **Body.** Reading goes on until exactly the declared number of bytes lie past the body
  start.
- **Routing.** A `Router` keeps its routes in registration order, in a list. It also keeps a
  lookup map from `(method, path)` to a route index. Registering the same key twice panics.
- **Dispatch and response.** The server looks up the request's handler, or panics when
  there is none. It then writes the handler's response: a status line, one line per
  header, a blank line and the body.

Modules, one per file:

- `Prelude` (prelude.dfy): bytes, `Option`/`Result`, the panic kinds, saturating
  subtraction.
- `Utils` (utils.dfy): `memmem`.
- `Methods` (methods.dfy): `Method` with its `FromStr` and `Display`.
- `Numerals` (numerals.dfy): decimal rendering of integers and `parse::<usize>`.
- `Responses` (responses.dfy): `Response` and `IntoResponse`.
- `Framing` (framing.dfy): `read_and_parse_request` and `Request`.
- `Routing` (routing.dfy): `Router`, as a class with the two fields the source mutates.
- `Server` (server.dfy): `handle_request` and `write_response`.
- `Scenarios` (scenarios.dfy): the repository's echo example served end to end, and a
  split-delimiter request served as written and corrected.

How the model represents the outside world:

- **Bytes.** A byte is a `char` below 256. String literals such as `"GET"` and
  `"\r\n\r\n"` are therefore byte sequences. Rust `String`s are their UTF-8 bytes.
- **The stream.** It is a sequence of chunks. Read number `i` delivers `chunks[i]`. An
  empty chunk, or a read past the last chunk, is the end of the stream. Every method that
  reads returns how many reads it made.
- **Panics.** Each panic of the source is an `Err` of the `Panic` datatype, and nothing
  further happens after it.
- **The external tokenizer** (the `httparse` crate) is a parameter
  `parse: Bytes -> ParseStatus`. It answers `Invalid`, `Partial` or
  `Complete(method, path, minor version, header slots)`.

Each loop is specified twice:

- declaratively, over prefixes of the stream (`HeadFramedAt`, `HeadEofAt`,
  `BodyCompleteAt`, `BodyEofAt`, `Assembled`);
- as the imperative loop itself, whose `ensures` ties it to that specification.

The delimiter loop breaks with an offset into `buf[delimiter_check_start..]`
(src/lib.rs:97-98), yet `split_at(body_start)` (src/lib.rs:103) uses it as an offset into
`buf`. The model follows the code, and states the intended framing beside it: see Findings.

## Model

| member | source | states |
|---|---|---|
| Prelude.SaturatingSub | src/lib.rs:89 | `a - b` when it is not negative, otherwise 0 |
| Utils.Memmem | src/utils/mod.rs:1-3 | `Some(i)` only when `i` is the first index where the needle occurs; `None` only when it occurs nowhere |
| Utils.SearchFrom | src/utils/mod.rs:2 | windows are tried left to right from `start`: a result is a match with no match between `start` and it; `None` means no match from `start` on |
| Utils.LongNeedleNotFound | src/utils/mod.rs:2 | a needle longer than the haystack has no window and is never found |
| Utils.FirstByteMismatch | src/utils/mod.rs:2 | no window matches at a byte that differs from the needle's first byte |
| Utils.MemmemInSuffix | src/lib.rs:97 | a match found in `buf[s..]` is a match in `buf` at `s` plus the offset; it is the first in `buf` when none starts before `s` |
| Utils.MemmemNoneInSuffix | src/lib.rs:89-99 | if the old buffer holds no delimiter and the search from its last four bytes finds none, the appended buffer holds none |
| Methods.Name | src/method.rs:38-53 | every display name is at least three upper-case ASCII letters; `ParseName` and `NameInjective` state that it identifies the method |
| Methods.FromStr | src/method.rs:22-35 | an accepted token is the display name of the method it parses to; a rejected token is the name of no method |
| Methods.ParseName | src/method.rs:22-54 | parsing the display name of every method gives that method back |
| Methods.ParsedTokenIsName | src/method.rs:22-35 | a token that parses to `m` is exactly `m`'s display name |
| Methods.ParseRejectsOtherText | src/method.rs:33 | text that is not one of the nine names is a `MethodParseError` |
| Methods.ParseIsCaseSensitive | src/method.rs:23-34 | `get`, `Get` and `post` are rejected |
| Methods.NameInjective | src/method.rs:38-53 | two methods with the same display name are the same method |
| Numerals.Decimal | src/lib.rs:69 | the rendering of a status code or version is non-empty, all digits, without a leading zero |
| Numerals.DecimalValue | src/lib.rs:69 | the digits of the rendering denote the number |
| Numerals.ParseUsize | src/lib.rs:138 | an accepted length fits in a 64-bit `usize` |
| Numerals.ParseDecimal | src/lib.rs:138 | the decimal text of any `usize` parses back to it |
| Numerals.ParseRejectsNonDigit | src/lib.rs:138 | a byte that is neither a digit nor one leading `+` makes the parse fail |
| Numerals.ParseRejectsOverflow | src/lib.rs:138 | a value above `usize::MAX` is rejected, with or without `+` |
| Numerals.ParseSignAndEmpty | src/lib.rs:138 | one leading `+` changes nothing; empty text and a lone `+` are rejected |
| Numerals.LeadingZeroValue | src/lib.rs:138 | a leading `0` does not change the value of a digit sequence |
| Numerals.ParseLeadingZero | src/lib.rs:138 | leading zeros are accepted and change nothing, with or without `+` (`05` parses as 5) |
| Responses.NewResponse | src/response.rs:17-23 | no body, status 200, no headers |
| Responses.DefaultResponse | src/response.rs:10-14 | the default response is the new one: no body, status 200, no headers |
| Responses.WithStatusCode | src/response.rs:25-27 | the status is the new one, the body and headers are kept |
| Responses.WithBody | src/response.rs:29-34 | the body is the new one, the status and headers are kept |
| Responses.IntoResponse | src/response.rs:37-51 | a text reply is a 200 response with that text as body and no headers; a response reply is passed through |
| Responses.StatusCodeSetsOnlyStatus | src/response.rs:25-27 | `status_code` sets the status and keeps the body and headers |
| Responses.BodySetsOnlyBody | src/response.rs:29-34 | `body` sets the body and keeps the status and headers |
| Responses.SettersCommute | src/response.rs:25-34 | setting the status and the body in either order gives the same response |
| Responses.SettersOverride | src/response.rs:25-34 | a second setting of the same field overrides the first |
| Responses.TextReply | src/response.rs:41-45 | a text reply becomes a 200 response with that text as body and no headers |
| Responses.FullReply | src/response.rs:47-51 | a response reply is unchanged |
| Framing.ReceivedGrows | src/lib.rs:86-95 | later reads only append, and each read that delivers data adds at least one byte |
| Framing.ScanStart | src/lib.rs:88-89 | the search starts four bytes before the end of what the earlier reads delivered, or at 0 when they delivered fewer |
| Framing.DelimiterAt | src/lib.rs:97 | once the head is complete, the absolute offset of the first delimiter in the buffer |
| Framing.DelimiterAfterScanStart | src/lib.rs:88-97 | the first delimiter never starts before the last read's scan start |
| Framing.HeadEnd | src/lib.rs:101-103 | the intended body start: the head it cuts off ends in its own first and only-first delimiter |
| Framing.AsWrittenBodyStart | src/lib.rs:97-101 | the body start as written, which is the intended one minus the last scan start |
| Framing.ReadHead | src/lib.rs:85-100 | success happens exactly at the first read after which the buffer holds a delimiter, with buffer, scan start and break value; failure is an `UnexpectedEof` at the first empty read, with no delimiter before it |
| Framing.HeadOutcomeUnique | src/lib.rs:85-100 | the head completes at one read at most, and a completed head rules out an early end of stream |
| Framing.NoDelimiterBefore | src/lib.rs:85-100 | no delimiter after `k` reads means none after fewer reads |
| Framing.TakeHeaders | src/lib.rs:114-117 | the kept headers are a prefix of the slots, none is empty, and they stop at the first empty slot or at the end |
| Framing.LastValue | src/lib.rs:112-121 | a remembered value belongs to some header with that name; `LastValueIsLastNamed` states that it is the last one, and that it is absent exactly when no header has the name |
| Framing.LastValueIsLastNamed | src/lib.rs:112-122 | the remembered Content-Length is absent exactly when no header has that name; otherwise it is the value of the last such header |
| Framing.ContentLengthIsCaseSensitive | src/lib.rs:119 | `content-length` is not recognised; `Content-Length` is |
| Framing.CollectHeaders | src/lib.rs:112-126 | the loop keeps exactly the headers before the first empty slot and ends holding the last Content-Length value |
| Framing.DecodeHead | src/lib.rs:103-138 | failures in the code's order: rejected head, incomplete head, unknown method; on success the method's name is the token, the path and headers are the tokenizer's, the version is the minor version's digits, the body is empty, and the length is present exactly when a Content-Length header is and is its parsed value; once the method is known, decoding succeeds exactly when there is no Content-Length or its last value parses, and fails with `InvalidContentLength` otherwise |
| Framing.ReadBody | src/lib.rs:139-149 | the body is what lies past the body start after the first read that leaves exactly `n` bytes there, so its length is `n`; otherwise `UnexpectedEof` at the first empty read |
| Framing.OverlongBodyNeverCompletes | src/lib.rs:139 | a buffer already holding more than `n` body bytes never completes the body, because the loop stops on equality only |
| Framing.BodyCompletionUnique | src/lib.rs:139-147 | the body completes at one read at most |
| Framing.AssembleRequest | src/lib.rs:103-154 | the decoding failure with no more reads; without Content-Length the request with an empty body; with length `n`, the request whose body is the first `n` bytes read past the body start, or `UnexpectedEof` |
| Framing.ReadAndParseRequest | src/lib.rs:81-155 | `UnexpectedEof` before the head completes, or the request assembled from the body start as written |
| Framing.ReadAndParseRequestCorrected | src/lib.rs:81-155 | the same, with the body starting right after the first delimiter |
| Framing.AsWrittenBodyStartIsHeadEndIff | src/lib.rs:89-101 | the two body starts agree exactly when the reads before the last one delivered at most four bytes |
| Framing.SplitFirstReadHasNoDelimiter | src/lib.rs:85-99 | the first read `GET / HTTP/1.1\r\n\r` holds no delimiter, so the loop reads again |
| Framing.SplitBothReadsDelimiter | src/lib.rs:95-97 | after the second read the buffer is the whole head and its first delimiter is at 14 |
| Framing.SplitDelimiterAsWritten | src/lib.rs:85-103 | with `GET / HTTP/1.1\r\n\r` then `\n`, the head completes on read 2 and the body starts at 18, but as written at 5, so only `GET /` reaches the parser |
| Framing.SplitDelimiterFailsAsWritten | src/lib.rs:101-110 | for those reads, as written, a parser that finds `GET /` incomplete makes the request fail with `RequestIncomplete` |
| Framing.SplitDelimiterCorrected | src/lib.rs:101-135 | for those reads, with the corrected start, the request is `GET /`, version `1`, with no headers and no body |
| Routing.Boxed | src/router.rs:22-31 | calling the stored handler on a request is the user handler's reply converted with `into_response` |
| Routing.BoxedCall | src/router.rs:31 | a stored handler runs the user handler and converts its reply with `into_response` |
| Routing.Router.constructor | src/router.rs:12-14 | no routes, an empty lookup, and the router invariant holds |
| Routing.Router.AddRoute | src/router.rs:34-50 | the route is appended and its key maps to its index; registering a key twice gives `DuplicateRoute`; otherwise old keys are kept and the invariant is preserved |
| Routing.Router.Add | src/router.rs:26-32 | `AddRoute` with the handler's reply converted to a response |
| Routing.Router.Get | src/router.rs:17-23 | `Add` under `GET` |
| Routing.Router.LookupHandler | src/router.rs:52-58 | a handler exactly when the key is mapped to an index in range, and it is that route's handler; under the invariant, exactly when the key is mapped |
| Routing.RegisteredRouteResolves | src/router.rs:34-58 | after one registration, its key finds its handler and every other key finds nothing |
| Routing.DuplicateRoutePanics | src/router.rs:44-47 | a second registration of the same method and path panics, whatever the handlers |
| Routing.SamePathTwoMethods | src/router.rs:42-47 | the key is the pair: one path under two methods is accepted, and each method finds its own handler |
| Server.StatusLine | src/lib.rs:69 | the status line is `HTTP/1.1 `, the status digits, ` OK` and the terminator, so 12 bytes plus the digits and the terminator |
| Server.HeaderLine | src/lib.rs:71 | a header line is the name, `: `, the value and the terminator |
| Server.HeaderLines | src/lib.rs:70-72 | no headers give no lines, and each header adds at least its separator and terminator |
| Server.Rendered | src/lib.rs:69-75 | the output starts with `HTTP/1.1 ` and ends with the body; `RenderedLayout`, `TextReplyRendered` and `FirstBlankLine` state its layout |
| Server.WriteResponse | src/lib.rs:61-78 | the bytes written are the status line, the header lines and the body, each line ended by LF CR as the code writes them |
| Server.RenderedLayout | src/lib.rs:69-75 | the output splits into head and body; it starts with `HTTP/1.1 ` and the status digits, which parse back to the status code |
| Server.HeadLinesNoLfCr | src/lib.rs:69-71 | with CRLF line ends and header fields free of line breaks, the status and header lines never contain LF directly followed by CR, and they end in CRLF |
| Server.FirstBlankLine | src/lib.rs:75 | a blank CRLF after such lines is the first delimiter, whatever body follows |
| Server.CrlfHeadEndsAtFirstDelimiter | src/lib.rs:61-78 | with CRLF line ends, a reader finds the first blank line exactly where the body starts |
| Server.RenderCorrected | src/lib.rs:61-78 | the CRLF rendering: a reader's first delimiter ends where the body starts, and the body follows it unchanged |
| Server.TextReplyRendered | src/lib.rs:69-75 | a text reply renders as the 200 status line, no header lines, the blank line and the text, for either line terminator |
| Server.HelloAsWritten | src/lib.rs:69-75 | as written, the text reply `hello` renders as `HTTP/1.1 200 OK\n\r\n\rhello` |
| Server.AsWrittenResponseHasNoBlankLine | src/lib.rs:69-75 | as written, the text reply `hello` renders as `HTTP/1.1 200 OK\n\r\n\rhello`, which holds no CRLF CRLF at all |
| Server.Dispatch | src/lib.rs:51-58 | the rendered response of the handler found under the request's method and path, or `UnknownRoute` when there is none; under the router invariant, `UnknownRoute` exactly when the key is unregistered |
| Server.HandleRequest | src/lib.rs:48-59 | a framing failure is passed on and nothing is written; otherwise the framed request is dispatched |
| Server.DispatchCorrected | src/lib.rs:51-58 | as `Dispatch`, with the response written with CRLF line ends |
| Server.HandleRequestCorrected | src/lib.rs:48-59 | as `HandleRequest`, with the body starting right after the first delimiter and CRLF line ends |
| Scenarios.EchoRepliesAgree | examples/echo.rs:9-15 | `echo1` and `echo2` produce the same response: status 200 with the request body |
| Scenarios.EchoHeadFramed | examples/echo.rs:4 | the echo head completes on the first read, where both body starts agree |
| Scenarios.EchoHeadDecoded | examples/echo.rs:4 | the echo head decodes to `GET /echo1` declaring five body bytes |
| Scenarios.EchoBodyRead | examples/echo.rs:9-11 | the body `hel`, `lo` completes at the third read exactly, and never hits the end of the stream |
| Scenarios.EchoRequestFramed | examples/echo.rs:1-11 | the echo reads frame to the request with body `hello` after three reads |
| Scenarios.EchoResponseWritten | examples/echo.rs:9-11 | `echo1` on body `hello` is written as `HTTP/1.1 200 OK\n\r\n\rhello` |
| Scenarios.ServeEcho | examples/echo.rs:1-11 | on the example router, the echo request is answered with its own body |
| Scenarios.ServeUnknownPath | examples/echo.rs:4 | without a `/echo1` route the same request panics with `UnknownRoute` |
| Scenarios.HelloWrittenCorrected | examples/borrowing.rs:7 | a handler answering `hello` is written as `HTTP/1.1 200 OK\r\n\r\nhello` with CRLF line ends |
| Scenarios.ServeSplitHead | src/lib.rs:48-59 | as written, the split-delimiter reads fail with `RequestIncomplete` and nothing is written |
| Scenarios.ServeSplitHeadCorrected | src/lib.rs:48-59 | corrected, the same reads are answered `HTTP/1.1 200 OK\r\n\r\nhello` |

## Left out

- `Server::serve`, `TcpListener` and the loop over incoming connections. The model serves
  one connection. "The stream" is a sequence of chunks, and running past the last chunk
  counts as the end of the stream.
- `stream.flush()` and the effect of partial writes. `write_response` is modelled as the
  bytes it writes, and a failing write is not modelled.
- The `httparse` tokenizer. It is an external crate, so it is a parameter for any tokenizer.
  That also leaves its `MAX_HEADERS` = 256 slot limit to the parameter: the tokenizer's
  slot list is taken as given.
- UTF-8 validation of the path, the header values and the body (`String::from_utf8(...)
  .unwrap()`). Bytes are carried through unchanged, so the panics on invalid UTF-8 are not
  modelled.
- HTTP method and path matching against `&'static str` keys is modelled as equality of
  byte sequences, which it is.
- The 2048-byte temporary read buffer. A chunk may have any length, so the bound of 2048
  bytes per read is not modelled.
- Handlers are `FnMut` closures that may keep captured state. The model takes them to be
  pure functions from a request to a reply, so mutable captured state is not modelled.
- The `Debug` implementation of `Route` and the `dbg!`/`println!` logging.
- `SmallVec` inlining. `HeaderMap` is modelled as a sequence of name/value pairs.
- `usize` is taken to be 64 bits wide.
- `buf.len() - body_start` in the body loop cannot underflow, because the body start never
  exceeds the buffer length (`AssembleRequest` requires it, and `HeadEnd` and
  `AsWrittenBodyStart` guarantee it). So no overflow panic is modelled.
- Numerals.ParseUsize: its own contract states only the `usize` bound. What it accepts and
  rejects is stated by `ParseDecimal`, `ParseLeadingZero`, `ParseRejectsNonDigit`,
  `ParseRejectsOverflow` and `ParseSignAndEmpty`.
- A failing read. `stream.read(..).unwrap()` (src/lib.rs:86 and src/lib.rs:140) panics on an
  I/O error; in the model every read succeeds and delivers its chunk, so that panic is not
  modelled.

## Findings

| source | as written | input that shows it | evidently intended | confidence | as-written member | corrected member |
|---|---|---|---|---|---|---|
| src/lib.rs:97-101 | the loop breaks with the delimiter's offset inside `buf[delimiter_check_start..]`, and the body start is that offset plus 4, not counted from the start of the buffer | reads `GET / HTTP/1.1\r\n\r` then `\n`: the scan start is 13 and the delimiter is at 14, so the body start is 5 instead of 18 and the parser sees only `GET /` | body start = `delimiter_check_start` + offset + 4, just past the first delimiter | high, not executed | Framing.ReadAndParseRequest, Framing.SplitDelimiterFailsAsWritten | Framing.ReadAndParseRequestCorrected, Framing.SplitDelimiterCorrected, Server.HandleRequestCorrected |
| src/lib.rs:69-75 | lines end in `\n\r` (LF CR), so the response has no CRLF CRLF blank line | the text reply `hello` is written as `HTTP/1.1 200 OK\n\r\n\rhello`, in which no CRLF CRLF occurs | lines end in `\r\n` as in section 2.1 of RFC 9112, so the blank line ends right where the body starts | high, not executed | Server.WriteResponse, Server.AsWrittenResponseHasNoBlankLine | Server.RenderCorrected, Server.CrlfHeadEndsAtFirstDelimiter, Server.DispatchCorrected |
