/** Serving one connection: frame the request, find its route, run the handler and
    write the response. */
module Server {
  import opened Prelude
  import opened Utils
  import opened Numerals
  import opened Responses
  import opened Framing
  import opened Routing

  /** The line terminator the code writes: LF, then CR. */
  const LineEnd: Bytes := "\n\r"

  /** The line terminator of section 2.1 of RFC 9112: CR, then LF. */
  const Crlf: Bytes := "\r\n"

  // ---------------------------------------------------------------------------------
  // The rendered response, for a given line terminator.
  // ---------------------------------------------------------------------------------

  /** The status line; the reason phrase is always `OK`. */
  function StatusLine(statusCode: u16, eol: Bytes): (line: Bytes)
    ensures |line| == 12 + |Decimal(statusCode)| + |eol|
  {
    "HTTP/1.1 " + Decimal(statusCode) + " OK" + eol
  }

  function HeaderLine(header: Header, eol: Bytes): (line: Bytes)
    ensures |line| == |header.name| + 2 + |header.value| + |eol|
  {
    header.name + ": " + header.value + eol
  }

  /** One line per header, in order. */
  function HeaderLines(headers: seq<Header>, eol: Bytes): (lines: Bytes)
    ensures lines == [] <==> headers == []
    ensures |lines| >= (|eol| + 2) * |headers|
  {
    if headers == [] then []
    else HeaderLines(headers[..|headers| - 1], eol) + HeaderLine(headers[|headers| - 1], eol)
  }

  function BodyText(response: Response): Bytes {
    match response.body
    case None => []
    case Some(b) => b
  }

  /** Everything before the body: status line, header lines and the blank line. */
  function ResponseHead(response: Response, eol: Bytes): Bytes {
    StatusLine(response.statusCode, eol) + HeaderLines(response.headers, eol) + eol
  }

  function Rendered(response: Response, eol: Bytes): (r: Bytes)
    ensures |r| >= 12 + |BodyText(response)|
    ensures r[..9] == "HTTP/1.1 "
    ensures r[|r| - |BodyText(response)|..] == BodyText(response)
  {
    ResponseHead(response, eol) + BodyText(response)
  }

  /** `write_response`: the status line, a line per header and then the blank line and
      the body (nothing if there is none), written one after the other. */
  method WriteResponse(response: Response) returns (written: Bytes)
    ensures written == Rendered(response, LineEnd)
  {
    written := "HTTP/1.1 " + Decimal(response.statusCode) + " OK\n\r";
    for i := 0 to |response.headers|
      invariant written == StatusLine(response.statusCode, LineEnd) + HeaderLines(response.headers[..i], LineEnd)
    {
      var header := response.headers[i];
      ghost var before := written;
      written := written + header.name + ": " + header.value + "\n\r";
      assert written == before + HeaderLine(header, LineEnd);
      assert response.headers[..i + 1][..i] == response.headers[..i];
    }
    assert response.headers[..|response.headers|] == response.headers;
    var body := match response.body case Some(b) => b case None => [];
    assert body == BodyText(response);
    written := written + "\n\r" + body;
  }

  /** The rendered bytes split into the head and the body, and the status code is written
      as its decimal digits, which parse back to it. */
  lemma RenderedLayout(response: Response, eol: Bytes)
    ensures Rendered(response, eol)[..|ResponseHead(response, eol)|] == ResponseHead(response, eol)
    ensures Rendered(response, eol)[|ResponseHead(response, eol)|..] == BodyText(response)
    ensures Rendered(response, eol)[..9] == "HTTP/1.1 "
    ensures Rendered(response, eol)[9..9 + |Decimal(response.statusCode)|] == Decimal(response.statusCode)
    ensures ParseUsize(Decimal(response.statusCode)) == Some(response.statusCode)
  {
    ParseDecimal(response.statusCode);
    var r := Rendered(response, eol);
    var s := StatusLine(response.statusCode, eol);
    assert r[..|s|] == s;
  }

  // ---------------------------------------------------------------------------------
  // Where a reader of the rendered bytes finds the end of the head.
  // ---------------------------------------------------------------------------------

  /** No byte is a CR or an LF. */
  predicate NoLineBreak(s: Bytes) {
    forall i | 0 <= i < |s| :: s[i] != '\r' && s[i] != '\n'
  }

  /** No LF is directly followed by a CR, so no blank line ends inside `s`. */
  predicate NoLfCr(s: Bytes) {
    forall i | 0 <= i < |s| - 1 :: !(s[i] == '\n' && s[i + 1] == '\r')
  }

  predicate EndsWithCrlf(s: Bytes) {
    |s| >= 2 && s[|s| - 2..] == Crlf
  }

  lemma NoLfCrConcat(a: Bytes, b: Bytes)
    requires NoLfCr(a) && NoLfCr(b)
    requires |a| > 0 && |b| > 0 ==> !(a[|a| - 1] == '\n' && b[0] == '\r')
    ensures NoLfCr(a + b)
  {
    forall i | 0 <= i < |a + b| - 1
      ensures !((a + b)[i] == '\n' && (a + b)[i + 1] == '\r')
    {
      if i >= |a| {
        assert (a + b)[i] == b[i - |a|] && (a + b)[i + 1] == b[i - |a| + 1];
      } else if i + 1 < |a| {
        assert (a + b)[i] == a[i] && (a + b)[i + 1] == a[i + 1];
      }
    }
  }

  /** A line of text without line breaks, terminated by CRLF. */
  lemma LineNoLfCr(text: Bytes)
    requires NoLineBreak(text)
    ensures NoLfCr(text + Crlf) && EndsWithCrlf(text + Crlf)
  {
    var line := text + Crlf;
    assert line[|line| - 2..] == Crlf;
    forall i | 0 <= i < |line| - 1
      ensures !(line[i] == '\n' && line[i + 1] == '\r')
    {
      if i < |text| {
        assert line[i] == text[i];
      }
    }
  }

  /** The header fields contain no line breaks. */
  predicate HeadersWithoutLineBreaks(headers: seq<Header>) {
    forall i | 0 <= i < |headers| :: NoLineBreak(headers[i].name) && NoLineBreak(headers[i].value)
  }

  /** The status line with CRLF has no LF-CR pair, ends in CRLF and starts with `H`. */
  lemma StatusLineNoLfCr(statusCode: u16)
    ensures var s := StatusLine(statusCode, Crlf); NoLfCr(s) && EndsWithCrlf(s) && s[0] == 'H'
  {
    var digits := Decimal(statusCode);
    var status := "HTTP/1.1 " + digits + " OK";
    assert NoLineBreak(status) by {
      forall i | 0 <= i < |status|
        ensures status[i] != '\r' && status[i] != '\n'
      {
        if 9 <= i < 9 + |digits| {
          assert status[i] == digits[i - 9];
        }
      }
    }
    LineNoLfCr(status);
    assert StatusLine(statusCode, Crlf) == status + Crlf;
  }

  /** A header line with CRLF, from fields without line breaks, has no LF-CR pair, ends
      in CRLF and starts with a byte other than CR. */
  lemma HeaderLineNoLfCr(header: Header)
    requires NoLineBreak(header.name) && NoLineBreak(header.value)
    ensures var text := header.name + ": " + header.value;
            && HeaderLine(header, Crlf) == text + Crlf
            && NoLfCr(text + Crlf) && EndsWithCrlf(text + Crlf) && (text + Crlf)[0] != '\r'
  {
    var text := header.name + ": " + header.value;
    assert NoLineBreak(text) by {
      forall i | 0 <= i < |text|
        ensures text[i] != '\r' && text[i] != '\n'
      {
        if i < |header.name| {
          assert text[i] == header.name[i];
        } else if i >= |header.name| + 2 {
          assert text[i] == header.value[i - |header.name| - 2];
        }
      }
    }
    LineNoLfCr(text);
    assert (text + Crlf)[0] == text[0];
  }

  /** With CRLF line ends the status and header lines hold no LF-CR pair and end in CRLF. */
  lemma {:induction false} HeadLinesNoLfCr(statusCode: u16, headers: seq<Header>)
    requires HeadersWithoutLineBreaks(headers)
    ensures var s := StatusLine(statusCode, Crlf) + HeaderLines(headers, Crlf);
            NoLfCr(s) && EndsWithCrlf(s) && s[0] == 'H'
  {
    StatusLineNoLfCr(statusCode);
    if headers != [] {
      var init, last := headers[..|headers| - 1], headers[|headers| - 1];
      HeadLinesNoLfCr(statusCode, init);
      var before := StatusLine(statusCode, Crlf) + HeaderLines(init, Crlf);
      var text := last.name + ": " + last.value;
      HeaderLineNoLfCr(last);
      NoLfCrConcat(before, text + Crlf);
      var s := before + (text + Crlf);
      assert HeaderLines(headers, Crlf) == HeaderLines(init, Crlf) + HeaderLine(last, Crlf);
      assert s == StatusLine(statusCode, Crlf) + HeaderLines(headers, Crlf);
      assert s[|s| - 2..] == (text + Crlf)[|text + Crlf| - 2..];
      assert s[0] == before[0];
    }
  }

  /** Bytes without an LF-CR pair, ending in CRLF, followed by CRLF: the first blank-line
      delimiter is the one just added, whatever follows. */
  lemma FirstBlankLine(lines: Bytes, rest: Bytes)
    requires NoLfCr(lines) && EndsWithCrlf(lines)
    ensures IsFirstOccurrence(lines + Crlf + rest, RequestDelimiter, |lines| - 2)
  {
    var s := lines + Crlf + rest;
    var n := |lines|;
    assert s[n - 2..n + 2] == RequestDelimiter by {
      assert s[n - 2] == lines[n - 2] && s[n - 1] == lines[n - 1];
      assert lines[n - 2..][0] == lines[n - 2] && lines[n - 2..][1] == lines[n - 1];
    }
    forall j | 0 <= j < n - 2
      ensures !ContainsAt(s, RequestDelimiter, j)
    {
      assert s[j..j + 4][1] == s[j + 1] && s[j..j + 4][2] == s[j + 2];
      assert s[j + 1] == lines[j + 1] && s[j + 2] == lines[j + 2];
    }
  }

  /** With CRLF line ends, and header fields free of line breaks, the first blank-line
      delimiter of the rendered bytes ends exactly where the body starts. */
  lemma CrlfHeadEndsAtFirstDelimiter(response: Response)
    ensures HeadersWithoutLineBreaks(response.headers) ==>
              Memmem(Rendered(response, Crlf), RequestDelimiter) == Some(|ResponseHead(response, Crlf)| - 4)
  {
    if HeadersWithoutLineBreaks(response.headers) {
      var lines := StatusLine(response.statusCode, Crlf) + HeaderLines(response.headers, Crlf);
      HeadLinesNoLfCr(response.statusCode, response.headers);
      FirstBlankLine(lines, BodyText(response));
      assert Rendered(response, Crlf) == lines + Crlf + BodyText(response);
    }
  }

  /** The response `write_response` would write with CRLF line ends. */
  function RenderCorrected(response: Response): (written: Bytes)
    ensures |written| == |ResponseHead(response, Crlf)| + |BodyText(response)|
    ensures HeadersWithoutLineBreaks(response.headers) ==>
              Memmem(written, RequestDelimiter) == Some(|ResponseHead(response, Crlf)| - 4)
    ensures written[|ResponseHead(response, Crlf)|..] == BodyText(response)
  {
    RenderedLayout(response, Crlf);
    CrlfHeadEndsAtFirstDelimiter(response);
    Rendered(response, Crlf)
  }

  /** A text reply renders as the 200 status line, no header lines, the blank line and
      the text, for either line terminator. */
  lemma TextReplyRendered(text: Bytes, eol: Bytes)
    ensures Rendered(IntoResponse(Text(text)), eol) == "HTTP/1.1 200 OK" + eol + eol + text
  {
    TextReply(text);
    assert Decimal(2) == "2";
    assert Decimal(20) == "20";
    assert Decimal(200) == "200";
  }

  /** The text reply `hello`, written with the LF-CR line ends of the code. */
  lemma HelloAsWritten()
    ensures Rendered(IntoResponse(Text("hello")), LineEnd) == "HTTP/1.1 200 OK\n\r\n\rhello"
  {
    TextReplyRendered("hello", LineEnd);
  }

  /** With the LF-CR line ends the code writes, a 200 response with body `hello` holds no
      CRLF CRLF at all, so a reader looking for the blank line never finds the body. */
  lemma AsWrittenResponseHasNoBlankLine()
    ensures Rendered(IntoResponse(Text("hello")), LineEnd) == "HTTP/1.1 200 OK\n\r\n\rhello"
    ensures Memmem(Rendered(IntoResponse(Text("hello")), LineEnd), RequestDelimiter) == None
  {
    HelloAsWritten();
    var s: Bytes := "HTTP/1.1 200 OK\n\r\n\rhello";
    forall j | 0 <= j < |s|
      ensures !ContainsAt(s, RequestDelimiter, j)
    {
      if j == 16 || j == 18 {
        assert s[j..j + 4][1] == s[j + 1] && s[j..j + 4][3] == s[j + 3];
      } else {
        FirstByteMismatch(s, RequestDelimiter, j);
      }
    }
  }

  // ---------------------------------------------------------------------------------
  // One connection.
  // ---------------------------------------------------------------------------------

  /** The outcome of routing a request: the rendered response of the handler indexed
      under the request's method and path, or a panic when there is none. */
  ghost predicate Dispatched(router: Router, request: Request, written: Result<Bytes, Panic>, eol: Bytes)
    reads router
  {
    var key := (request.httpMethod, request.path);
    if key in router.lookup && router.lookup[key] < |router.routes|
    then written == Ok(Rendered(router.routes[router.lookup[key]].handler(request), eol))
    else written == Err(UnknownRoute)
  }

  /** Look up the handler, panic if there is none, or run it and write its response. */
  method Dispatch(router: Router, request: Request) returns (written: Result<Bytes, Panic>)
    ensures Dispatched(router, request, written, LineEnd)
    ensures router.Valid() ==> (written == Err(UnknownRoute) <==> (request.httpMethod, request.path) !in router.lookup)
  {
    var handler := router.LookupHandler(request.httpMethod, request.path);
    match handler
    case None =>
      written := Err(UnknownRoute);
    case Some(h) =>
      var response := h(request);
      var bytes := WriteResponse(response);
      written := Ok(bytes);
  }

  /** The outcome of one connection: the request framed from the reads (as written, or
      corrected), then a framing failure passed on with nothing written, or the framed
      request dispatched with line terminator `eol`. */
  ghost predicate Handled(router: Router, chunks: seq<Bytes>, parse: HeadParser, corrected: bool,
                          request: Result<Request, Panic>, readCount: nat, headReads: nat,
                          written: Result<Bytes, Panic>)
    reads router
  {
    && (if corrected then FramedAtHeadEnd(chunks, parse, request, readCount, headReads)
        else FramedAsWritten(chunks, parse, request, readCount, headReads))
    && (request.Err? ==> written == Err(request.error))
    && (request.Ok? ==> Dispatched(router, request.value, written, if corrected then Crlf else LineEnd))
  }

  /** `handle_request`: read and parse the request, then dispatch it. Nothing is written
      when framing or routing panics. */
  method HandleRequest(router: Router, chunks: seq<Bytes>, parse: HeadParser)
    returns (written: Result<Bytes, Panic>, readCount: nat)
    ensures exists request, headReads :: Handled(router, chunks, parse, false, request, readCount, headReads, written)
  {
    var parsed;
    parsed, readCount := ReadAndParseRequest(chunks, parse);
    ghost var headReads :| FramedAsWritten(chunks, parse, parsed, readCount, headReads);
    if parsed.Err? {
      written := Err(parsed.error);
    } else {
      written := Dispatch(router, parsed.value);
    }
    assert Handled(router, chunks, parse, false, parsed, readCount, headReads, written);
  }

  /** Dispatch writing the response with CRLF line ends. */
  method DispatchCorrected(router: Router, request: Request) returns (written: Result<Bytes, Panic>)
    ensures Dispatched(router, request, written, Crlf)
    ensures router.Valid() ==> (written == Err(UnknownRoute) <==> (request.httpMethod, request.path) !in router.lookup)
  {
    var handler := router.LookupHandler(request.httpMethod, request.path);
    match handler
    case None =>
      written := Err(UnknownRoute);
    case Some(h) =>
      written := Ok(RenderCorrected(h(request)));
  }

  /** `handle_request` with both findings corrected: the body starts right after the first
      delimiter, and the response lines end in CRLF. */
  method HandleRequestCorrected(router: Router, chunks: seq<Bytes>, parse: HeadParser)
    returns (written: Result<Bytes, Panic>, readCount: nat)
    ensures exists request, headReads :: Handled(router, chunks, parse, true, request, readCount, headReads, written)
  {
    var parsed;
    parsed, readCount := ReadAndParseRequestCorrected(chunks, parse);
    ghost var headReads :| FramedAtHeadEnd(chunks, parse, parsed, readCount, headReads);
    if parsed.Err? {
      written := Err(parsed.error);
    } else {
      written := DispatchCorrected(router, parsed.value);
    }
    assert Handled(router, chunks, parse, true, parsed, readCount, headReads, written);
  }
}
