/** The echo server of the repository's examples, served one request whose body arrives in
    two reads. */
module Scenarios {
  import opened Prelude
  import opened Utils
  import opened Numerals
  import opened Methods
  import opened Responses
  import opened Framing
  import opened Routing
  import opened Server

  /** `echo1`: reply with the request body as text. */
  function Echo1(request: Request): Reply {
    Text(request.body)
  }

  /** `echo2`: reply with a new response carrying the request body. */
  function Echo2(request: Request): Reply {
    Full(WithBody(NewResponse(), Some(request.body)))
  }

  const EchoHead: Bytes := "GET /echo1 HTTP/1.1\r\nContent-Length: 5\r\n\r\n"

  /** The head in one read, then the body as `hel` and `lo`. */
  const EchoChunks: seq<Bytes> := [EchoHead, "hel", "lo"]

  const EchoHeader: Header := Header("Content-Length", "5")

  /** What a parser makes of the echo head. */
  const EchoRaw: RawHead := RawHead("GET", "/echo1", 1, [EchoHeader])

  /** Both replies render to the same response. */
  lemma EchoRepliesAgree(request: Request)
    ensures IntoResponse(Echo1(request)) == IntoResponse(Echo2(request))
    ensures IntoResponse(Echo1(request)) == Response(Some(request.body), 200, [])
  {
    TextReply(request.body);
  }

  /** The request line and the header line of the echo head. */
  const EchoLines: Bytes := "GET /echo1 HTTP/1.1\r\nContent-Length: 5\r\n"

  lemma EchoLinesShape()
    ensures EchoHead == EchoLines + Crlf + []
    ensures NoLfCr(EchoLines) && EndsWithCrlf(EchoLines)
  {
    assert EchoLines[|EchoLines| - 2..] == Crlf;
  }

  /** The head completes on the first read, where the code as written and the corrected
      framing agree on the body start. */
  lemma EchoHeadFramed()
    ensures HeadFramedAt(EchoChunks, 1) && Received(EchoChunks, 1) == EchoHead
    ensures AsWrittenBodyStart(EchoChunks, 1) == HeadEnd(EchoChunks, 1) == |EchoHead|
  {
    var lines := EchoLines;
    var n := |EchoHead|;
    EchoLinesShape();
    FirstBlankLine(lines, []);
    assert Received(EchoChunks, 1) == EchoHead;
    assert DelimiterAt(EchoChunks, 1) == n - 4;
  }

  /** The head decodes to a GET of `/echo1` declaring five body bytes. */
  lemma EchoHeadDecoded(parse: HeadParser)
    requires parse(EchoHead) == Complete(EchoRaw)
    ensures DecodeHead(EchoHead, parse) == Ok(DecodedHead(Request(Method.Get, "/echo1", "1", [EchoHeader], []), Some(5)))
  {
    assert TakeHeaders([EchoHeader]) == [EchoHeader];
    assert LastValue([EchoHeader], ContentLengthName) == Some("5");
    assert Decimal(5) == "5" && Decimal(1) == "1";
    ParseDecimal(5);
  }

  /** Five bytes past the head are there after the third read and not before. */
  lemma EchoBodyRead(k: nat)
    ensures BodyCompleteAt(EchoChunks, 1, k, |EchoHead|, 5) <==> k == 3
    ensures forall e :: !BodyEofAt(EchoChunks, 1, e, |EchoHead|, 5)
    ensures Received(EchoChunks, 3) == EchoHead + "hello"
    ensures Received(EchoChunks, 3)[|EchoHead|..] == "hello"
  {
    assert Received(EchoChunks, 1) == EchoHead;
    assert Received(EchoChunks, 2) == EchoHead + "hel";
    assert Received(EchoChunks, 3) == EchoHead + "hello";
    assert BodyCompleteAt(EchoChunks, 1, 3, |EchoHead|, 5);
    if BodyCompleteAt(EchoChunks, 1, k, |EchoHead|, 5) {
      BodyCompletionUnique(EchoChunks, 1, k, 3, |EchoHead|, 5);
    }
  }

  /** Framed as written, the echo reads give the request with body `hello` after three
      reads. */
  lemma EchoRequestFramed(parse: HeadParser, r: Result<Request, Panic>, readCount: nat, headReads: nat)
    requires parse(EchoHead) == Complete(EchoRaw)
    requires FramedAsWritten(EchoChunks, parse, r, readCount, headReads)
    ensures r == Ok(Request(Method.Get, "/echo1", "1", [EchoHeader], "hello")) && readCount == 3
  {
    EchoHeadFramed();
    HeadOutcomeUnique(EchoChunks, 1, headReads, if headReads == 0 then 0 else headReads - 1);
    assert Received(EchoChunks, 1)[..|EchoHead|] == EchoHead;
    EchoHeadDecoded(parse);
    EchoBodyRead(readCount);
  }

  /** What `echo1` answers to a request with body `hello`, as the code writes it. */
  lemma EchoResponseWritten(request: Request)
    requires request.body == "hello"
    ensures Rendered(Boxed(Echo1)(request), LineEnd) == "HTTP/1.1 200 OK\n\r\n\rhello"
  {
    BoxedCall(Echo1, request);
    AsWrittenResponseHasNoBlankLine();
  }

  /** Serving the echo request on the example's router: the `/echo1` route answers with
      the body it was sent. */
  method ServeEcho(parse: HeadParser) returns (written: Result<Bytes, Panic>)
    requires parse(EchoHead) == Complete(EchoRaw)
    ensures written == Ok("HTTP/1.1 200 OK\n\r\n\rhello")
  {
    var router := new Router();
    var s1 := router.Get("/echo1", Echo1);
    var s2 := router.Get("/echo2", Echo2);
    assert (Method.Get, "/echo1") in router.lookup && router.lookup[(Method.Get, "/echo1")] == 0;
    assert router.routes[0].handler == Boxed(Echo1);
    var readCount;
    written, readCount := HandleRequest(router, EchoChunks, parse);
    ghost var request, headReads :| Handled(router, EchoChunks, parse, false, request, readCount, headReads, written);
    EchoRequestFramed(parse, request, readCount, headReads);
    EchoResponseWritten(request.value);
  }

  /** A request for a path nobody registered panics before anything is written. */
  method ServeUnknownPath(parse: HeadParser) returns (written: Result<Bytes, Panic>)
    requires parse(EchoHead) == Complete(EchoRaw)
    ensures written == Err(UnknownRoute)
  {
    var router := new Router();
    var s2 := router.Get("/echo2", Echo2);
    var readCount;
    written, readCount := HandleRequest(router, EchoChunks, parse);
    ghost var request, headReads :| Handled(router, EchoChunks, parse, false, request, readCount, headReads, written);
    EchoRequestFramed(parse, request, readCount, headReads);
  }

  /** A handler that always answers `hello`, like the greeting of the borrowing example. */
  function Hello(request: Request): Reply {
    Text("hello")
  }

  /** The `hello` reply written with CRLF line ends. */
  lemma HelloWrittenCorrected(request: Request)
    ensures RenderCorrected(Boxed(Hello)(request)) == "HTTP/1.1 200 OK\r\n\r\nhello"
  {
    BoxedCall(Hello, request);
    TextReplyRendered("hello", Crlf);
  }

  /** The server as written fails on a head whose delimiter is split between two reads,
      given a parser that finds `GET /` incomplete. */
  method ServeSplitHead(parse: HeadParser) returns (written: Result<Bytes, Panic>)
    requires parse("GET /") == Partial
    ensures written == Err(RequestIncomplete)
  {
    var router := new Router();
    var s := router.Get("/", Hello);
    var readCount;
    written, readCount := HandleRequest(router, SplitHead, parse);
    ghost var request, headReads :| Handled(router, SplitHead, parse, false, request, readCount, headReads, written);
    SplitDelimiterFailsAsWritten(parse, request, readCount, headReads);
  }

  /** The corrected server answers the same reads. */
  method ServeSplitHeadCorrected(parse: HeadParser) returns (written: Result<Bytes, Panic>)
    requires parse(SplitHeadBytes) == Complete(RawHead("GET", "/", 1, []))
    ensures written == Ok("HTTP/1.1 200 OK\r\n\r\nhello")
  {
    var router := new Router();
    var s := router.Get("/", Hello);
    assert (Method.Get, "/") in router.lookup && router.lookup[(Method.Get, "/")] == 0;
    assert router.routes[0].handler == Boxed(Hello);
    var readCount;
    written, readCount := HandleRequestCorrected(router, SplitHead, parse);
    ghost var request, headReads :| Handled(router, SplitHead, parse, true, request, readCount, headReads, written);
    SplitDelimiterCorrected(parse, request, readCount, headReads);
    HelloWrittenCorrected(request.value);
  }
}
