/** Request framing: reading a request head and an exact-length body from a transport
    that delivers bytes in chunks (the message format of section 2.1 of RFC 9112 and
    the Content-Length framing of its section 6.3). */
module Framing {
  import opened Prelude
  import opened Utils
  import opened Methods
  import opened Numerals

  /** The blank line that ends a request head. */
  const RequestDelimiter: Bytes := "\r\n\r\n"

  /** The only header name taken as the body length; matched exactly, so case matters. */
  const ContentLengthName: Bytes := "Content-Length"

  /** The filler the head tokenizer leaves in unused header slots. */
  const EmptyHeader: Header := Header([], [])

  datatype Request = Request(httpMethod: Method, path: Bytes, version: Bytes, headers: seq<Header>, body: Bytes)

  // ---------------------------------------------------------------------------------
  // The head tokenizer. It is foreign code, so the model takes it as a parameter.
  // ---------------------------------------------------------------------------------

  /** What the tokenizer extracts from a complete head; `version` is the minor version. */
  datatype RawHead = RawHead(httpMethod: Bytes, path: Bytes, version: u8, headers: seq<Header>)

  datatype ParseStatus = Invalid | Partial | Complete(head: RawHead)

  type HeadParser = Bytes -> ParseStatus

  // ---------------------------------------------------------------------------------
  // The transport: read number `i` returns `chunks[i]`, and an empty chunk (or reading
  // past the last chunk) is the end of the stream.
  // ---------------------------------------------------------------------------------

  function Chunk(chunks: seq<Bytes>, i: nat): Bytes {
    if i < |chunks| then chunks[i] else []
  }

  /** The bytes delivered by the first `k` reads, in order. */
  function Received(chunks: seq<Bytes>, k: nat): Bytes
    requires k <= |chunks|
  {
    if k == 0 then [] else Received(chunks, k - 1) + chunks[k - 1]
  }

  /** Reads `from` up to `to` all delivered data (none was the end of the stream). */
  predicate Delivered(chunks: seq<Bytes>, from: nat, to: nat) {
    from <= to <= |chunks| && forall i | from <= i < to :: |chunks[i]| > 0
  }

  /** Later reads only append: the bytes of `j` reads are a prefix of those of `k`, and
      each delivering read adds at least one byte. */
  lemma {:induction false} ReceivedGrows(chunks: seq<Bytes>, j: nat, k: nat)
    requires j <= k <= |chunks|
    ensures Received(chunks, j) <= Received(chunks, k)
    ensures Delivered(chunks, j, k) ==> |Received(chunks, j)| + (k - j) <= |Received(chunks, k)|
  {
    if j < k {
      ReceivedGrows(chunks, j, k - 1);
    }
  }

  // ---------------------------------------------------------------------------------
  // The head: what the delimiter loop must find, stated over whole prefixes.
  // ---------------------------------------------------------------------------------

  /** Where read number `k` (counting from 1) starts its search: four bytes before the
      end of what the earlier reads delivered, or at 0. */
  function ScanStart(chunks: seq<Bytes>, k: nat): (s: nat)
    requires 1 <= k <= |chunks|
    ensures s <= |Received(chunks, k - 1)| <= s + 4
    ensures |Received(chunks, k - 1)| >= 4 ==> s + 4 == |Received(chunks, k - 1)|
  {
    SaturatingSub(|Received(chunks, k - 1)|, 4)
  }

  /** The head is complete after exactly `k` reads: they all delivered data, their bytes
      contain the delimiter and those of the first `k - 1` reads do not. */
  ghost predicate HeadFramedAt(chunks: seq<Bytes>, k: nat) {
    && 1 <= k
    && Delivered(chunks, 0, k)
    && Occurs(Received(chunks, k), RequestDelimiter)
    && !Occurs(Received(chunks, k - 1), RequestDelimiter)
  }

  /** Read number `e` (counting from 0) is the end of the stream, and no delimiter has
      arrived before it. */
  ghost predicate HeadEofAt(chunks: seq<Bytes>, e: nat) {
    && Delivered(chunks, 0, e)
    && |Chunk(chunks, e)| == 0
    && !Occurs(Received(chunks, e), RequestDelimiter)
  }

  /** The absolute offset of the first delimiter once the head is complete. */
  ghost function DelimiterAt(chunks: seq<Bytes>, k: nat): (p: nat)
    requires HeadFramedAt(chunks, k)
    ensures IsFirstOccurrence(Received(chunks, k), RequestDelimiter, p)
  {
    Memmem(Received(chunks, k), RequestDelimiter).value
  }

  /** The first delimiter does not start before the last scan start. */
  lemma DelimiterAfterScanStart(chunks: seq<Bytes>, k: nat)
    requires HeadFramedAt(chunks, k)
    ensures ScanStart(chunks, k) <= DelimiterAt(chunks, k)
  {
    ReceivedGrows(chunks, k - 1, k);
    var before, buf := Received(chunks, k - 1), Received(chunks, k);
    forall j | 0 <= j < ScanStart(chunks, k)
      ensures !ContainsAt(buf, RequestDelimiter, j)
    {
      ContainsAtPrefix(before, buf, RequestDelimiter, j);
    }
  }

  /** Where the body starts: just past the first delimiter. */
  ghost function HeadEnd(chunks: seq<Bytes>, k: nat): (bodyStart: nat)
    requires HeadFramedAt(chunks, k)
    ensures bodyStart <= |Received(chunks, k)|
    ensures IsFirstOccurrence(Received(chunks, k)[..bodyStart], RequestDelimiter, bodyStart - 4)
  {
    var buf, p := Received(chunks, k), DelimiterAt(chunks, k);
    var head := buf[..p + 4];
    assert head[p..p + 4] == buf[p..p + 4];
    forall j | 0 <= j < p
      ensures !ContainsAt(head, RequestDelimiter, j)
    {
      ContainsAtPrefix(head, buf, RequestDelimiter, j);
    }
    p + 4
  }

  /** Where the code as written takes the body to start: the loop's result plus 4, where
      the result counts from the scan start rather than from the start of the buffer. */
  ghost function AsWrittenBodyStart(chunks: seq<Bytes>, k: nat): (bodyStart: nat)
    requires HeadFramedAt(chunks, k)
    ensures bodyStart + ScanStart(chunks, k) == HeadEnd(chunks, k)
  {
    DelimiterAfterScanStart(chunks, k);
    DelimiterAt(chunks, k) - ScanStart(chunks, k) + 4
  }

  /** The outcome of the delimiter loop: the buffer, the last scan start and the break
      value (an offset into `buf[checkStart..]`). */
  datatype HeadScan = HeadScan(buf: Bytes, checkStart: nat, position: nat)

  /** The delimiter loop: read, append, and search the appended region together with the
      four bytes before it, until the delimiter shows up or the stream ends. */
  method ReadHead(chunks: seq<Bytes>) returns (r: Result<HeadScan, Panic>, readCount: nat)
    ensures r.Ok? ==> && HeadFramedAt(chunks, readCount)
                      && r.value.buf == Received(chunks, readCount)
                      && r.value.checkStart == ScanStart(chunks, readCount)
                      && r.value.checkStart + r.value.position == DelimiterAt(chunks, readCount)
    ensures r.Err? ==> r.error == UnexpectedEof && 1 <= readCount && HeadEofAt(chunks, readCount - 1)
  {
    var buf: Bytes := [];
    readCount := 0;
    while true
      invariant readCount <= |chunks| && buf == Received(chunks, readCount) && Delivered(chunks, 0, readCount)
      invariant forall j :: !ContainsAt(buf, RequestDelimiter, j)
      decreases |chunks| - readCount
    {
      var chunk := Chunk(chunks, readCount);
      readCount := readCount + 1;
      var bufLen := |buf|;
      var checkStart := SaturatingSub(bufLen, 4);
      if |chunk| == 0 {
        return Err(UnexpectedEof), readCount;
      }
      var before := buf;
      buf := buf + chunk;
      var found := Memmem(buf[checkStart..], RequestDelimiter);
      if found.Some? {
        MemmemInSuffix(buf, RequestDelimiter, checkStart);
        forall j | 0 <= j < checkStart
          ensures !ContainsAt(buf, RequestDelimiter, j)
        {
          ContainsAtPrefix(before, buf, RequestDelimiter, j);
        }
        return Ok(HeadScan(buf, checkStart, found.value)), readCount;
      }
      MemmemNoneInSuffix(before, chunk, RequestDelimiter, checkStart);
    }
  }

  /** Framing completes at one read at most, and never both completes and ends early. */
  lemma HeadOutcomeUnique(chunks: seq<Bytes>, k: nat, k': nat, e: nat)
    requires HeadFramedAt(chunks, k)
    ensures HeadFramedAt(chunks, k') ==> k' == k
    ensures !HeadEofAt(chunks, e)
  {
    forall j | 1 <= j < k
      ensures !HeadFramedAt(chunks, j)
    {
      NoDelimiterBefore(chunks, j, k - 1);
    }
    if HeadFramedAt(chunks, k') && k < k' {
      NoDelimiterBefore(chunks, k, k' - 1);
    }
    if e >= k && Delivered(chunks, 0, e) {
      ReceivedGrows(chunks, k, e);
      var p := DelimiterAt(chunks, k);
      ContainsAtPrefix(Received(chunks, k), Received(chunks, e), RequestDelimiter, p);
    }
  }

  /** No delimiter in the bytes of `k` reads means none in the bytes of fewer reads. */
  lemma NoDelimiterBefore(chunks: seq<Bytes>, j: nat, k: nat)
    requires j <= k <= |chunks| && !Occurs(Received(chunks, k), RequestDelimiter)
    ensures !Occurs(Received(chunks, j), RequestDelimiter)
  {
    ReceivedGrows(chunks, j, k);
    forall i | 0 <= i && i + 4 <= |Received(chunks, j)|
      ensures !ContainsAt(Received(chunks, j), RequestDelimiter, i)
    {
      ContainsAtPrefix(Received(chunks, j), Received(chunks, k), RequestDelimiter, i);
    }
  }

  // ---------------------------------------------------------------------------------
  // Headers and Content-Length.
  // ---------------------------------------------------------------------------------

  /** The tokenizer's headers up to the first empty slot, in order, duplicates kept. */
  function TakeHeaders(raw: seq<Header>): (taken: seq<Header>)
    ensures taken <= raw
    ensures forall i | 0 <= i < |taken| :: taken[i] != EmptyHeader
    ensures |taken| == |raw| || raw[|taken|] == EmptyHeader
  {
    if raw == [] || raw[0] == EmptyHeader then [] else [raw[0]] + TakeHeaders(raw[1..])
  }

  /** The value of the last header called exactly `name`. */
  function LastValue(headers: seq<Header>, name: Bytes): (r: Option<Bytes>)
    ensures r.Some? ==> exists i | 0 <= i < |headers| :: headers[i].name == name && headers[i].value == r.value
  {
    if headers == [] then None
    else if headers[|headers| - 1].name == name then Some(headers[|headers| - 1].value)
    else LastValue(headers[..|headers| - 1], name)
  }

  /** Header number `i` is called `name` and no later header is. */
  predicate IsLastNamed(headers: seq<Header>, name: Bytes, i: int) {
    0 <= i < |headers| && headers[i].name == name
    && forall j | i < j < |headers| :: headers[j].name != name
  }

  /** `LastValue` is absent exactly when no header has the name, and otherwise it is the
      value of the last header with that name. */
  lemma {:induction false} LastValueIsLastNamed(headers: seq<Header>, name: Bytes)
    ensures LastValue(headers, name) == None <==> forall i | 0 <= i < |headers| :: headers[i].name != name
    ensures forall i | IsLastNamed(headers, name, i) :: LastValue(headers, name) == Some(headers[i].value)
  {
    if headers != [] {
      var init := headers[..|headers| - 1];
      if headers[|headers| - 1].name != name {
        LastValueIsLastNamed(init, name);
        assert LastValue(headers, name) == LastValue(init, name);
        forall i | IsLastNamed(headers, name, i)
          ensures IsLastNamed(init, name, i)
        {
          assert i < |headers| - 1;
        }
      }
    }
  }

  /** Header names are matched exactly: a lower-case `content-length` is not seen. */
  lemma ContentLengthIsCaseSensitive(value: Bytes)
    ensures LastValue([Header("content-length", value)], ContentLengthName) == None
    ensures LastValue([Header("Content-Length", value)], ContentLengthName) == Some(value)
  {
  }

  /** The header loop: copy the headers up to the first empty slot, remembering the value
      of each `Content-Length` header as it goes by. */
  method CollectHeaders(raw: seq<Header>) returns (headers: seq<Header>, contentLength: Option<Bytes>)
    ensures headers == TakeHeaders(raw)
    ensures contentLength == LastValue(headers, ContentLengthName)
  {
    headers, contentLength := [], None;
    var i := 0;
    while i < |raw| && raw[i] != EmptyHeader
      invariant 0 <= i <= |raw| && headers == raw[..i]
      invariant forall j | 0 <= j < i :: raw[j] != EmptyHeader
      invariant contentLength == LastValue(headers, ContentLengthName)
    {
      var header := raw[i];
      if header.name == ContentLengthName {
        contentLength := Some(header.value);
      }
      headers := headers + [header];
      assert headers[..|headers| - 1] == raw[..i];
      i := i + 1;
    }
  }

  /** The decoded head: the request with an empty body, and the declared body length. */
  datatype DecodedHead = DecodedHead(request: Request, contentLength: Option<nat>)

  /** Decoding a head, with the failures in the order the code meets them: the tokenizer
      rejects it, reports it incomplete, the method is unknown, the length is not a number. */
  function DecodeHead(head: Bytes, parse: HeadParser): (r: Result<DecodedHead, Panic>)
    ensures r.Ok? ==> parse(head).Complete? && Name(r.value.request.httpMethod) == parse(head).head.httpMethod
    ensures r.Ok? ==> r.value.request.body == [] && r.value.request.path == parse(head).head.path
    ensures r.Ok? ==> (r.value.contentLength.None? <==>
                       forall i | 0 <= i < |r.value.request.headers| ::
                         r.value.request.headers[i].name != ContentLengthName)
    ensures r.Ok? ==> && r.value.request.headers == TakeHeaders(parse(head).head.headers)
                      && r.value.request.version == Decimal(parse(head).head.version)
    ensures r.Ok? && r.value.contentLength.Some? ==>
              && LastValue(r.value.request.headers, ContentLengthName).Some?
              && ParseUsize(LastValue(r.value.request.headers, ContentLengthName).value) == r.value.contentLength
    ensures parse(head).Invalid? ==> r == Err(RequestParseFailed)
    ensures parse(head).Partial? ==> r == Err(RequestIncomplete)
    ensures parse(head).Complete? && FromStr(parse(head).head.httpMethod).Err? ==> r == Err(UnknownMethod)
    ensures parse(head).Complete? && FromStr(parse(head).head.httpMethod).Ok? ==>
              var length := LastValue(TakeHeaders(parse(head).head.headers), ContentLengthName);
              (r.Ok? <==> length.None? || ParseUsize(length.value).Some?)
    ensures parse(head).Complete? && FromStr(parse(head).head.httpMethod).Ok? ==>
              var length := LastValue(TakeHeaders(parse(head).head.headers), ContentLengthName);
              (length.Some? && ParseUsize(length.value).None? ==> r == Err(InvalidContentLength))
  {
    match parse(head)
    case Invalid => Err(RequestParseFailed)
    case Partial => Err(RequestIncomplete)
    case Complete(raw) =>
      var headers := TakeHeaders(raw.headers);
      match FromStr(raw.httpMethod)
      case Err(_) => Err(UnknownMethod)
      case Ok(m) =>
        ParsedTokenIsName(raw.httpMethod, m);
        LastValueIsLastNamed(headers, ContentLengthName);
        var request := Request(m, raw.path, Decimal(raw.version), headers, []);
        match LastValue(headers, ContentLengthName)
        case None => Ok(DecodedHead(request, None))
        case Some(text) =>
          match ParseUsize(text)
          case None => Err(InvalidContentLength)
          case Some(n) => Ok(DecodedHead(request, Some(n)))
  }

  // ---------------------------------------------------------------------------------
  // The body: read until exactly `n` bytes lie past the body start.
  // ---------------------------------------------------------------------------------

  /** The body is complete after read `k`: reads `from` to `k` delivered data, and `k`
      is the first of them after which exactly `n` bytes lie past `bodyStart`. */
  predicate BodyCompleteAt(chunks: seq<Bytes>, from: nat, k: nat, bodyStart: nat, n: nat) {
    && Delivered(chunks, from, k)
    && |Received(chunks, k)| - bodyStart == n
    && forall j | from <= j < k :: |Received(chunks, j)| - bodyStart != n
  }

  /** Read `e` ends the stream before exactly `n` bytes lie past `bodyStart`. */
  predicate BodyEofAt(chunks: seq<Bytes>, from: nat, e: nat, bodyStart: nat, n: nat) {
    && Delivered(chunks, from, e)
    && |Chunk(chunks, e)| == 0
    && forall j | from <= j <= e :: |Received(chunks, j)| - bodyStart != n
  }

  /** The body loop. It stops only on exact equality, so a buffer that already holds more
      than `n` body bytes is never accepted. */
  method ReadBody(chunks: seq<Bytes>, from: nat, buf: Bytes, bodyStart: nat, n: nat)
    returns (r: Result<Bytes, Panic>, readCount: nat)
    requires from <= |chunks| && buf == Received(chunks, from) && bodyStart <= |buf|
    ensures r.Ok? ==> && BodyCompleteAt(chunks, from, readCount, bodyStart, n)
                      && r.value == Received(chunks, readCount)[bodyStart..]
                      && |r.value| == n
    ensures r.Err? ==> r.error == UnexpectedEof && from < readCount && BodyEofAt(chunks, from, readCount - 1, bodyStart, n)
  {
    var b := buf;
    readCount := from;
    while |b| - bodyStart != n
      invariant from <= readCount <= |chunks| && b == Received(chunks, readCount)
      invariant Delivered(chunks, from, readCount)
      invariant forall j | from <= j < readCount :: |Received(chunks, j)| - bodyStart != n
      invariant bodyStart <= |b|
      decreases |chunks| - readCount
    {
      var chunk := Chunk(chunks, readCount);
      readCount := readCount + 1;
      if |chunk| == 0 {
        return Err(UnexpectedEof), readCount;
      }
      b := b + chunk;
    }
    r := Ok(b[bodyStart..]);
  }

  /** A buffer that already holds more than `n` body bytes never completes the body. */
  lemma OverlongBodyNeverCompletes(chunks: seq<Bytes>, from: nat, k: nat, bodyStart: nat, n: nat)
    requires from <= |chunks| && |Received(chunks, from)| - bodyStart > n
    ensures !BodyCompleteAt(chunks, from, k, bodyStart, n)
  {
    if from <= k <= |chunks| {
      ReceivedGrows(chunks, from, k);
    }
  }

  /** The body completes at one read at most. */
  lemma BodyCompletionUnique(chunks: seq<Bytes>, from: nat, k: nat, k': nat, bodyStart: nat, n: nat)
    requires BodyCompleteAt(chunks, from, k, bodyStart, n) && BodyCompleteAt(chunks, from, k', bodyStart, n)
    ensures k == k'
  {
  }

  // ---------------------------------------------------------------------------------
  // The whole request.
  // ---------------------------------------------------------------------------------

  /** What assembling a request from a complete head should give, given the reads done so
      far and where the body starts: the decoding failure; or, without Content-Length, the
      request with an empty body and no further read; or, with Content-Length `n`, the
      body read to exactly `n` bytes, or the end of the stream before that. */
  ghost predicate Assembled(chunks: seq<Bytes>, from: nat, bodyStart: nat, parse: HeadParser,
                            r: Result<Request, Panic>, readCount: nat)
    requires from <= |chunks| && bodyStart <= |Received(chunks, from)|
  {
    match DecodeHead(Received(chunks, from)[..bodyStart], parse)
    case Err(e) => r == Err(e) && readCount == from
    case Ok(d) =>
      match d.contentLength
      case None => r == Ok(d.request) && readCount == from
      case Some(n) =>
        || (&& BodyCompleteAt(chunks, from, readCount, bodyStart, n)
            && r == Ok(d.request.(body := Received(chunks, readCount)[bodyStart..])))
        || (r == Err(UnexpectedEof) && from < readCount && BodyEofAt(chunks, from, readCount - 1, bodyStart, n))
  }

  /** Everything after the delimiter loop: split the buffer at `bodyStart`, decode the
      head, and read the body the head declares. */
  method AssembleRequest(chunks: seq<Bytes>, from: nat, buf: Bytes, bodyStart: nat, parse: HeadParser)
    returns (r: Result<Request, Panic>, readCount: nat)
    requires from <= |chunks| && buf == Received(chunks, from) && bodyStart <= |buf|
    ensures Assembled(chunks, from, bodyStart, parse, r, readCount)
  {
    readCount := from;
    var head := buf[..bodyStart];
    match parse(head)
    case Invalid =>
      r := Err(RequestParseFailed);
    case Partial =>
      r := Err(RequestIncomplete);
    case Complete(raw) =>
      var headers, contentLength := CollectHeaders(raw.headers);
      var parsedMethod := FromStr(raw.httpMethod);
      if parsedMethod.Err? {
        return Err(UnknownMethod), readCount;
      }
      var request := Request(parsedMethod.value, raw.path, Decimal(raw.version), headers, []);
      match contentLength
      case None =>
        r := Ok(request);
      case Some(text) =>
        var n := ParseUsize(text);
        if n.None? {
          return Err(InvalidContentLength), readCount;
        }
        var body;
        body, readCount := ReadBody(chunks, from, buf, bodyStart, n.value);
        match body
        case Ok(b) => r := Ok(request.(body := b));
        case Err(e) => r := Err(e);
  }

  /** The result of reading one request with the code as written: the stream ended before
      the head, or the head completed after `headReads` reads and the rest was assembled
      from the as-written body start. */
  ghost predicate FramedAsWritten(chunks: seq<Bytes>, parse: HeadParser, r: Result<Request, Panic>,
                                  readCount: nat, headReads: nat)
  {
    || (r == Err(UnexpectedEof) && readCount == headReads && 1 <= headReads && HeadEofAt(chunks, headReads - 1))
    || (&& HeadFramedAt(chunks, headReads)
        && Assembled(chunks, headReads, AsWrittenBodyStart(chunks, headReads), parse, r, readCount))
  }

  /** The same with the body starting just past the first delimiter. */
  ghost predicate FramedAtHeadEnd(chunks: seq<Bytes>, parse: HeadParser, r: Result<Request, Panic>,
                                  readCount: nat, headReads: nat)
  {
    || (r == Err(UnexpectedEof) && readCount == headReads && 1 <= headReads && HeadEofAt(chunks, headReads - 1))
    || (&& HeadFramedAt(chunks, headReads)
        && Assembled(chunks, headReads, HeadEnd(chunks, headReads), parse, r, readCount))
  }

  /** `read_and_parse_request` as written: the body starts at the delimiter loop's result
      plus 4. */
  method ReadAndParseRequest(chunks: seq<Bytes>, parse: HeadParser)
    returns (r: Result<Request, Panic>, readCount: nat)
    ensures exists headReads :: FramedAsWritten(chunks, parse, r, readCount, headReads)
  {
    var scan;
    scan, readCount := ReadHead(chunks);
    ghost var headReads := readCount;
    if scan.Err? {
      assert FramedAsWritten(chunks, parse, Err(scan.error), readCount, headReads);
      return Err(scan.error), readCount;
    }
    var bodyStart := scan.value.position + 4;
    r, readCount := AssembleRequest(chunks, readCount, scan.value.buf, bodyStart, parse);
    assert FramedAsWritten(chunks, parse, r, readCount, headReads);
  }

  /** `read_and_parse_request` with the body start counted from the start of the buffer. */
  method ReadAndParseRequestCorrected(chunks: seq<Bytes>, parse: HeadParser)
    returns (r: Result<Request, Panic>, readCount: nat)
    ensures exists headReads :: FramedAtHeadEnd(chunks, parse, r, readCount, headReads)
  {
    var scan;
    scan, readCount := ReadHead(chunks);
    ghost var headReads := readCount;
    if scan.Err? {
      assert FramedAtHeadEnd(chunks, parse, Err(scan.error), readCount, headReads);
      return Err(scan.error), readCount;
    }
    var bodyStart := scan.value.checkStart + scan.value.position + 4;
    r, readCount := AssembleRequest(chunks, readCount, scan.value.buf, bodyStart, parse);
    assert FramedAtHeadEnd(chunks, parse, r, readCount, headReads);
  }

  /** The code as written frames the head correctly when the delimiter arrives within the
      first four bytes' reach, that is when the earlier reads delivered at most four bytes,
      and misplaces the body start otherwise. */
  lemma AsWrittenBodyStartIsHeadEndIff(chunks: seq<Bytes>, k: nat)
    requires HeadFramedAt(chunks, k)
    ensures AsWrittenBodyStart(chunks, k) == HeadEnd(chunks, k) <==> |Received(chunks, k - 1)| <= 4
  {
  }

  // ---------------------------------------------------------------------------------
  // A head whose delimiter is split between two reads.
  // ---------------------------------------------------------------------------------

  /** The first read ends after `\r\n\r`, the second brings the final `\n`. */
  const SplitHead: seq<Bytes> := ["GET / HTTP/1.1\r\n\r", "\n"]

  /** The whole head of `SplitHead`. */
  const SplitHeadBytes: Bytes := "GET / HTTP/1.1\r\n\r\n"

  /** The first read of `SplitHead` holds no delimiter. */
  lemma SplitFirstReadHasNoDelimiter()
    ensures Received(SplitHead, 1) == "GET / HTTP/1.1\r\n\r"
    ensures !Occurs(Received(SplitHead, 1), RequestDelimiter)
  {
    var first: Bytes := "GET / HTTP/1.1\r\n\r";
    assert Received(SplitHead, 1) == first;
    forall j
      ensures !ContainsAt(first, RequestDelimiter, j)
    {
      if 0 <= j < 14 {
        FirstByteMismatch(first, RequestDelimiter, j);
      }
    }
  }

  /** After both reads of `SplitHead` the first delimiter is at 14. */
  lemma SplitBothReadsDelimiter()
    ensures Received(SplitHead, 2) == SplitHeadBytes
    ensures IsFirstOccurrence(SplitHeadBytes, RequestDelimiter, 14)
  {
    var both := SplitHeadBytes;
    SplitFirstReadHasNoDelimiter();
    assert Received(SplitHead, 2) == both;
    assert both[14..18] == RequestDelimiter;
    forall j | 0 <= j < 14
      ensures !ContainsAt(both, RequestDelimiter, j)
    {
      FirstByteMismatch(both, RequestDelimiter, j);
    }
  }

  /** The head completes on the second read with the delimiter at 14, so the body starts
      at 18; the code as written counts the break value from the scan start 13 and takes
      the head to be the first five bytes only. */
  lemma SplitDelimiterAsWritten()
    ensures HeadFramedAt(SplitHead, 2) && Received(SplitHead, 2) == SplitHeadBytes
    ensures HeadEnd(SplitHead, 2) == 18
    ensures AsWrittenBodyStart(SplitHead, 2) == 5
    ensures Received(SplitHead, 2)[..AsWrittenBodyStart(SplitHead, 2)] == "GET /"
  {
    SplitFirstReadHasNoDelimiter();
    SplitBothReadsDelimiter();
    assert ContainsAt(SplitHeadBytes, RequestDelimiter, 14);
    assert DelimiterAt(SplitHead, 2) == 14;
  }

  /** Framed as written, the split head reaches the parser cut after `GET /`; a parser that
      reports those five bytes incomplete makes the request fail, whatever it says about
      the whole head. */
  lemma SplitDelimiterFailsAsWritten(parse: HeadParser, r: Result<Request, Panic>, readCount: nat, headReads: nat)
    requires parse("GET /") == Partial
    requires FramedAsWritten(SplitHead, parse, r, readCount, headReads)
    ensures r == Err(RequestIncomplete) && readCount == 2
  {
    SplitDelimiterAsWritten();
    HeadOutcomeUnique(SplitHead, 2, headReads, if headReads == 0 then 0 else headReads - 1);
  }

  /** Framed at the head end, the same reads give the request the parser reads off the
      whole head. */
  lemma SplitDelimiterCorrected(parse: HeadParser, r: Result<Request, Panic>, readCount: nat, headReads: nat)
    requires parse(SplitHeadBytes) == Complete(RawHead("GET", "/", 1, []))
    requires FramedAtHeadEnd(SplitHead, parse, r, readCount, headReads)
    ensures r == Ok(Request(Method.Get, "/", "1", [], [])) && readCount == 2
  {
    SplitDelimiterAsWritten();
    HeadOutcomeUnique(SplitHead, 2, headReads, if headReads == 0 then 0 else headReads - 1);
    assert Received(SplitHead, 2)[..18] == SplitHeadBytes;
    assert Decimal(1) == "1";
  }
}
