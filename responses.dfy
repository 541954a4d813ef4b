/** The response a handler builds: optional body, status code and headers, with
    functional setters. */
module Responses {
  import opened Prelude

  datatype Response = Response(body: Option<Bytes>, statusCode: u16, headers: seq<Header>)

  /** `Response::new()`: no body, status 200, no headers. */
  function NewResponse(): (r: Response)
    ensures r.body == None && r.statusCode == 200 && r.headers == []
  {
    Response(None, 200, [])
  }

  /** `Response::default()` is `Response::new()`. */
  function DefaultResponse(): (r: Response)
    ensures r.body == None && r.statusCode == 200 && r.headers == []
  {
    NewResponse()
  }

  /** `response.status_code(s)`. */
  function WithStatusCode(response: Response, statusCode: u16): (r: Response)
    ensures r.statusCode == statusCode && r.body == response.body && r.headers == response.headers
  {
    response.(statusCode := statusCode)
  }

  /** `response.body(b)`; a `String` argument becomes `Some(b)`. */
  function WithBody(response: Response, body: Option<Bytes>): (r: Response)
    ensures r.body == body && r.statusCode == response.statusCode && r.headers == response.headers
  {
    response.(body := body)
  }

  /** The values a handler may return: the two implementors of `IntoResponse`. */
  datatype Reply = Text(text: Bytes) | Full(response: Response)

  /** `IntoResponse::into_response`. */
  function IntoResponse(reply: Reply): (r: Response)
    ensures reply.Text? ==> r.body == Some(reply.text) && r.statusCode == 200 && r.headers == []
    ensures reply.Full? ==> r == reply.response
  {
    match reply
    case Text(s) => WithBody(NewResponse(), Some(s))
    case Full(r) => r
  }

  /** Setting the status code changes only the status code. */
  lemma StatusCodeSetsOnlyStatus(response: Response, statusCode: u16)
    ensures WithStatusCode(response, statusCode).statusCode == statusCode
    ensures WithStatusCode(response, statusCode).body == response.body
    ensures WithStatusCode(response, statusCode).headers == response.headers
  {
  }

  /** Setting the body changes only the body. */
  lemma BodySetsOnlyBody(response: Response, body: Option<Bytes>)
    ensures WithBody(response, body).body == body
    ensures WithBody(response, body).statusCode == response.statusCode
    ensures WithBody(response, body).headers == response.headers
  {
  }

  /** The two setters commute, and a second call of a setter overrides the first. */
  lemma SettersCommute(response: Response, statusCode: u16, body: Option<Bytes>)
    ensures WithBody(WithStatusCode(response, statusCode), body)
         == WithStatusCode(WithBody(response, body), statusCode)
  {
  }

  lemma SettersOverride(response: Response, s1: u16, s2: u16, b1: Option<Bytes>, b2: Option<Bytes>)
    ensures WithStatusCode(WithStatusCode(response, s1), s2) == WithStatusCode(response, s2)
    ensures WithBody(WithBody(response, b1), b2) == WithBody(response, b2)
  {
  }

  /** A text reply is a 200 response with that text as body and no headers. */
  lemma TextReply(text: Bytes)
    ensures IntoResponse(Text(text)) == Response(Some(text), 200, [])
  {
  }

  /** A full reply is passed through unchanged. */
  lemma FullReply(response: Response)
    ensures IntoResponse(Full(response)) == response
  {
  }
}
