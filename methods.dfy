/** The request methods and their textual tokens (section 9.1 of RFC 9110: method tokens
    are case-sensitive). */
module Methods {
  import opened Prelude

  datatype Method = Connect | Delete | Get | Head | Options | Patch | Post | Put | Trace

  datatype MethodParseError = MethodParseError

  /** The token a method is displayed as: upper-case letters only. */
  function Name(m: Method): (n: Bytes)
    ensures |n| >= 3 && forall i | 0 <= i < |n| :: 'A' <= n[i] <= 'Z'
  {
    match m
    case Connect => "CONNECT"
    case Delete => "DELETE"
    case Get => "GET"
    case Head => "HEAD"
    case Options => "OPTIONS"
    case Patch => "PATCH"
    case Post => "POST"
    case Put => "PUT"
    case Trace => "TRACE"
  }

  /** Parses a method token: exactly one of the nine upper-case tokens, anything else is
      an error. */
  function FromStr(text: Bytes): (r: Result<Method, MethodParseError>)
    ensures r.Ok? ==> Name(r.value) == text
    ensures r.Err? ==> forall m: Method :: Name(m) != text
  {
    match text
    case "GET" => Ok(Get)
    case "POST" => Ok(Post)
    case "DELETE" => Ok(Delete)
    case "PUT" => Ok(Put)
    case "OPTIONS" => Ok(Options)
    case "CONNECT" => Ok(Connect)
    case "HEAD" => Ok(Head)
    case "PATCH" => Ok(Patch)
    case "TRACE" => Ok(Trace)
    case _ => Err(MethodParseError)
  }

  /** Parsing what a method displays as gives the method back. */
  lemma ParseName(m: Method)
    ensures FromStr(Name(m)) == Ok(m)
  {
  }

  /** Only a method's own token parses to it. */
  lemma ParsedTokenIsName(text: Bytes, m: Method)
    requires FromStr(text) == Ok(m)
    ensures Name(m) == text
  {
  }

  /** Any text that is not one of the nine tokens is rejected. */
  lemma ParseRejectsOtherText(text: Bytes)
    requires forall m: Method :: Name(m) != text
    ensures FromStr(text) == Err(MethodParseError)
  {
    match FromStr(text)
    case Ok(m) => ParsedTokenIsName(text, m);
    case Err(_) =>
  }

  /** Matching is case-sensitive: lower- or mixed-case tokens are errors. */
  lemma ParseIsCaseSensitive()
    ensures FromStr("get") == Err(MethodParseError)
    ensures FromStr("Get") == Err(MethodParseError)
    ensures FromStr("post") == Err(MethodParseError)
  {
  }

  /** Distinct methods display as distinct tokens. */
  lemma NameInjective(m1: Method, m2: Method)
    requires Name(m1) == Name(m2)
    ensures m1 == m2
  {
    ParseName(m1);
    ParseName(m2);
  }
}
