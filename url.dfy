/** The URL validator: a decision over the components that a URL parser
    splits a URL into (scheme, network location and path, the components of
    section 3 of RFC 3986), with an allow-list of the http and https
    schemes. The parser itself (`urllib.parse.urlparse`) is not modelled: its
    outcome on the input is a parameter. */
module Url {

  /** What `urlparse(url)` gives: the three components used, or the text of
      the exception it raised. */
  datatype ParseOutcome =
    | Parsed(scheme: string, netloc: string, path: string)
    | ParseError(cause: string)

  /** The dictionary `{valid, input, message, details}` of validate_url. */
  datatype UrlResult = UrlResult(valid: bool, input: string, message: string, details: map<string, string>)

  const ValidMessage := "Valid HTTP/HTTPS URL"
  const MissingDomainMessage := "Invalid URL: missing domain"
  const SchemeMessage := "Invalid URL scheme. Only HTTP/HTTPS allowed"
  const ParseErrorPrefix := "URL parsing error: "

  /** `parsed.scheme in ["http", "https"]`: exact, case-sensitive comparison. */
  predicate AllowedScheme(scheme: string) {
    scheme == "http" || scheme == "https"
  }

  /** `parsed.scheme or "none"` */
  function SchemeOrNone(scheme: string): (r: string)
    ensures r != ""
    ensures scheme != "" ==> r == scheme
  {
    if scheme == "" then "none" else scheme
  }

  /** `parsed.path or "/"` */
  function PathOrRoot(path: string): (r: string)
    ensures r != ""
    ensures path != "" ==> r == path
  {
    if path == "" then "/" else path
  }

  /** validate_url, given the parser's outcome on `url`. A success needs an
      allowed scheme and a network location; a missing network location is
      reported first, whatever the scheme; a parser exception is turned into
      a failure and never propagates. The input is echoed on every path. */
  function ValidateUrl(url: string, parsed: ParseOutcome): (r: UrlResult)
    ensures r.input == url
    ensures r.valid <==> parsed.Parsed? && AllowedScheme(parsed.scheme) && parsed.netloc != ""
    ensures r.valid ==>
              && r.message == ValidMessage
              && r.details.Keys == {"scheme", "netloc", "path"}
              && r.details["scheme"] == parsed.scheme
              && r.details["netloc"] == parsed.netloc
              && r.details["path"] == PathOrRoot(parsed.path)
    ensures parsed.Parsed? && parsed.netloc == "" ==>
              && r.message == MissingDomainMessage
              && r.details == map["scheme" := SchemeOrNone(parsed.scheme)]
    ensures parsed.Parsed? && parsed.netloc != "" && !AllowedScheme(parsed.scheme) ==>
              && r.message == SchemeMessage
              && r.details == map["scheme" := SchemeOrNone(parsed.scheme)]
    ensures parsed.ParseError? ==>
              && r.message == ParseErrorPrefix + parsed.cause
              && r.details == map[]
  {
    match parsed
    case ParseError(cause) =>
      UrlResult(false, url, ParseErrorPrefix + cause, map[])
    case Parsed(scheme, netloc, path) =>
      var isValid := AllowedScheme(scheme);
      var hasDomain := netloc != "";
      if isValid && hasDomain then
        UrlResult(true, url, ValidMessage, map["scheme" := scheme, "netloc" := netloc, "path" := PathOrRoot(path)])
      else if !hasDomain then
        UrlResult(false, url, MissingDomainMessage, map["scheme" := SchemeOrNone(scheme)])
      else
        UrlResult(false, url, SchemeMessage, map["scheme" := SchemeOrNone(scheme)])
  }

  /** The missing-domain check takes precedence over the scheme check: with
      no network location, the scheme only shows in `details`, and the path
      not at all. */
  lemma MissingDomainPrecedence(url: string, scheme1: string, scheme2: string, path1: string, path2: string)
    requires SchemeOrNone(scheme1) == SchemeOrNone(scheme2)
    ensures ValidateUrl(url, Parsed(scheme1, "", path1)) == ValidateUrl(url, Parsed(scheme2, "", path2))
    ensures ValidateUrl(url, Parsed("https", "", path1)).message == MissingDomainMessage
  {
  }

  /** After a successful parse, every failure carries exactly one detail,
      the scheme, and it is never empty; on success the path detail is never
      empty either. */
  lemma ParsedDetailsNeverEmpty(url: string, scheme: string, netloc: string, path: string)
    ensures var r := ValidateUrl(url, Parsed(scheme, netloc, path));
            && (!r.valid ==> r.details.Keys == {"scheme"} && r.details["scheme"] != "")
            && (r.valid ==> r.details["path"] != "" && r.details["scheme"] != "")
  {
  }

  /** The message alone tells which of the four paths was taken. */
  lemma MessageIdentifiesPath(url: string, parsed: ParseOutcome)
    ensures var r := ValidateUrl(url, parsed);
            && (r.message == ValidMessage <==> r.valid)
            && (r.message == MissingDomainMessage <==> parsed.Parsed? && parsed.netloc == "")
            && (r.message == SchemeMessage <==>
                  parsed.Parsed? && parsed.netloc != "" && !AllowedScheme(parsed.scheme))
            && (parsed.ParseError? <==> |r.message| >= |ParseErrorPrefix| && r.message[..|ParseErrorPrefix|] == ParseErrorPrefix)
  {
    var r := ValidateUrl(url, parsed);
    if parsed.ParseError? {
      assert r.message[..|ParseErrorPrefix|] == ParseErrorPrefix;
      assert r.message != ValidMessage by {
        assert ValidMessage[0] != ParseErrorPrefix[0];
      }
      assert r.message != MissingDomainMessage by {
        assert MissingDomainMessage[4] != ParseErrorPrefix[4];
      }
      assert r.message != SchemeMessage by {
        assert SchemeMessage[4] != ParseErrorPrefix[4];
      }
    } else {
      assert ValidMessage[0] != ParseErrorPrefix[0];
      assert MissingDomainMessage[4] != ParseErrorPrefix[4];
      assert SchemeMessage[4] != ParseErrorPrefix[4];
    }
  }

  /** The documentation's two examples and the missing-domain case, with the
      components `urlparse` gives for them. */
  lemma UrlExamples()
    ensures ValidateUrl("https://example.com/path", Parsed("https", "example.com", "/path"))
            == UrlResult(true, "https://example.com/path", "Valid HTTP/HTTPS URL",
                         map["scheme" := "https", "netloc" := "example.com", "path" := "/path"])
    ensures ValidateUrl("https://example.com", Parsed("https", "example.com", "")).details["path"] == "/"
    ensures ValidateUrl("ftp://example.com", Parsed("ftp", "example.com", ""))
            == UrlResult(false, "ftp://example.com", "Invalid URL scheme. Only HTTP/HTTPS allowed",
                         map["scheme" := "ftp"])
    ensures ValidateUrl("http://", Parsed("http", "", "")).message == "Invalid URL: missing domain"
    ensures ValidateUrl("example.com", Parsed("", "", "example.com")).details == map["scheme" := "none"]
  {
  }
}
