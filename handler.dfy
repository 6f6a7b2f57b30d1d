/**
 * The request handler of index.ts lines 15-60 without its HTTP plumbing: the
 * requested `url`, the outcome of fetching it and the result of parsing the
 * body are inputs, and the result is the extracted content or the error that
 * the catch block reports.
 */
module Handler {
  import opened Wrappers
  import opened Dom
  import opened Errors
  import opened Extractor
  import opened Cleanup

  /** What `fetch(url, ...)` gives: a response, or a rejection with a message. */
  datatype FetchOutcome =
    | Response(status: int, statusText: string, body: string)
    | NetworkError(message: string)

  /** `response.ok`: the status is in the range 200-299. */
  predicate Ok(status: int) {
    200 <= status <= 299
  }

  /** The JSON body of a successful reply: `{ content, url }`. */
  datatype Extracted = Extracted(content: string, url: string)

  /**
   * `url` is the request's `url` field (`None` when absent), `fetch` the
   * network and `parse` the HTML parser (`None` for a null document).
   */
  function FetchUrlContent(url: Option<string>, fetch: string -> FetchOutcome,
                           parse: string -> Option<seq<Node>>): (r: Result<Extracted, Error>)
    ensures r == Failure(UrlRequired) <==> url.None? || url.value == []
    ensures r.Success? ==> r.value.url == url.value && IsNormalized(r.value.content)
  {
    if url.None? || url.value == [] then Failure(UrlRequired)
    else
      match fetch(url.value)
      case NetworkError(m) => Failure(TransportFailed(m))
      case Response(status, statusText, body) =>
        if !Ok(status) then Failure(FetchFailed(statusText))
        else
          match parse(body)
          case None => Failure(ParseFailed)
          case Some(doc) =>
            match Extract(doc)
            case Failure(e) => Failure(e)
            case Success(content) => Success(Extracted(content, url.value))
  }

  // ---------------------------------------------------------------------------

  /**
   * The request is rejected with "URL is required" exactly when `url` is
   * missing or empty, and then before anything is fetched: the network and the
   * parser play no part.
   */
  lemma UrlRequiredFirst(url: Option<string>, fetch: string -> FetchOutcome, parse: string -> Option<seq<Node>>,
                         fetch2: string -> FetchOutcome, parse2: string -> Option<seq<Node>>)
    ensures FetchUrlContent(url, fetch, parse) == Failure(UrlRequired) <==> url.None? || url.value == []
    ensures url.None? || url.value == [] ==> FetchUrlContent(url, fetch2, parse2) == FetchUrlContent(url, fetch, parse)
  {
    if url.Some? && url.value != [] {
      match fetch(url.value)
      case NetworkError(m) =>
      case Response(status, statusText, body) =>
        if Ok(status) {
          match parse(body)
          case None =>
          case Some(doc) =>
            ExtractFailsOnlyWithoutContentNode(doc);
        }
    }
  }

  /**
   * A response whose status is not OK gives "Failed to fetch URL: " with its
   * status text, and its body is never parsed or searched.
   */
  lemma FailedResponseStopsEarly(url: string, fetch: string -> FetchOutcome,
                                 parse: string -> Option<seq<Node>>, parse2: string -> Option<seq<Node>>)
    requires url != [] && fetch(url).Response? && !Ok(fetch(url).status)
    ensures FetchUrlContent(Some(url), fetch, parse) == Failure(FetchFailed(fetch(url).statusText))
    ensures Message(FetchUrlContent(Some(url), fetch, parse).error) == "Failed to fetch URL: " + fetch(url).statusText
    ensures FetchUrlContent(Some(url), fetch, parse2) == FetchUrlContent(Some(url), fetch, parse)
  {
  }

  /**
   * A reply with content comes only from an OK response whose body parsed to a
   * document; it echoes the requested url and carries exactly what the
   * extraction pipeline produces from that document.
   */
  lemma SuccessIsExtraction(url: Option<string>, fetch: string -> FetchOutcome, parse: string -> Option<seq<Node>>)
    ensures FetchUrlContent(url, fetch, parse).Success? <==>
      && url.Some? && url.value != []
      && fetch(url.value).Response? && Ok(fetch(url.value).status)
      && parse(fetch(url.value).body).Some?
      && Extract(parse(fetch(url.value).body).value).Success?
    ensures FetchUrlContent(url, fetch, parse).Success? ==>
      FetchUrlContent(url, fetch, parse).value ==
        Extracted(Extract(parse(fetch(url.value).body).value).value, url.value)
  {
  }

  /**
   * Once the document is parsed, the only error left is "Could not find main
   * content", and it arises exactly when the pruned document has no `article`,
   * `main` or `body`.
   */
  lemma ParsedDocumentErrors(url: string, fetch: string -> FetchOutcome, parse: string -> Option<seq<Node>>)
    requires url != [] && fetch(url).Response? && Ok(fetch(url).status) && parse(fetch(url).body).Some?
    ensures FetchUrlContent(Some(url), fetch, parse).Failure? ==>
      FetchUrlContent(Some(url), fetch, parse).error == NoMainContent
    ensures FetchUrlContent(Some(url), fetch, parse).Failure? <==>
      Extract(parse(fetch(url).body).value).Failure?
  {
    ExtractFailsOnlyWithoutContentNode(parse(fetch(url).body).value);
  }
}
