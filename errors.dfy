/**
 * The errors the function throws and reports as `{ error: message }`
 * (index.ts lines 18-50 and the catch block at lines 68-77).
 */
module Errors {

  datatype Error =
    | UrlRequired                      // lines 18-20
    | FetchFailed(statusText: string)  // lines 29-31: a response whose status is not OK
    | TransportFailed(message: string) // line 23: `fetch` itself rejects; its own message is reported
    | ParseFailed                      // lines 36-38
    | NoMainContent                    // lines 48-50

  /** The `message` of the thrown `Error`, as placed in the response body. */
  function Message(e: Error): string {
    match e
    case UrlRequired => "URL is required"
    case FetchFailed(t) => "Failed to fetch URL: " + t
    case TransportFailed(m) => m
    case ParseFailed => "Failed to parse HTML"
    case NoMainContent => "Could not find main content"
  }

  /**
   * Apart from a rejected `fetch`, whose message is not the function's own,
   * the reported message tells which check failed, and for a failed response
   * which status text the server sent.
   */
  lemma MessageIdentifiesError(e1: Error, e2: Error)
    requires !e1.TransportFailed? && !e2.TransportFailed?
    ensures Message(e1) == Message(e2) ==> e1 == e2
  {
    var m1, m2 := Message(e1), Message(e2);
    var prefix := "Failed to fetch URL: ";
    if e1 != e2 {
      if e1.FetchFailed? && e2.FetchFailed? {
        assert m1[|prefix|..] == e1.statusText && m2[|prefix|..] == e2.statusText;
      } else if e1.FetchFailed? {
        assert m1[0] == 'F' && m1[10] == 'f';
        assert |m2| < 11 || m2[0] != 'F' || m2[10] != 'f';
      } else if e2.FetchFailed? {
        assert m2[0] == 'F' && m2[10] == 'f';
        assert |m1| < 11 || m1[0] != 'F' || m1[10] != 'f';
      } else {
        assert |m1| != |m2|;
      }
    }
  }
}
