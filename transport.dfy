/** What the two fetchers see of HTTP: a scripted transport that answers each
    request with a response or a network failure, the shared acceptance test
    for a structure document, `raise_for_status()`, and how a call ends. */
module Http {
  import opened PyText

  /** One answer of the transport: a response with a status code and its
      decoded text, or a `requests.RequestException` raised by the call itself
      (connection refused, timeout). */
  datatype Reply = Response(status: int, body: string) | NetworkError

  /** How a call to one of the fetchers ends: a returned value or a raised exception. */
  datatype CallResult =
    | Returned(text: string)        // the raw text of a response is returned
    | ReturnedNone                  // fell off the end of the function
    | RaisedHttpError(status: int)  // `requests.HTTPError` from `raise_for_status()`
    | RaisedNetworkError            // the exception raised by `Session.get` / `Session.post`
    | RaisedValueError              // `time.sleep` given a negative delay
    | RaisedOverflowError           // a delay beyond the range of a float or of `time.sleep`
    | RaisedRuntimeError            // "ESMFold retries exhausted."

  /** The answer to the n-th request (counting from 0) of one call. A script
      that has run out of canned answers fails the connection. */
  function ReplyTo(script: seq<Reply>, n: nat): (r: Reply)
    ensures n < |script| ==> r == script[n]
    ensures n >= |script| ==> r == NetworkError
  {
    if n < |script| then script[n] else NetworkError
  }

  /** First record of the title section of a PDB-format file. */
  const Header: string := "HEADER"

  /** The acceptance test shared by both fetchers: status 200 and a body whose
      `strip()` starts with "HEADER". */
  predicate Accepted(r: Reply) {
    r.Response? && r.status == 200 && StartsWith(Strip(r.body), Header)
  }

  /** A response is accepted exactly when its status is 200 and, after its
      leading whitespace is trimmed, it starts with "HEADER": trailing
      whitespace never matters. */
  lemma AcceptedIff(r: Reply)
    ensures Accepted(r) <==> r.Response? && r.status == 200 && StartsWith(LStrip(r.body), Header)
  {
    if r.Response? {
      StripStartsWithIff(r.body, Header);
    }
  }

  /** `s` holds only whitespace before position `m`, and "HEADER" from there. */
  predicate HeaderAt(s: string, m: int) {
    && 0 <= m <= |s| - |Header|
    && (forall i :: 0 <= i < m ==> IsSpace(s[i]))
    && s[m..m + |Header|] == Header
  }

  /** The body of an accepted response is a document whose first
      non-whitespace characters are "HEADER". */
  lemma AcceptedBodyShape(r: Reply)
    requires Accepted(r)
    ensures exists m :: HeaderAt(r.body, m)
  {
    AcceptedIff(r);
    LStripShape(r.body);
    var m := |r.body| - |LStrip(r.body)|;
    assert r.body[m..m + |Header|] == LStrip(r.body)[..|Header|];
    assert HeaderAt(r.body, m);
  }

  /** `Response.raise_for_status()` raises for the 4xx and 5xx statuses only. */
  predicate IsErrorStatus(status: int) {
    400 <= status < 600
  }
}
