/** `fetch_af_pdb`: download a precomputed model from the AlphaFold protein
    structure database, trying the newest model version first. */
module AlphaFoldDb {
  import opened PyText
  import opened Http

  const AfBase: string := "https://alphafold.ebi.ac.uk/files"

  /** A file-name template with one `{uid}` placeholder: `prefix{uid}suffix`. */
  datatype Template = Template(prefix: string, suffix: string)

  /** The model versions tried, newest first: v4, then v3. */
  const AfPatterns: seq<Template> :=
    [Template("AF-", "-F1-model_v4.pdb"), Template("AF-", "-F1-model_v3.pdb")]

  /** The URL of one model file: the base, a slash, and the template with the
      accession substituted for its placeholder. */
  function ModelUrl(p: Template, uid: string): string
  {
    AfBase + "/" + p.prefix + uid + p.suffix
  }

  /** One GET per template, in order, each answered by the scripted transport;
      the first accepted body is returned as it came. If no response passes,
      `raise_for_status()` is called on the last one only, and a last status
      outside 4xx/5xx makes the function fall off its end and return None.
      A network error from a GET propagates at once. `urls` lists the
      requests made. */
  method FetchAfPdb(uid: string, script: seq<Reply>) returns (res: CallResult, urls: seq<string>)
    ensures 1 <= |urls| <= |AfPatterns|
    ensures forall j :: 0 <= j < |urls| ==> urls[j] == ModelUrl(AfPatterns[j], uid)
    ensures urls[0] == "https://alphafold.ebi.ac.uk/files/AF-" + uid + "-F1-model_v4.pdb"
    ensures |urls| == 2 ==> urls[1] == "https://alphafold.ebi.ac.uk/files/AF-" + uid + "-F1-model_v3.pdb"
    // every request before the last one got a response that was not accepted
    ensures forall j :: 0 <= j < |urls| - 1 ==> ReplyTo(script, j).Response? && !Accepted(ReplyTo(script, j))
    // it stops early only on an accepted response or a network error
    ensures |urls| < |AfPatterns| ==>
              Accepted(ReplyTo(script, |urls| - 1)) || ReplyTo(script, |urls| - 1).NetworkError?
    ensures res.Returned? <==> Accepted(ReplyTo(script, |urls| - 1))
    ensures res.Returned? ==> res.text == ReplyTo(script, |urls| - 1).body
    ensures res == RaisedNetworkError <==> ReplyTo(script, |urls| - 1).NetworkError?
    // all candidates exhausted: the outcome depends on the last response only
    ensures !res.Returned? && res != RaisedNetworkError ==>
              |urls| == |AfPatterns|
              && var last := ReplyTo(script, |AfPatterns| - 1);
                 res == if IsErrorStatus(last.status) then RaisedHttpError(last.status) else ReturnedNone
  {
    urls := [];
    var last := NetworkError;
    var i := 0;
    while i < |AfPatterns|
      invariant 0 <= i <= |AfPatterns|
      invariant |urls| == i
      invariant forall j :: 0 <= j < i ==> urls[j] == ModelUrl(AfPatterns[j], uid)
      invariant forall j :: 0 <= j < i ==> ReplyTo(script, j).Response? && !Accepted(ReplyTo(script, j))
      invariant i > 0 ==> last == ReplyTo(script, i - 1)
    {
      urls := urls + [ModelUrl(AfPatterns[i], uid)];
      var r := ReplyTo(script, i);
      if r.NetworkError? {
        res := RaisedNetworkError;
        return;
      }
      if r.status == 200 && StartsWith(Strip(r.body), Header) {
        res := Returned(r.body);
        return;
      }
      last := r;
      i := i + 1;
    }
    if IsErrorStatus(last.status) {
      res := RaisedHttpError(last.status);
    } else {
      res := ReturnedNone;
    }
  }

  /** A missing v4 model is no error: the v3 document is returned, after
      both URLs were asked for. */
  method FallsBackToV3(uid: string, doc: string) returns (res: CallResult, urls: seq<string>)
    requires StartsWith(Strip(doc), Header)
    ensures res == Returned(doc)
    ensures urls == [ModelUrl(AfPatterns[0], uid), ModelUrl(AfPatterns[1], uid)]
  {
    res, urls := FetchAfPdb(uid, [Response(404, ""), Response(200, doc)]);
  }

  /** A v4 document ends the lookup before v3 is asked for. */
  method StopsAtV4(uid: string, doc: string) returns (res: CallResult, urls: seq<string>)
    requires StartsWith(Strip(doc), Header)
    ensures res == Returned(doc) && urls == [ModelUrl(AfPatterns[0], uid)]
  {
    var script := [Response(200, doc), Response(500, "")];
    res, urls := FetchAfPdb(uid, script);
    assert Accepted(ReplyTo(script, 0));
  }

  /** A network error on the v4 request propagates at once, even when the v3
      model exists. */
  method NetworkErrorStopsAtV4(uid: string, doc: string) returns (res: CallResult, urls: seq<string>)
    requires StartsWith(Strip(doc), Header)
    ensures res == RaisedNetworkError && urls == [ModelUrl(AfPatterns[0], uid)]
  {
    var script := [NetworkError, Response(200, doc)];
    res, urls := FetchAfPdb(uid, script);
    assert ReplyTo(script, 0).NetworkError?;
  }

  /** With both candidates refused, the last status decides: a 404 on v3
      raises its HTTPError, whatever v4 answered. */
  method LastNotFoundRaises(uid: string) returns (res: CallResult, urls: seq<string>)
    ensures res == RaisedHttpError(404) && |urls| == 2
  {
    res, urls := FetchAfPdb(uid, [Response(500, ""), Response(404, "")]);
  }

  /** A 200 page that is not a PDB document, as the last answer, makes the
      function fall off its end: None, not an exception. */
  method LastNonDocumentGivesNone(uid: string) returns (res: CallResult, urls: seq<string>)
    ensures res == ReturnedNone && |urls| == 2
  {
    assert !Accepted(Response(200, "<html>")) by {
      LStripShape("<html>");
      AcceptedIff(Response(200, "<html>"));
    }
    res, urls := FetchAfPdb(uid, [Response(404, ""), Response(200, "<html>")]);
  }
}
