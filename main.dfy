/** The HTTP endpoint `POST /hackrx/run`: bearer-token authentication, then download,
    OCR and one question-answering call per question, with every failure inside the
    pipeline reported as an internal error and the downloaded temporary file removed
    on every exit path.

    The downloader, the OCR service and the answering service are called, not
    modelled here: their outcomes are inputs (`download`, `ocr`, `replies`); the OCR
    service's own behaviour is the module `OcrService`. The API key setting is a
    parameter. */
module Api {
  import opened Wrappers
  import opened PyStrings
  import opened OcrService
  import Os

  /** The request body: the document URL and the questions. */
  datatype Request = Request(documents: string, questions: seq<string>)

  /** What the OCR service returned, or the exception it raised. */
  type OcrOutcome = Result<ProcessedDocument, OcrError>

  /** What one call of the answering service gave: it returned `None` or a dictionary
      whose `"answer"` entry, when present, is the answer text, or it raised. */
  datatype Reply = Returned(result: Option<map<string, string>>) | Threw

  /** The outcome of `authenticate`: it returns, or raises an HTTP error. */
  datatype AuthResult = Ok | Err(status: int, detail: string)

  /** An exception caught by the endpoint's `except Exception` clause. */
  datatype Raised =
    | HttpRaised(status: int, detail: string)  // an HTTPException raised inside the try
    | OcrRaised(error: OcrError)               // an exception escaping the OCR service
    | AnswerRaised                             // an exception escaping the answering service

  /** What the endpoint answers: the answers, an HTTP error raised by the
      authentication (outside the try), or the 500 the except clause raises, which
      carries the exception it caught. */
  datatype Response =
    | Answered(answers: seq<string>)
    | Rejected(status: int, detail: string)
    | Internal(cause: Raised)
  {
    /** The HTTP status the client sees. */
    function Status(): int {
      match this
      case Answered(_) => 200
      case Rejected(status, _) => status
      case Internal(_) => 500
    }
  }

  /** The external effects of one request, in the order they happen. */
  datatype Call =
    | Download(url: string)
    | Analyze(path: string)
    | Ask(index: nat, question: string)
    | RemoveFile(path: string)

  const BearerPrefix: string := "Bearer "

  /** `authenticate`: the configured key is checked first (500 when it is unset or
      empty, whatever the header), then the header's shape (401 when it is missing
      or does not start with the case-sensitive "Bearer "), then the token, which is
      the header with EVERY occurrence of "Bearer " deleted (401 when it differs
      from the key). */
  function Authenticate(expectedKey: Option<string>, header: Option<string>): (r: AuthResult)
    ensures !Truthy(expectedKey) ==> r == Err(500, "API key not configured.")
    ensures Truthy(expectedKey) && (header.None? || !StartsWith(header.value, BearerPrefix)) ==>
      r == Err(401, "Missing or invalid authorization header")
    ensures r == Ok <==>
      Truthy(expectedKey) && header.Some? && StartsWith(header.value, BearerPrefix) &&
      RemoveAll(header.value, BearerPrefix) == expectedKey.value
    ensures (Truthy(expectedKey) && Truthy(header) && StartsWith(header.value, BearerPrefix) &&
             RemoveAll(header.value, BearerPrefix) != expectedKey.value) ==>
      r == Err(401, "Invalid API key")
    ensures r.Err? ==> r.status == 500 || r.status == 401
  {
    if !Truthy(expectedKey) then Err(500, "API key not configured.")
    else if !Truthy(header) || !StartsWith(header.value, BearerPrefix) then
      Err(401, "Missing or invalid authorization header")
    else if RemoveAll(header.value, BearerPrefix) != expectedKey.value then Err(401, "Invalid API key")
    else Ok
  }

  /** The header a client naturally sends, "Bearer " followed by the key, is accepted
      exactly when the key itself does not contain "Bearer ": a key containing it loses
      that occurrence too when the token is extracted, and never matches. */
  lemma BearerKeyAccepted(key: string)
    requires key != ""
    ensures Authenticate(Some(key), Some(BearerPrefix + key)) == Ok <==> !Occurs(BearerPrefix, key)
  {
  }

  /** Repeating the prefix is harmless: "Bearer Bearer " followed by a key without
      "Bearer " in it is accepted as well. */
  lemma RepeatedPrefixAccepted(key: string)
    requires key != "" && !Occurs(BearerPrefix, key)
    ensures Authenticate(Some(key), Some(BearerPrefix + BearerPrefix + key)) == Ok
  {
    var header := BearerPrefix + BearerPrefix + key;
    assert header[..|BearerPrefix|] == BearerPrefix;
    assert header == BearerPrefix + (BearerPrefix + key);
    RemoveAllLeading(BearerPrefix, BearerPrefix + key);
    RemoveAllLeading(BearerPrefix, key);
  }

  /** A reply the endpoint accepts: returned, present, non-empty, with an "answer"
      entry. The emptiness test adds nothing, since a dictionary with an "answer"
      entry is never empty. */
  predicate Usable(reply: Reply)
    ensures Usable(reply) <==> reply.Returned? && reply.result.Some? && "answer" in reply.result.value
  {
    reply.Returned? && reply.result.Some? && reply.result.value != map[] && "answer" in reply.result.value
  }

  /** The outcome of the question loop: all answers, or the index of the question
      where it stopped, because the reply was unusable or because the answering
      service raised. */
  datatype Collection = AllAnswered(answers: seq<string>) | FailedAt(index: nat) | RaisedAt(index: nat)

  /** The question loop over the replies, question by question. Every reply usable
      gives all answers, the i-th answer being the i-th reply's "answer"; otherwise
      the loop stops at the first unusable reply, and it stops by an exception
      exactly when that reply is one. */
  function Collected(replies: seq<Reply>): (c: Collection)
    ensures c.AllAnswered? <==> forall i :: 0 <= i < |replies| ==> Usable(replies[i])
    ensures c.AllAnswered? ==>
      |c.answers| == |replies| &&
      forall i :: 0 <= i < |replies| ==> c.answers[i] == replies[i].result.value["answer"]
    ensures !c.AllAnswered? ==>
      c.index < |replies| && !Usable(replies[c.index]) &&
      (forall i :: 0 <= i < c.index ==> Usable(replies[i])) &&
      (c.RaisedAt? <==> replies[c.index].Threw?)
  {
    if replies == [] then AllAnswered([])
    else if replies[0].Threw? then RaisedAt(0)
    else if !Usable(replies[0]) then FailedAt(0)
    else
      match Collected(replies[1..])
      case AllAnswered(rest) => AllAnswered([replies[0].result.value["answer"]] + rest)
      case FailedAt(i) => FailedAt(i + 1)
      case RaisedAt(i) => RaisedAt(i + 1)
  }

  /** How many questions the loop asked: all of them, or up to the one it stopped at. */
  function AskedCount(c: Collection, n: nat): nat {
    match c
    case AllAnswered(_) => n
    case FailedAt(i) => i + 1
    case RaisedAt(i) => i + 1
  }

  /** The answering calls for the first `m` questions, in question order. */
  function Asks(questions: seq<string>, m: nat): (calls: seq<Call>)
    requires m <= |questions|
  {
    seq(m, i requires 0 <= i < m => Ask(i, questions[i]))
  }

  /** The `for` loop of `run_hackrx`: each question is asked in turn, and the first
      unusable reply, or the first exception of the answering service, ends the loop. */
  method CollectAnswers(questions: seq<string>, replies: seq<Reply>) returns (c: Collection, asked: seq<Call>)
    requires |replies| == |questions|
    ensures c == Collected(replies)
    ensures AskedCount(c, |questions|) <= |questions|
    ensures asked == Asks(questions, AskedCount(c, |questions|))
  {
    var answers: seq<string> := [];
    asked := [];
    var idx := 0;
    while idx < |questions|
      invariant 0 <= idx <= |questions|
      invariant forall j :: 0 <= j < idx ==> Usable(replies[j])
      invariant |answers| == idx
      invariant forall j :: 0 <= j < idx ==> answers[j] == replies[j].result.value["answer"]
      invariant asked == Asks(questions, idx)
    {
      var reply := replies[idx];
      asked := asked + [Ask(idx, questions[idx])];
      if reply.Threw? {
        return RaisedAt(idx), asked;
      }
      var answer := reply.result;
      if answer.None? || answer.value == map[] || "answer" !in answer.value {
        return FailedAt(idx), asked;
      }
      answers := answers + [answer.value["answer"]];
      idx := idx + 1;
    }
    return AllAnswered(answers), asked;
  }

  /** The message of the 400 raised for the question at `index` (counted from 1). */
  function QuestionFailure(index: nat): string {
    "Failed to answer question " + NatToString(index + 1)
  }

  /** A request's response and the external calls it makes. */
  datatype Outcome = Outcome(response: Response, calls: seq<Call>)

  /** `run_hackrx` as a value: authentication outside the try; inside it the
      download (a falsy path raises 400), the OCR service, and the question loop (an
      unusable reply raises 400, and the answering service may raise); the except
      clause turning whatever was raised into a 500; and the finally clause removing
      a downloaded file. Only a failed authentication is answered without any call,
      and an answered request has one answer per question. */
  function Run(apiKey: Option<string>, header: Option<string>, request: Request, download: Option<string>,
               ocr: OcrOutcome, replies: seq<Reply>): (o: Outcome)
    requires |replies| == |request.questions|
    ensures o.calls == [] <==> Authenticate(apiKey, header).Err?
    ensures o.response.Rejected? <==> Authenticate(apiKey, header).Err?
    ensures o.response.Answered? ==> |o.response.answers| == |request.questions|
  {
    var auth := Authenticate(apiKey, header);
    if auth.Err? then Outcome(Rejected(auth.status, auth.detail), [])
    else if !Truthy(download) then
      Outcome(Internal(HttpRaised(400, "Failed to download document")), [Download(request.documents)])
    else
      var path := download.value;
      var started := [Download(request.documents), Analyze(path)];
      match ocr
      case Failure(e) => Outcome(Internal(OcrRaised(e)), started + [RemoveFile(path)])
      case Success(_) =>
        var c := Collected(replies);
        var asks := Asks(request.questions, AskedCount(c, |replies|));
        match c
        case AllAnswered(answers) => Outcome(Answered(answers), started + asks + [RemoveFile(path)])
        case FailedAt(i) => Outcome(Internal(HttpRaised(400, QuestionFailure(i))), started + asks + [RemoveFile(path)])
        case RaisedAt(_) => Outcome(Internal(AnswerRaised), started + asks + [RemoveFile(path)])
  }

  /** `run_hackrx` against the file system. The downloader leaves a file at the path
      it returns; whatever happens afterwards, that file is gone when the request
      ends, and no other file is touched. */
  method RunHackrx(fs: Os.FileSystem, apiKey: Option<string>, header: Option<string>, request: Request,
                   download: Option<string>, ocr: OcrOutcome, replies: seq<Reply>)
    returns (response: Response, calls: seq<Call>)
    requires |replies| == |request.questions|
    modifies fs
    ensures Outcome(response, calls) == Run(apiKey, header, request, download, ocr, replies)
    ensures Authenticate(apiKey, header) == Ok && Truthy(download) ==>
      fs.files == old(fs.files) - {download.value}
    ensures Authenticate(apiKey, header).Err? || !Truthy(download) ==> fs.files == old(fs.files)
  {
    var auth := Authenticate(apiKey, header);
    if auth.Err? {
      return Rejected(auth.status, auth.detail), [];
    }
    ghost var expected := Run(apiKey, header, request, download, ocr, replies);
    var tempFilePath: Option<string> := None;
    var raised: Option<Raised> := None;
    var answers: seq<string> := [];
    // try
    calls := [Download(request.documents)];
    tempFilePath := download;
    if !Truthy(tempFilePath) {
      raised := Some(HttpRaised(400, "Failed to download document"));
      assert calls == expected.calls;
    } else {
      ghost var path := tempFilePath.value;
      fs.Create(tempFilePath.value);  // the file the downloader wrote
      calls := calls + [Analyze(tempFilePath.value)];
      var processed := ocr;  // the OCR service run on the downloaded file
      if processed.Failure? {
        raised := Some(OcrRaised(processed.error));
        assert calls + [RemoveFile(path)] == expected.calls;
      } else {
        var collected, asked := CollectAnswers(request.questions, replies);
        ghost var started := calls;
        calls := calls + asked;
        assert expected.calls == started + asked + [RemoveFile(path)];
        assert calls + [RemoveFile(path)] == expected.calls;
        match collected
        case AllAnswered(a) => answers := a;
        case FailedAt(i) => raised := Some(HttpRaised(400, QuestionFailure(i)));
        case RaisedAt(_) => raised := Some(AnswerRaised);
      }
      assert path in fs.files;
    }
    assert (if raised.Some? then Internal(raised.value) else Answered(answers)) == expected.response;
    // except Exception: re-raised as a 500
    response := if raised.Some? then Internal(raised.value) else Answered(answers);
    // finally
    if Truthy(tempFilePath) && fs.Exists(tempFilePath.value) {
      fs.Remove(tempFilePath.value);
      calls := calls + [RemoveFile(tempFilePath.value)];
    }
  }

  /** The calls of a request that runs to the end, in their fixed order: download,
      OCR, then every question in turn. */
  function Pipeline(request: Request, path: string): seq<Call> {
    [Download(request.documents), Analyze(path)] + Asks(request.questions, |request.questions|)
  }

  predicate IsPrefix(a: seq<Call>, b: seq<Call>) {
    |a| <= |b| && b[..|a|] == a
  }

  /** Authentication comes before anything else: a request that fails it makes no
      call at all and gets the authentication error (401 or 500) as it was raised;
      one that passes always starts with the download. */
  lemma AuthenticationComesFirst(apiKey: Option<string>, header: Option<string>, request: Request, download: Option<string>,
                                 ocr: OcrOutcome, replies: seq<Reply>)
    requires |replies| == |request.questions|
    ensures var o := Run(apiKey, header, request, download, ocr, replies);
      var auth := Authenticate(apiKey, header);
      (auth.Err? ==> o.calls == [] && o.response == Rejected(auth.status, auth.detail) &&
                     (o.response.Status() == 401 || o.response.Status() == 500)) &&
      (auth == Ok ==> o.calls != [] && o.calls[0] == Download(request.documents) && !o.response.Rejected?)
  {
  }

  /** The steps run in a fixed order and a failure skips the rest: after a download
      that produced a path, the calls made are a prefix of download, OCR and the
      questions in order, followed by exactly one removal of that path, as the last
      call. A download without a path is the only call. */
  lemma StepsInOrder(apiKey: Option<string>, header: Option<string>, request: Request, download: Option<string>,
                     ocr: OcrOutcome, replies: seq<Reply>)
    requires |replies| == |request.questions|
    requires Authenticate(apiKey, header) == Ok
    ensures var o := Run(apiKey, header, request, download, ocr, replies);
      !Truthy(download) ==> o.calls == [Download(request.documents)]
    ensures var o := Run(apiKey, header, request, download, ocr, replies);
      Truthy(download) ==>
        |o.calls| >= 3 &&
        o.calls[|o.calls| - 1] == RemoveFile(download.value) &&
        IsPrefix(o.calls[..|o.calls| - 1], Pipeline(request, download.value))
  {
  }

  /** The removal is the last call, made exactly when a download produced a path,
      and no earlier call removes anything. */
  lemma RemovalOnlyOfDownload(apiKey: Option<string>, header: Option<string>, request: Request, download: Option<string>,
                              ocr: OcrOutcome, replies: seq<Reply>)
    requires |replies| == |request.questions|
    ensures var o := Run(apiKey, header, request, download, ocr, replies);
      forall j :: 0 <= j < |o.calls| - 1 ==> !o.calls[j].RemoveFile?
    ensures var o := Run(apiKey, header, request, download, ocr, replies);
      (o.calls != [] && o.calls[|o.calls| - 1].RemoveFile?) <==>
        Authenticate(apiKey, header) == Ok && Truthy(download)
  {
  }

  /** A request is answered exactly when it is authenticated, the download gave a
      path, the OCR succeeded and every reply is usable; then there is one answer per
      question, in question order, and every question was asked. */
  lemma AnsweredInQuestionOrder(apiKey: Option<string>, header: Option<string>, request: Request, download: Option<string>,
                                ocr: OcrOutcome, replies: seq<Reply>)
    requires |replies| == |request.questions|
    ensures var o := Run(apiKey, header, request, download, ocr, replies);
      o.response.Answered? <==>
        Authenticate(apiKey, header) == Ok && Truthy(download) &&
        ocr.Success? &&
        forall i :: 0 <= i < |replies| ==> Usable(replies[i])
    ensures var o := Run(apiKey, header, request, download, ocr, replies);
      o.response.Answered? ==>
        |o.response.answers| == |request.questions| &&
        (forall i :: 0 <= i < |request.questions| ==> o.response.answers[i] == replies[i].result.value["answer"]) &&
        o.calls == Pipeline(request, download.value) + [RemoveFile(download.value)]
  {
  }

  /** Fail-fast: when the first unusable reply is that of question k, the request
      fails with a 500: the 400 naming question k + 1 re-raised, or the answering
      service's exception when it raised; questions 0 to k were asked and no later
      one, and the file is removed all the same. */
  lemma FailsAtFirstBadReply(apiKey: Option<string>, header: Option<string>, request: Request, download: Option<string>,
                             ocr: OcrOutcome, replies: seq<Reply>, k: nat)
    requires |replies| == |request.questions|
    requires Authenticate(apiKey, header) == Ok && Truthy(download)
    requires ocr.Success?
    requires k < |replies| && !Usable(replies[k]) && forall j :: 0 <= j < k ==> Usable(replies[j])
    ensures var o := Run(apiKey, header, request, download, ocr, replies);
      o.response == (if replies[k].Threw? then Internal(AnswerRaised)
                     else Internal(HttpRaised(400, QuestionFailure(k)))) &&
      o.response.Status() == 500 &&
      o.calls == [Download(request.documents), Analyze(download.value)] + Asks(request.questions, k + 1) +
                 [RemoveFile(download.value)]
  {
  }

  /** Once authenticated, every failure comes out as a 500: the 400s raised for a
      failed download and for a failed question, and the exceptions of the OCR and
      answering services, are all caught and re-raised by the except clause. */
  lemma FailuresBecomeInternal(apiKey: Option<string>, header: Option<string>, request: Request, download: Option<string>,
                               ocr: OcrOutcome, replies: seq<Reply>)
    requires |replies| == |request.questions|
    requires Authenticate(apiKey, header) == Ok
    ensures var o := Run(apiKey, header, request, download, ocr, replies);
      !o.response.Answered? ==> o.response.Internal? && o.response.Status() == 500
    ensures var o := Run(apiKey, header, request, download, ocr, replies);
      !Truthy(download) ==> o.response == Internal(HttpRaised(400, "Failed to download document"))
    ensures var o := Run(apiKey, header, request, download, ocr, replies);
      var p := ocr;
      Truthy(download) && p.Failure? ==> o.response == Internal(OcrRaised(p.error))
    ensures var o := Run(apiKey, header, request, download, ocr, replies);
      Truthy(download) && ocr.Success? && Collected(replies).RaisedAt? ==> o.response == Internal(AnswerRaised)
  {
  }

  /** With the OCR settings missing, an authenticated request whose download
      succeeded fails with the OCR service's configuration error, re-raised as a 500,
      whatever the document holds, and no question is asked. */
  lemma MissingOcrSettingsFailRequest(apiKey: Option<string>, header: Option<string>, request: Request,
                                      download: Option<string>, endpoint: Option<string>, key: Option<string>,
                                      analysis: Option<AnalyzeResult>, replies: seq<Reply>)
    requires |replies| == |request.questions|
    requires Authenticate(apiKey, header) == Ok && Truthy(download)
    requires !Truthy(endpoint) || !Truthy(key)
    ensures var o := Run(apiKey, header, request, download, Processed(endpoint, key, analysis), replies);
      o.response == Internal(OcrRaised(CredentialsNotConfigured)) && o.response.Status() == 500 &&
      o.calls == [Download(request.documents), Analyze(download.value), RemoveFile(download.value)]
  {
  }
}
