/**
 * The `POST /read-eid` handler: a shared-secret check on the
 * `X-Shared-Secret` header, then one call to the card reader whose result or
 * exception becomes the HTTP status and JSON body.  The reader's outcome is a
 * parameter; the handler is a function of the configured secret, the
 * header's values and that outcome.
 */
module ReadEndpoint {
  import opened Wrappers
  import opened DotNetText
  import opened Exceptions
  import IcaSdk

  /** `EidReadResponse`, the reader's result as the caller receives it. */
  datatype EidReadResponse = EidReadResponse(
    eidNumberMasked: string,
    fullNameEn: string,
    nationality: string,
    dob: string,
    gender: string,
    expiry: string,
    photoBase64: Option<string>)

  /** How `IEidReader.ReadAsync` ended. */
  datatype ReadOutcome = Returned(response: EidReadResponse) | Threw(fault: Fault)

  /** The JSON body: the reader's result, or `{ error = ... }`. */
  datatype Body = ReadResult(response: EidReadResponse) | ErrorBody(error: string)

  datatype HttpResult = HttpResult(status: int, body: Body)

  const StatusOk: int := 200
  const StatusBadRequest: int := 400
  const StatusUnauthorized: int := 401
  const StatusInternalServerError: int := 500

  const UnauthorizedCode: string := "unauthorized"

  /** Strings joined with a comma between each two (`string.Join(",", parts)`);
      `CommaJoinAppend` with the one-part case determines it. */
  function CommaJoin(parts: seq<string>): (r: string)
    ensures parts == [] ==> r == []
    ensures |parts| == 1 ==> r == parts[0]
    ensures |parts| >= 2 ==> ',' in r
    decreases |parts|
  {
    if parts == [] then []
    else if |parts| == 1 then parts[0]
    else parts[0] + "," + CommaJoin(parts[1..])
  }

  /** Joining two non-empty lists is joining each and putting a comma
      between the two texts. */
  lemma {:induction false} CommaJoinAppend(xs: seq<string>, ys: seq<string>)
    requires xs != [] && ys != []
    ensures CommaJoin(xs + ys) == CommaJoin(xs) + "," + CommaJoin(ys)
    decreases |xs|
  {
    assert (xs + ys)[0] == xs[0];
    assert (xs + ys)[1..] == xs[1..] + ys;
    if |xs| > 1 {
      CommaJoinAppend(xs[1..], ys);
    }
  }

  /** `StringValues.ToString()`: no values give the empty string and a single
      value is returned as it is, even when empty; two or more values are
      joined with commas after the empty ones are skipped. */
  function HeaderText(values: seq<string>): (r: string)
    ensures values == [] ==> r == []
    ensures |values| == 1 ==> r == values[0]
    ensures |values| >= 2 && RemoveEmptyEntries(values) == [] ==> r == []
    ensures |values| >= 2 && |RemoveEmptyEntries(values)| == 1 ==> r == RemoveEmptyEntries(values)[0]
    ensures |values| >= 2 && |RemoveEmptyEntries(values)| >= 2 ==> ',' in r
    ensures |values| >= 2 ==> r == CommaJoin(RemoveEmptyEntries(values))
  {
    if |values| <= 1 then
      if values == [] then [] else values[0]
    else CommaJoin(RemoveEmptyEntries(values))
  }

  /** The three checks the handler makes before it reads: a secret is
      configured, the header is present, and its text equals the secret
      ordinally (character by character, case-sensitive). */
  predicate Authorized(expectedSecret: Option<string>, providedSecret: Option<seq<string>>)
    ensures Authorized(expectedSecret, providedSecret) ==>
      expectedSecret.Some? && Trim(expectedSecret.value) != [] && providedSecret.Some?
    ensures expectedSecret.Some? && ',' !in expectedSecret.value && providedSecret.Some?
            && |providedSecret.value| >= 2 && |RemoveEmptyEntries(providedSecret.value)| >= 2 ==>
      !Authorized(expectedSecret, providedSecret)
  {
    && !IsNullOrWhiteSpace(expectedSecret)
    && providedSecret.Some?
    && HeaderText(providedSecret.value) == expectedSecret.value
  }

  /** With one header value, the checks pass exactly when a non-blank secret
      is configured and the value equals it. */
  lemma SingleHeaderValueAuthorized(expectedSecret: string, value: string)
    ensures Authorized(Some(expectedSecret), Some([value])) <==> !IsBlank(expectedSecret) && value == expectedSecret
  {
  }

  /** Empty repetitions of the header are skipped: the secret sent once
      among empty values still passes the checks. */
  lemma EmptyHeaderValuesSkipped(expectedSecret: string)
    requires !IsBlank(expectedSecret)
    ensures Authorized(Some(expectedSecret), Some(["", expectedSecret]))
    ensures Authorized(Some(expectedSecret), Some([expectedSecret, ""]))
  {
    var before, after := ["", expectedSecret], [expectedSecret, ""];
    assert expectedSecret != [];
    RemoveEmptySingleton(expectedSecret);
    RemoveEmptySingleton("");
    assert before[1..] == [expectedSecret];
    assert after[1..] == [""];
    assert RemoveEmptyEntries(before) == [expectedSecret];
    assert RemoveEmptyEntries(after) == [expectedSecret];
  }

  /** A secret containing a comma is matched by the header sent twice, once
      with the text before the comma and once with the text after it. */
  lemma CommaSecretMatchedBySplitHeader(a: string, b: string)
    requires a != [] && b != []
    requires !IsBlank(a + "," + b)
    ensures Authorized(Some(a + "," + b), Some([a, b]))
  {
    RemoveEmptySingleton(a);
    RemoveEmptySingleton(b);
    RemoveEmptyAppend([a], [b]);
    assert [a] + [b] == [a, b];
    CommaJoinAppend([a], [b]);
    assert HeaderText([a, b]) == a + "," + b;
  }

  /** The status and body for an exception thrown by the reader. */
  function FaultResult(fault: Fault): (r: HttpResult)
    ensures r.body.ErrorBody?
    ensures r.status == StatusBadRequest <==> fault.AgentFault? && KindOf(fault.exception) != Some(InternalError)
    ensures r.status != StatusBadRequest ==> r.status == StatusInternalServerError
  {
    match fault
    case AgentFault(e) =>
      var status := if KindOf(e) == Some(InternalError) then StatusInternalServerError else StatusBadRequest;
      HttpResult(status, ErrorBody(e.code))
    case OtherFault =>
      HttpResult(StatusInternalServerError, ErrorBody(InternalErrorCode))
  }

  /** The `/read-eid` handler. */
  function HandleReadEid(expectedSecret: Option<string>, providedSecret: Option<seq<string>>, outcome: ReadOutcome): (r: HttpResult)
    ensures r.status in {StatusOk, StatusBadRequest, StatusUnauthorized, StatusInternalServerError}
    ensures r.status == StatusUnauthorized <==> !Authorized(expectedSecret, providedSecret)
    ensures r.status == StatusOk <==> Authorized(expectedSecret, providedSecret) && outcome.Returned?
    ensures r.body.ReadResult? <==> r.status == StatusOk
  {
    if !Authorized(expectedSecret, providedSecret) then
      HttpResult(StatusUnauthorized, ErrorBody(UnauthorizedCode))
    else match outcome
      case Returned(response) => HttpResult(StatusOk, ReadResult(response))
      case Threw(fault) => FaultResult(fault)
  }

  /** With no secret configured (null, empty or white space) every request
      is refused, whatever it sends. */
  lemma BlankSecretRejectsAll(expectedSecret: Option<string>, providedSecret: Option<seq<string>>, outcome: ReadOutcome)
    requires IsNullOrWhiteSpace(expectedSecret)
    ensures HandleReadEid(expectedSecret, providedSecret, outcome) == HttpResult(StatusUnauthorized, ErrorBody(UnauthorizedCode))
  {
  }

  /** A request without the header is refused. */
  lemma MissingHeaderRejected(expectedSecret: Option<string>, outcome: ReadOutcome)
    ensures HandleReadEid(expectedSecret, None, outcome) == HttpResult(StatusUnauthorized, ErrorBody(UnauthorizedCode))
  {
  }

  /** A header whose text differs from the secret is refused. */
  lemma MismatchedHeaderRejected(expectedSecret: Option<string>, values: seq<string>, outcome: ReadOutcome)
    requires expectedSecret.Some? && HeaderText(values) != expectedSecret.value
    ensures HandleReadEid(expectedSecret, Some(values), outcome) == HttpResult(StatusUnauthorized, ErrorBody(UnauthorizedCode))
  {
  }

  /** The comparison is case-sensitive: a header that matches only up to
      case is refused. */
  lemma SecretComparisonIsCaseSensitive(outcome: ReadOutcome)
    ensures HandleReadEid(Some("secret"), Some(["SECRET"]), outcome).status == StatusUnauthorized
    ensures HandleReadEid(Some("secret"), Some(["secret"]), outcome).status != StatusUnauthorized
  {
    assert !IsBlank("secret") by {
      assert !IsWhiteSpace("secret"[0]);
    }
  }

  /** The reader is consulted only after the checks pass: when they fail the
      response does not depend on what the reader would have done. */
  lemma ReaderIgnoredUnlessAuthorized(expectedSecret: Option<string>, providedSecret: Option<seq<string>>, o1: ReadOutcome, o2: ReadOutcome)
    requires !Authorized(expectedSecret, providedSecret)
    ensures HandleReadEid(expectedSecret, providedSecret, o1) == HandleReadEid(expectedSecret, providedSecret, o2)
  {
  }

  /** A successful read is returned unchanged: no field is masked or
      rewritten on the way out. */
  lemma SuccessPassesThrough(expectedSecret: Option<string>, providedSecret: Option<seq<string>>, response: EidReadResponse)
    requires Authorized(expectedSecret, providedSecret)
    ensures HandleReadEid(expectedSecret, providedSecret, Returned(response)) == HttpResult(StatusOk, ReadResult(response))
  {
  }

  /** An `EidAgentException` gives 500 when its kind is the internal error
      and 400 otherwise, with its code as the body's error. */
  lemma AgentExceptionMapping(expectedSecret: Option<string>, providedSecret: Option<seq<string>>, e: AgentException)
    requires Authorized(expectedSecret, providedSecret)
    ensures var r := HandleReadEid(expectedSecret, providedSecret, Threw(AgentFault(e)));
      && r.body == ErrorBody(e.code)
      && (r.status == StatusInternalServerError <==> e.code == InternalErrorCode)
      && (r.status == StatusBadRequest <==> e.code != InternalErrorCode)
  {
  }

  /** Any other exception gives 500 with the internal-error code. */
  lemma OtherExceptionIsInternal(expectedSecret: Option<string>, providedSecret: Option<seq<string>>)
    requires Authorized(expectedSecret, providedSecret)
    ensures HandleReadEid(expectedSecret, providedSecret, Threw(OtherFault)) == HttpResult(StatusInternalServerError, ErrorBody(InternalErrorCode))
  {
  }

  /** A failing native result code, turned into an exception by the SDK
      client's `EnsureSuccess`, reaches the caller as 400 with the reader,
      card or timeout code for 4, 5 and 6, and as 500 `internal_error` for
      every other code. */
  lemma NativeCodeReachesCaller(expectedSecret: Option<string>, providedSecret: Option<seq<string>>, result: int, message: string)
    requires Authorized(expectedSecret, providedSecret)
    requires result != 0
    ensures var r := HandleReadEid(expectedSecret, providedSecret, Threw(AgentFault(IcaSdk.EnsureSuccess(result, message).error)));
      && (r.status == StatusBadRequest <==> result in {4, 5, 6})
      && (r.status == StatusInternalServerError <==> result !in {4, 5, 6})
      && r.body == ErrorBody(
           if result == 4 then ReaderNotFoundCode
           else if result == 5 then CardNotPresentCode
           else if result == 6 then TimeoutCode
           else InternalErrorCode)
  {
  }

  /** The sample `FakeEidReader` returns: its identity number is not masked. */
  const FakeReaderSample: EidReadResponse :=
    EidReadResponse("784-1988-1234567-1", "AJAY RAMACHANDRAN", "INDIA", "1977-01-01", "M", "2032-12-31", None)

  /** With the fake reader registered, an authorized caller receives the
      full identity number. */
  lemma FakeReaderNumberReachesCallerUnmasked(expectedSecret: Option<string>, providedSecret: Option<seq<string>>)
    requires Authorized(expectedSecret, providedSecret)
    ensures var r := HandleReadEid(expectedSecret, providedSecret, Returned(FakeReaderSample));
      r.status == StatusOk && r.body.response.eidNumberMasked == "784-1988-1234567-1"
  {
  }

  /** `IcaEidReader.ReadAsync` always throws `ReaderNotFound()`, so with it
      registered an authorized caller always gets 400 `reader_not_found`. */
  lemma IcaReaderStubAnswersReaderNotFound(expectedSecret: Option<string>, providedSecret: Option<seq<string>>)
    requires Authorized(expectedSecret, providedSecret)
    ensures HandleReadEid(expectedSecret, providedSecret, Threw(AgentFault(ReaderNotFoundException())))
            == HttpResult(StatusBadRequest, ErrorBody(ReaderNotFoundCode))
  {
  }
}
