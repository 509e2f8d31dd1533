/** The HTTP handlers over the repository operations (`AddRepo`, `ListRepo`, `RemoveRepo`,
    `UpdateRepository`).

    Decoding the JSON request body and encoding the JSON response are inputs: a handler is
    given the decoded request (or the decoder's error) and the encoder's outcome. A handler
    yields the response it sends and the trace of the operation it ran. The status rule is the
    same for every handler: 400 when the request cannot be decoded, 500 when the operation
    reports an error, 200 otherwise. */
module Handlers {
  import opened Outcomes
  import opened Repositories
  import opened Operations

  const StatusOK: int := 200
  const StatusBadRequest: int := 400
  const StatusInternalServerError: int := 500

  /** What a response carries after its status line. */
  datatype Body =
    | NoBody
      /** `http.Error`: the error's text. */
    | ErrorText(message: string)
      /** The `{"message": "success"}` object. */
    | SuccessMessage
      /** The `{"repositories": [...]}` object. */
    | Listing(repositories: seq<RepositoryInfo>)

  datatype Response = Response(status: int, body: Body)

  /** A handler's response together with the external steps its operation took. */
  datatype Handled = Handled(response: Response, trace: seq<Step>)

  /** The status a handler sends, given whether decoding the request failed and what the
      operation returned. */
  function StatusFor(decodeFailed: bool, result: Outcome): (status: int)
    ensures status in {StatusOK, StatusBadRequest, StatusInternalServerError}
    ensures status == StatusBadRequest <==> decodeFailed
    ensures status == StatusInternalServerError <==> !decodeFailed && result.Err?
    ensures status == StatusOK <==> !decodeFailed && result.Ok?
  {
    if decodeFailed then StatusBadRequest
    else if result.Err? then StatusInternalServerError
    else StatusOK
  }

  /** The body `http.Error` writes. */
  function ErrorBody(e: Error): Body
  {
    ErrorText(e.message)
  }

  /** `AddRepo`: decode the request, add the repository, answer with the success message.
      An encoding failure comes after the 200 status line has been sent, so the status stays
      200 and only the error text follows. */
  function AddRepo(decoded: Result<AddUpdateRepoRequest>, config: string, fx: Effects,
                   encode: Outcome): (h: Handled)
    ensures decoded.Failure? ==> h == Handled(Response(StatusBadRequest, ErrorBody(decoded.error)), [])
    ensures decoded.Success? ==>
              var op := AddRepository(decoded.value.name, decoded.value.url, config, fx);
              && h.trace == op.trace
              && h.response.status == StatusFor(false, op.result)
              && (op.result.Err? ==> h.response.body == ErrorBody(op.result.error))
              && (op.result.Ok? ==> h.response.body == if encode.Ok? then SuccessMessage
                                                       else ErrorBody(encode.error))
  {
    match decoded
    case Failure(e) => Handled(Response(StatusBadRequest, ErrorBody(e)), [])
    case Success(request) =>
      var op := AddRepository(request.name, request.url, config, fx);
      if op.result.Err? then Handled(Response(StatusInternalServerError, ErrorBody(op.result.error)), op.trace)
      else if encode.Err? then Handled(Response(StatusOK, ErrorBody(encode.error)), op.trace)
      else Handled(Response(StatusOK, SuccessMessage), op.trace)
  }

  /** A 200 from `AddRepo` means the config was written, with the loaded file updated by an entry
      holding the requested name and URL. */
  lemma AddRepoOkWroteEntry(decoded: Result<AddUpdateRepoRequest>, config: string, fx: Effects,
                            encode: Outcome)
    requires AddRepo(decoded, config, fx, encode).response.status == StatusOK
    ensures decoded.Success? && fx.load.Success? && fx.write.Ok?
    ensures Write(config, fx.update(fx.load.value, NewEntry(decoded.value.name, decoded.value.url)))
              in AddRepo(decoded, config, fx, encode).trace
  {
    var request := decoded.value;
    var trace := AddRepo(decoded, config, fx, encode).trace;
    AddWritesOnlyAfterAllSucceed(request.name, request.url, config, fx);
    var s :| s in trace && s.Write?;
  }

  /** A lock error makes `AddRepo` answer 500 with that error, without touching the file. */
  lemma AddRepoLockErrorIsServerError(request: AddUpdateRepoRequest, config: string, fx: Effects,
                                      encode: Outcome)
    requires CreateFileIfNotThere(config, fx).result.Ok? && fx.lock.err.Err?
    ensures AddRepo(Success(request), config, fx, encode).response
              == Response(StatusInternalServerError, ErrorBody(fx.lock.err.error))
    ensures !WriteAttempted(AddRepo(Success(request), config, fx, encode).trace)
  {
    AddStopsOnLockError(request.name, request.url, config, fx);
  }

  /** `ListRepo`: list the repositories and answer with their names and URLs. No request body
      is read, so the status is never 400. */
  method ListRepo(config: string, fx: Effects, encode: Outcome) returns (h: Handled)
    ensures var created := CreateFileIfNotThere(config, fx).result;
            h.response.status == StatusInternalServerError <==> created.Err? || fx.load.Failure?
    ensures var created := CreateFileIfNotThere(config, fx).result;
            h.response.status == StatusOK <==> created.Ok? && fx.load.Success?
    ensures var created := CreateFileIfNotThere(config, fx).result;
            && (created.Err? ==> h.response.body == ErrorBody(created.error))
            && (created.Ok? && fx.load.Failure? ==> h.response.body == ErrorBody(fx.load.error))
    ensures h.response.status == StatusOK && encode.Err? ==> h.response.body == ErrorBody(encode.error)
    ensures h.response.status == StatusOK && encode.Ok? ==>
              && h.response.body.Listing?
              && var infos := h.response.body.repositories;
                 var entries := fx.load.value.repositories;
                 && |infos| == |entries|
                 && forall i :: 0 <= i < |entries| ==>
                      infos[i].name == entries[i].name && infos[i].url == entries[i].url
    ensures !WriteAttempted(h.trace)
  {
    var r, trace := ListRepositories(config, fx);
    match r
    case Failure(e) =>
      h := Handled(Response(StatusInternalServerError, ErrorBody(e)), trace);
    case Success(infos) =>
      var body := if encode.Ok? then Listing(infos) else ErrorBody(encode.error);
      h := Handled(Response(StatusOK, body), trace);
  }

  /** `url.Values.Get`: the first value given for `key`, or "" when there is none. */
  function QueryGet(query: map<string, seq<string>>, key: string): (v: string)
    ensures key !in query || query[key] == [] ==> v == ""
    ensures key in query && query[key] != [] ==> v == query[key][0]
  {
    if key in query && |query[key]| > 0 then query[key][0] else ""
  }

  /** `RemoveRepo`: remove the repository named by the `name` query parameter. There is no body
      to decode, so the status is never 400. */
  function RemoveRepo(query: map<string, seq<string>>, config: string, fx: Effects): (h: Handled)
    ensures var op := RemoveRepository(QueryGet(query, "name"), config, fx);
            && h.trace == op.trace
            && h.response.status == StatusFor(false, op.result)
            && h.response.body == if op.result.Err? then ErrorBody(op.result.error) else NoBody
  {
    var op := RemoveRepository(QueryGet(query, "name"), config, fx);
    match op.result
    case Err(e) => Handled(Response(StatusInternalServerError, ErrorBody(e)), op.trace)
    case Ok => Handled(Response(StatusOK, NoBody), op.trace)
  }

  /** Removing a repository the file does not hold is answered with 200 and leaves the file
      alone; this includes a request without a `name` parameter, which asks to remove "". */
  lemma RemoveRepoUnknownNameIsOk(query: map<string, seq<string>>, config: string, fx: Effects)
    requires CreateFileIfNotThere(config, fx).result.Ok? && fx.load.Success?
    requires !fx.remove(fx.load.value, QueryGet(query, "name")).removed
    ensures RemoveRepo(query, config, fx).response == Response(StatusOK, NoBody)
    ensures !WriteAttempted(RemoveRepo(query, config, fx).trace)
  {
    RemoveUnknownNameSucceeds(QueryGet(query, "name"), config, fx);
  }

  /** The lock's outcome never changes what `RemoveRepo` answers. */
  lemma RemoveRepoIgnoresLock(query: map<string, seq<string>>, config: string, fx: Effects,
                              lock: LockAttempt)
    ensures RemoveRepo(query, config, fx.(lock := lock)).response == RemoveRepo(query, config, fx).response
  {
    var name := QueryGet(query, "name");
    var other := fx.(lock := lock);
    RemoveReportsFirstFailure(name, config, fx);
    RemoveReportsFirstFailure(name, config, other);
    assert RemoveSteps(name, config, other) == RemoveSteps(name, config, fx);
  }

  /** `UpdateRepository` (the handler): decode the request and update the repository; a success
      carries no body. */
  function UpdateRepo(decoded: Result<AddUpdateRepoRequest>, config: string, fx: Effects): (h: Handled)
    ensures decoded.Failure? ==> h == Handled(Response(StatusBadRequest, ErrorBody(decoded.error)), [])
    ensures decoded.Success? ==>
              var op := UpdateRepository(decoded.value.name, decoded.value.url, config, fx);
              && h.trace == op.trace
              && h.response.status == StatusFor(false, op.result)
              && h.response.body == if op.result.Err? then ErrorBody(op.result.error) else NoBody
  {
    match decoded
    case Failure(e) => Handled(Response(StatusBadRequest, ErrorBody(e)), [])
    case Success(request) =>
      var op := UpdateRepository(request.name, request.url, config, fx);
      if op.result.Err? then Handled(Response(StatusInternalServerError, ErrorBody(op.result.error)), op.trace)
      else Handled(Response(StatusOK, NoBody), op.trace)
  }

  /** A 200 from the update handler means the loaded file, updated with the requested entry,
      was written back. */
  lemma UpdateRepoOkWroteEntry(decoded: Result<AddUpdateRepoRequest>, config: string, fx: Effects)
    requires UpdateRepo(decoded, config, fx).response.status == StatusOK
    ensures decoded.Success? && fx.load.Success? && fx.write.Ok?
    ensures Write(config, fx.update(fx.load.value, NewEntry(decoded.value.name, decoded.value.url)))
              in UpdateRepo(decoded, config, fx).trace
  {
    var request := decoded.value;
    var trace := UpdateRepo(decoded, config, fx).trace;
    UpdateIgnoresLockError(request.name, request.url, config, fx);
    var s :| s in trace && s.Write?;
  }

  /** The lock's outcome never changes what the update handler answers. */
  lemma UpdateRepoIgnoresLock(decoded: Result<AddUpdateRepoRequest>, config: string, fx: Effects,
                              lock: LockAttempt)
    ensures UpdateRepo(decoded, config, fx.(lock := lock)).response == UpdateRepo(decoded, config, fx).response
  {
    if decoded.Success? {
      var request := decoded.value;
      var other := fx.(lock := lock);
      UpdateReportsFirstFailure(request.name, request.url, config, fx);
      UpdateReportsFirstFailure(request.name, request.url, config, other);
      assert UpdateSteps(config, other) == UpdateSteps(config, fx);
    }
  }
}
