/** Failure-carrying values for the Go calls of the repository manager.
    A Go `error` is either nil or an error value; only its message is observable. */
module Outcomes {

  /** A present or absent value. */
  datatype Option<+T> = None | Some(value: T)

  /** A non-nil Go `error`. */
  datatype Error = Error(message: string)

  /** A Go `error` result: `Ok` is nil. */
  datatype Outcome = Ok | Err(error: Error)

  /** A `(value, error)` pair where exactly one side is meaningful. */
  datatype Result<+T> = Success(value: T) | Failure(error: Error) {

    /** The error half of the pair, as an `Outcome`. */
    function ToOutcome(): (o: Outcome)
      ensures o.Ok? <==> Success?
      ensures Failure? ==> o == Err(error)
    {
      match this
      case Success(_) => Ok
      case Failure(e) => Err(e)
    }
  }

  /** The first failing outcome of a sequence of calls, or `Ok` when all succeed:
      the error that Go's "if err != nil { return err }" chain reports. */
  function FirstFailure(steps: seq<Outcome>): (o: Outcome)
    ensures o.Ok? <==> forall i :: 0 <= i < |steps| ==> steps[i].Ok?
    ensures o.Err? ==> exists i :: 0 <= i < |steps| && steps[i] == o
                                   && forall j :: 0 <= j < i ==> steps[j].Ok?
  {
    if |steps| == 0 then Ok
    else if steps[0].Err? then steps[0]
    else
      var rest := FirstFailure(steps[1..]);
      assert forall i :: 1 <= i < |steps| ==> steps[i] == steps[1..][i - 1];
      if rest.Err? then
        var k :| 0 <= k < |steps[1..]| && steps[1..][k] == rest
                 && forall j :: 0 <= j < k ==> steps[1..][j].Ok?;
        assert steps[k + 1] == rest;
        rest
      else
        rest
  }
}
