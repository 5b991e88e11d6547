/** What a route hands back to the browser. */
module Http {

  /** A plain redirect, a redirect that also stores `userId` in a new
      session cookie, or a JSON error with its status. */
  datatype Response =
    | Redirect(location: string)
    | SignIn(userId: string, location: string)
    | Failure(status: nat, message: string)

  /** A guard either lets the request through with a value or ends it with
      a response (the redirect the source throws). */
  datatype Guarded<T> = Allowed(value: T) | Halted(response: Response)
}

/** Form checks that run in a fixed order, the first failure answering. */
module Validation {
  import opened Wrappers

  datatype Check = Check(passes: bool, message: string)

  /** The message of the earliest failing check, if any fails. */
  function FirstFailure(checks: seq<Check>): (r: Option<string>)
    ensures r.None? <==> forall i | 0 <= i < |checks| :: checks[i].passes
    ensures r.Some? ==> exists i | 0 <= i < |checks| ::
              && !checks[i].passes
              && r.value == checks[i].message
              && forall j | 0 <= j < i :: checks[j].passes
    decreases |checks|
  {
    if checks == [] then None
    else if !checks[0].passes then Some(checks[0].message)
    else
      FirstFailure(checks[1..])
  }

  lemma FirstFailureOfTwo(a: Check, b: Check)
    ensures FirstFailure([a, b])
         == if !a.passes then Some(a.message)
            else if !b.passes then Some(b.message)
            else None
  {
    assert [a, b][1..] == [b];
    assert [b][1..] == [];
  }

  lemma FirstFailureOfThree(a: Check, b: Check, c: Check)
    ensures FirstFailure([a, b, c])
         == if !a.passes then Some(a.message)
            else if !b.passes then Some(b.message)
            else if !c.passes then Some(c.message)
            else None
  {
    assert [a, b, c][1..] == [b, c];
    FirstFailureOfTwo(b, c);
  }
}
