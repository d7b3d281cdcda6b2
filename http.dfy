/** What a controller action sends back: a status code with a JSON body, or an
    error status with the `error` string. Errors leave the controllers through
    `next(err)`; this module states how such an error becomes a response, both
    as server/src/middleware/errorMiddleware.js would map it and as the
    catch-all handler of server/src/app.js does. */
module Http {
  import opened Wrappers
  import opened EventModel

  datatype Response<+T> = Ok(code: nat, body: T) | Fail(code: nat, error: string)

  /** Joins the texts with ", ". */
  function JoinMessages(texts: seq<string>): (s: string)
    ensures texts == [] ==> s == []
    ensures texts != [] && texts[0] != [] ==> s != []
    ensures |texts| == 1 ==> s == texts[0]
  {
    if texts == [] then []
    else if |texts| == 1 then texts[0]
    else texts[0] + ", " + JoinMessages(texts[1..])
  }

  /** The messages of the failing paths, in order. */
  function Messages(errors: seq<PathError>): (ms: seq<string>)
    ensures |ms| == |errors|
    ensures forall i :: 0 <= i < |errors| ==> ms[i] == errors[i].message
  {
    if errors == [] then [] else [errors[0].message] + Messages(errors[1..])
  }

  /** Each failing path as `path: message`, the form Mongoose puts in the error's
      own message. */
  function Described(errors: seq<PathError>): (ds: seq<string>)
    ensures |ds| == |errors|
    ensures forall i :: 0 <= i < |errors| ==> ds[i] == errors[i].path + ": " + errors[i].message
  {
    if errors == [] then [] else [errors[0].path + ": " + errors[0].message] + Described(errors[1..])
  }

  /** The `message` of a ValidationError raised by saving a document of `model`. */
  function ValidationErrorMessage(model: string, errors: seq<PathError>): string
  {
    model + " validation failed: " + JoinMessages(Described(errors))
  }

  /** The handler errorMiddleware.js defines for a ValidationError: 400 with the
      messages of all failing paths. The model answers validation errors with it. */
  function ValidationFailure<T>(errors: seq<PathError>): (r: Response<T>)
    requires errors != []
    ensures r.Fail? && r.code == 400
    ensures r.error == JoinMessages(Messages(errors))
    ensures errors[0].message != [] ==> r.error != []
  {
    Fail(400, JoinMessages(Messages(errors)))
  }

  /** The catch-all error handler of app.js: the error's own status, or 500,
      with the error's message. */
  function CatchAll<T>(status: Option<nat>, message: string): (r: Response<T>)
    ensures r.Fail? && r.error == message
    ensures status.None? ==> r.code == 500
    ensures status.Some? ==> r.code == status.value
  {
    Fail(status.GetOr(500), message)
  }

  /** A ValidationError as app.js answers it: it carries no status, so 500 with
      Mongoose's combined message. */
  function UnmappedValidationFailure<T>(model: string, errors: seq<PathError>): (r: Response<T>)
    ensures r == Fail(500, ValidationErrorMessage(model, errors))
  {
    CatchAll(None, ValidationErrorMessage(model, errors))
  }

  /** An error without a status (a TypeError): 500 with its message. errorMiddleware.js
      and app.js answer it alike. */
  function InternalFailure<T>(message: string): (r: Response<T>)
    ensures r == Fail(500, message)
  {
    CatchAll(None, message)
  }
}
