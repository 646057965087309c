/** The API response helper: shapes query and command results into HTTP responses,
    and runs commands and actions, turning validation and permission exceptions into
    error responses. */
module ApiResponses {
  import opened Wrappers
  import opened ValidationErrors

  const StatusOk := 200
  const StatusBadRequest := 400
  const StatusForbidden := 403
  const StatusNotFound := 404

  /** A returned value as the response serialises it; its encoding is left abstract. */
  type Json = string

  /** The response bodies: `SimpleResponseData<T>`, `SimpleCommandResponseData` and
      `SimpleCommandResponseData<T>`. A `None` datum is a null. */
  datatype Body =
    | QueryData(data: Option<Json>)
    | CommandData(isValid: bool, errors: seq<ValidationError>)
    | CommandDataWith(isValid: bool, errors: seq<ValidationError>, data: Option<Json>)

  /** An `IActionResult`: a status code and the body serialised into it. */
  datatype ActionResult = ActionResult(statusCode: int, body: Body)

  /** `ValidationResult`, possibly a `CompositeValidationResult` that carries the
      results it is made of. */
  datatype ValidationResult =
    | SingleResult(errorMessage: string, memberNames: seq<string>)
    | CompositeResult(errorMessage: string, memberNames: seq<string>, results: seq<ValidationResult>)

  /** The class of a caught `ValidationException`: the plain class, or
      `ValidationErrorException`, which carries an error code (possibly null). */
  datatype ExceptionClass = PlainValidationException | ValidationErrorException(errorCode: Option<string>)

  /** A caught `ValidationException`; `validationResult` is the result it was
      constructed with, if any. */
  datatype ValidationException = ValidationException(
    exceptionClass: ExceptionClass,
    message: string,
    validationResult: Option<ValidationResult>)

  /** The exception's `ValidationResult` property. The framework's
      `System.ComponentModel.DataAnnotations.ValidationException` creates a result from
      its message, naming no members, when it was constructed without one, so the
      property is never null. */
  function ResultOf(ex: ValidationException): ValidationResult
  {
    match ex.validationResult
    case Some(result) => result
    case None => SingleResult(ex.message, [])
  }

  /** How running a command, action or function ended: normally with its result, by
      throwing a `ValidationException`, or by throwing a `NotPermittedException`. */
  datatype Outcome<R> =
    | Completed(result: R)
    | ValidationFailed(exception: ValidationException)
    | NotPermitted(message: string)

  /** `SimpleQueryResponse`: 404 for a null result and 200 otherwise, the result being
      the data in both cases. */
  function SimpleQueryResponse(result: Option<Json>): (r: ActionResult)
    ensures r.statusCode == StatusNotFound <==> result.None?
    ensures r.statusCode == StatusOk <==> result.Some?
    ensures r.body.QueryData? && r.body.data == result
  {
    var response := QueryData(result);
    if result.None? then ActionResult(StatusNotFound, response) else ActionResult(StatusOk, response)
  }

  /** `GetCommandResponse`: 400 for an invalid command response, 200 for a valid one. */
  function GetCommandResponse(body: Body): (r: ActionResult)
    requires !body.QueryData?
    ensures r.body == body
    ensures r.statusCode == StatusBadRequest <==> !body.isValid
    ensures r.statusCode == StatusOk <==> body.isValid
  {
    if !body.isValid then ActionResult(StatusBadRequest, body) else ActionResult(StatusOk, body)
  }

  /** `SimpleCommandResponse` without data: the formatted errors, valid exactly when
      there are none. */
  function SimpleCommandResponse(validationErrors: Option<seq<ValidationError>>, rank: string -> int): (r: ActionResult)
    ensures r.body.CommandData?
    ensures r.body.errors == FormatValidationErrors(validationErrors, rank)
    ensures r.body.isValid <==> validationErrors.None? || |validationErrors.value| == 0
    ensures r.statusCode == (if r.body.isValid then StatusOk else StatusBadRequest)
  {
    var errors := FormatValidationErrors(validationErrors, rank);
    GetCommandResponse(CommandData(|errors| == 0, errors))
  }

  /** `SimpleCommandResponse` with data: as without, and the data is returned too. */
  function SimpleCommandResponseWith(
    validationErrors: Option<seq<ValidationError>>, returnData: Option<Json>, rank: string -> int): (r: ActionResult)
    ensures r.body.CommandDataWith? && r.body.data == returnData
    ensures r.body.errors == FormatValidationErrors(validationErrors, rank)
    ensures r.body.isValid <==> validationErrors.None? || |validationErrors.value| == 0
    ensures r.statusCode == (if r.body.isValid then StatusOk else StatusBadRequest)
  {
    var errors := FormatValidationErrors(validationErrors, rank);
    GetCommandResponse(CommandDataWith(|errors| == 0, errors, returnData))
  }

  /** `NotPermittedResponse`: 403, invalid, with one error holding the exception's
      message. */
  function NotPermittedResponse(message: string): (r: ActionResult)
    ensures r.statusCode == StatusForbidden
    ensures r.body.CommandData? && !r.body.isValid
    ensures |r.body.errors| == 1 && r.body.errors[0].message == message
    ensures r.body.errors[0].errorCode.None?
  {
    ActionResult(StatusForbidden, CommandData(false, [ValidationError(message, None, None)]))
  }

  /** `ToValidationError`: the result's message and member names. */
  function ToValidationError(result: ValidationResult): (e: ValidationError)
    ensures e.message == result.errorMessage
    ensures e.properties == Some(result.memberNames)
    ensures e.errorCode.None?
  {
    ValidationError(result.errorMessage, Some(result.memberNames), None)
  }

  /** `AddValidationExceptionToErrorList`: the errors already listed, followed by one
      error per result of a composite result, or else by a single error. */
  function AddValidationExceptionToErrorList(ex: ValidationException, errors: seq<ValidationError>): (r: seq<ValidationError>)
    ensures |r| >= |errors| && r[..|errors|] == errors
    // a composite result: one error per result, never with an error code
    ensures ex.validationResult.Some? && ex.validationResult.value.CompositeResult? ==>
      var results := ex.validationResult.value.results;
      |r| == |errors| + |results|
      && forall i :: 0 <= i < |results| ==>
           && r[|errors| + i].message == results[i].errorMessage
           && r[|errors| + i].properties == Some(results[i].memberNames)
           && r[|errors| + i].errorCode.None?
    // otherwise: exactly one error, from the result or else from the exception message
    // with no members, with the code of a ValidationErrorException
    ensures !(ex.validationResult.Some? && ex.validationResult.value.CompositeResult?) ==>
      && |r| == |errors| + 1
      && r[|errors|].message ==
           (if ex.validationResult.None? then ex.message else ex.validationResult.value.errorMessage)
      && r[|errors|].properties ==
           Some(if ex.validationResult.None? then [] else ex.validationResult.value.memberNames)
      && r[|errors|].errorCode ==
           (match ex.exceptionClass
            case PlainValidationException => None
            case ValidationErrorException(code) => code)
  {
    match ResultOf(ex)
    case CompositeResult(_, _, results) =>
      errors + seq(|results|, i requires 0 <= i < |results| => ToValidationError(results[i]))
    case result => errors + [WithExceptionCode(ToValidationError(result), ex.exceptionClass)]
  }

  /** A `ValidationErrorException` stamps its error code, even a null one, on the error
      it yields; any other validation exception leaves the error as it is. */
  function WithExceptionCode(error: ValidationError, exceptionClass: ExceptionClass): (r: ValidationError)
    ensures r.message == error.message && r.properties == error.properties
    ensures exceptionClass.PlainValidationException? ==> r == error
    ensures exceptionClass.ValidationErrorException? ==> r.errorCode == exceptionClass.errorCode
  {
    match exceptionClass
    case PlainValidationException => error
    case ValidationErrorException(code) => error.(errorCode := code)
  }

  /** The errors after running: the pre-validation errors, plus those of a caught
      validation exception when the command ran. */
  function ErrorsAfterRunning<R>(preErrors: seq<ValidationError>, outcome: Outcome<R>): (r: seq<ValidationError>)
    // a command that failed pre-validation never runs, so its errors stand alone
    ensures preErrors != [] ==> r == preErrors
    // running adds errors only by throwing a validation exception
    ensures !outcome.ValidationFailed? ==> r == preErrors
    ensures preErrors == [] && outcome.ValidationFailed? ==>
      r == AddValidationExceptionToErrorList(outcome.exception, [])
  {
    if preErrors == [] && outcome.ValidationFailed? then
      AddValidationExceptionToErrorList(outcome.exception, preErrors)
    else preErrors
  }

  /** `RunCommandAsync(controller, command)`. The command runs only when
      pre-validation found no errors, so `outcome` matters only then; `outputValue` is
      the command's output property after that (null when it has none). */
  function RunCommand(
    preErrors: seq<ValidationError>,
    outcome: Outcome<()>,
    outputValue: Option<Json>,
    rank: string -> int): (r: ActionResult)
    ensures !r.body.QueryData?
    ensures r.statusCode == StatusForbidden <==> preErrors == [] && outcome.NotPermitted?
    ensures preErrors == [] && outcome.NotPermitted? ==> r == NotPermittedResponse(outcome.message)
    ensures preErrors != [] ==>
      r.statusCode == StatusBadRequest && r.body.errors == FormatValidationErrors(Some(preErrors), rank)
    ensures preErrors == [] && outcome.Completed? ==>
      r.statusCode == StatusOk && r.body.isValid && r.body.errors == []
    ensures preErrors == [] && outcome.ValidationFailed? ==>
      r.body.errors == FormatValidationErrors(Some(AddValidationExceptionToErrorList(outcome.exception, [])), rank)
    ensures r.statusCode != StatusForbidden ==> (r.body.isValid <==> r.body.errors == [])
    ensures r.statusCode != StatusForbidden ==>
      && (r.body.CommandDataWith? <==> outputValue.Some?)
      && (r.body.CommandDataWith? ==> r.body.data == outputValue)
      && (r.statusCode == StatusOk <==> r.body.isValid)
      && (r.statusCode == StatusOk || r.statusCode == StatusBadRequest)
  {
    if preErrors == [] && outcome.NotPermitted? then NotPermittedResponse(outcome.message)
    else
      var errors := ErrorsAfterRunning(preErrors, outcome);
      if outputValue.Some? then SimpleCommandResponseWith(Some(errors), outputValue, rank)
      else SimpleCommandResponse(Some(errors), rank)
  }

  /** `RunAsync`: the action always runs; there is no pre-validation and no data. */
  function RunAction(outcome: Outcome<()>, rank: string -> int): (r: ActionResult)
    ensures r.statusCode == StatusForbidden <==> outcome.NotPermitted?
    ensures r.statusCode != StatusForbidden ==>
      && r.body.CommandData?
      && (r.body.isValid <==> r.body.errors == [])
      && r.statusCode == (if r.body.isValid then StatusOk else StatusBadRequest)
    ensures outcome.NotPermitted? ==> r == NotPermittedResponse(outcome.message)
    ensures outcome.Completed? ==> r == ActionResult(StatusOk, CommandData(true, []))
    ensures outcome.ValidationFailed? ==>
      && r.body.CommandData?
      && r.body.errors == FormatValidationErrors(Some(AddValidationExceptionToErrorList(outcome.exception, [])), rank)
      && (r.statusCode == StatusOk <==> r.body.isValid)
  {
    var errors: seq<ValidationError> := [];
    if outcome.NotPermitted? then NotPermittedResponse(outcome.message)
    else SimpleCommandResponse(Some(ErrorsAfterRunning(errors, outcome)), rank)
  }

  /** `RunWithResultAsync`: the function always runs, and its result is the data;
      when it throws a validation exception the data is `defaultResult`, the
      `default(TResult)` of the result type. */
  function RunWithResult(
    outcome: Outcome<Option<Json>>,
    defaultResult: Option<Json>,
    rank: string -> int): (r: ActionResult)
    ensures r.statusCode == StatusForbidden <==> outcome.NotPermitted?
    ensures outcome.NotPermitted? ==> r == NotPermittedResponse(outcome.message)
    ensures outcome.Completed? ==> r == ActionResult(StatusOk, CommandDataWith(true, [], outcome.result))
    ensures outcome.ValidationFailed? ==>
      && r.body.CommandDataWith?
      && r.body.errors == FormatValidationErrors(Some(AddValidationExceptionToErrorList(outcome.exception, [])), rank)
      && r.body.data == defaultResult
      && (r.statusCode == StatusOk <==> r.body.isValid)
    ensures r.statusCode != StatusForbidden ==>
      && r.body.CommandDataWith?
      && (r.body.isValid <==> r.body.errors == [])
      && r.statusCode == (if r.body.isValid then StatusOk else StatusBadRequest)
  {
    var errors: seq<ValidationError> := [];
    if outcome.NotPermitted? then NotPermittedResponse(outcome.message)
    else
      var result := if outcome.Completed? then outcome.result else defaultResult;
      SimpleCommandResponseWith(Some(ErrorsAfterRunning(errors, outcome)), result, rank)
  }

  /** When pre-validation reports errors the command is never executed: the response
      is the same whatever executing it would have done. */
  lemma PreValidationSkipsExecution(
    preErrors: seq<ValidationError>,
    outcome1: Outcome<()>,
    outcome2: Outcome<()>,
    outputValue: Option<Json>,
    rank: string -> int)
    requires preErrors != []
    ensures RunCommand(preErrors, outcome1, outputValue, rank) == RunCommand(preErrors, outcome2, outputValue, rank)
  {
  }

  /** Running an action is running a command that passed pre-validation and has no
      output value. */
  lemma RunActionIsUnvalidatedCommand(outcome: Outcome<()>, rank: string -> int)
    ensures RunAction(outcome, rank) == RunCommand([], outcome, None, rank)
  {
  }

  /** A validation exception whose composite result holds no results adds no error,
      so the response is a valid 200 even though the command threw. */
  lemma EmptyCompositeIsSwallowed(message: string, exceptionClass: ExceptionClass, rank: string -> int)
    ensures var ex := ValidationException(exceptionClass, message, Some(CompositeResult(message, [], [])));
      RunAction(ValidationFailed(ex), rank) == ActionResult(StatusOk, CommandData(true, []))
  {
  }

  /** A validation exception constructed without a result yields a 400 whose one error
      is the exception's message, naming no properties. */
  lemma ExceptionWithoutResult(message: string, code: string, rank: string -> int)
    ensures var ex := ValidationException(ValidationErrorException(Some(code)), message, None);
      RunAction(ValidationFailed(ex), rank)
        == ActionResult(StatusBadRequest, CommandData(false, [ValidationError(message, Some([]), Some(code))]))
  {
    FormatSingleton(ValidationError(message, Some([]), Some(code)), rank);
  }
}
