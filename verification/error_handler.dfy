/**
 * The Express error handler: turns a thrown error into a status code and a
 * JSON body, masking server errors in production.
 */
module ErrorHandler {
  import opened Wrappers

  /** One express-validator issue: the offending parameter and its message. */
  datatype ValidationIssue = ValidationIssue(param: Option<string>, msg: Option<string>)

  /** `err.errors`: an array of validation issues, or anything that is not an array. */
  datatype ErrorsField = NotAnArray | IssueArray(issues: seq<ValidationIssue>)

  /** The fields of the thrown error that the handler reads. */
  datatype ThrownError = ThrownError(statusCode: Option<int>, message: Option<string>, errors: ErrorsField, stack: Option<string>)

  datatype Detail = Detail(field: Option<string>, message: Option<string>)

  /**
   * The response: status code and JSON body. An absent `details` or `stack`
   * is a key the serialised body does not contain.
   */
  datatype ErrorResponse = ErrorResponse(statusCode: int, message: string, details: Option<seq<Detail>>, stack: Option<string>)

  const DefaultMessage: string := "An unexpected error occurred"
  const MaskedMessage: string := "Internal Server Error"

  /** `err.statusCode || 500`: zero is falsy. */
  function StatusOrDefault(code: Option<int>): (status: int)
    ensures status != 0
    ensures code.Some? && code.value != 0 ==> status == code.value
    ensures code.None? || code.value == 0 ==> status == 500
  {
    if code.Some? && code.value != 0 then code.value else 500
  }

  /** `err.message || 'An unexpected error occurred'`: the empty string is falsy. */
  function MessageOrDefault(message: Option<string>): (text: string)
    ensures text != ""
    ensures message.Some? && message.value != "" ==> text == message.value
    ensures message.None? || message.value == "" ==> text == DefaultMessage
  {
    if message.Some? && message.value != "" then message.value else DefaultMessage
  }

  function DetailOf(issue: ValidationIssue): Detail {
    Detail(issue.param, issue.msg)
  }

  function ErrorResponseFor(err: ThrownError, isProduction: bool): (r: ErrorResponse)
    // Validation errors override both status and message.
    ensures err.errors.IssueArray? ==> r.statusCode == 400 && r.message == "Validation failed"
    ensures err.errors.NotAnArray? ==> r.statusCode == StatusOrDefault(err.statusCode)
    ensures err.errors.NotAnArray? && err.statusCode.Some? && err.statusCode.value != 0 ==> r.statusCode == err.statusCode.value
    // A server error's message is hidden in production, and only then.
    ensures isProduction && r.statusCode == 500 ==> r.message == MaskedMessage
    ensures err.errors.NotAnArray? && !(isProduction && r.statusCode == 500) ==> r.message == MessageOrDefault(err.message)
    // One detail per issue, in order.
    ensures r.details.Some? <==> err.errors.IssueArray?
    ensures err.errors.IssueArray? ==>
      && |r.details.value| == |err.errors.issues|
      && forall i :: 0 <= i < |err.errors.issues| ==>
           r.details.value[i] == Detail(err.errors.issues[i].param, err.errors.issues[i].msg)
    // The stack is exposed outside production only.
    ensures r.stack.Some? <==> !isProduction && err.stack.Some?
    ensures r.stack.Some? ==> r.stack == err.stack
  {
    var statusCode := if err.errors.IssueArray? then 400 else StatusOrDefault(err.statusCode);
    var message := if err.errors.IssueArray? then "Validation failed" else MessageOrDefault(err.message);
    var details := if err.errors.IssueArray? then Some(seq(|err.errors.issues|, i requires 0 <= i < |err.errors.issues| => DetailOf(err.errors.issues[i]))) else None;
    ErrorResponse(
      statusCode,
      if statusCode == 500 && isProduction then MaskedMessage else message,
      details,
      if isProduction then None else err.stack)
  }
}
