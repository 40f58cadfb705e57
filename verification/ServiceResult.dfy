/**
 * The outcome container of BsSnazzySnippets.Results: the record ServiceResult<T>
 * (a status code, an optional value, an optional inner exception and an optional
 * error message), its instance members, and the static factories of the
 * companion class ServiceResult.
 *
 * C# `null` becomes `None`, a nullable field or argument becomes an `Option`,
 * and the `??` operator becomes `Option.OrElse` / `Option.GetOr`.
 */
module ServiceResults {

  /** A C# nullable reference or nullable value: absent (`null`) or present. */
  datatype Option<+X> = None | Some(value: X) {

    /** `this ?? other` where both sides are nullable. */
    function OrElse(other: Option<X>): Option<X>
    {
      if Some? then this else other
    }

    /** `this ?? fallback` where the fallback is not nullable. */
    function GetOr(fallback: X): X
    {
      if Some? then value else fallback
    }
  }

  /**
   * ResultStatusCode. Only `Ok` and `GenericFailure` are known; every further
   * enumerator is kept open as `Other(tag)`, where `tag` names an enumerator
   * distinct from both `Ok` and `GenericFailure` (it is not the enum's integer
   * value, so no `Other(tag)` stands for `Ok`). `Ok` is the one success tag.
   */
  datatype StatusCode = Ok | GenericFailure | Other(tag: int)

  /**
   * System.Exception, compared only by identity; its contents belong to the
   * .NET library.
   */
  type Exception(==)

  /** The positional record ServiceResult<T>; the last two fields default to null. */
  datatype ServiceResult<T> = ServiceResult(
    StatusCode: StatusCode,
    Value: Option<T>,
    InnerException: Option<Exception> := None,
    ErrorMessage: Option<string> := None)
  {
    /** Success is decided by the status code alone, never by the value. */
    predicate IsSuccess()
    {
      StatusCode == Ok
    }

    predicate IsFailure()
    {
      !IsSuccess()
    }

    /**
     * Strict unwrap. The source throws when Value is null, whatever the status
     * code; the throw is the precondition here.
     */
    function Get(): (v: T)
      requires Value.Some?
      ensures Value == Some(v)
    {
      Value.value
    }

    /**
     * Safe unwrap: the C# `out` parameter is the second component. The out
     * value is `Value ?? default`, and `default(T)` is null exactly when Value
     * can be null, so it is Value itself: null when nothing is found.
     */
    function TryGet(): (r: (bool, Option<T>))
      ensures r.0 <==> Value.Some?
      ensures r.0 ==> r.1 == Some(Value.value)
      ensures !r.0 ==> r.1.None?
    {
      (Value.Some?, Value)
    }

    /** Re-package this result under another value type; see FailureFromServiceResult. */
    function PassThroughFail<U>(
      value: Option<U>,
      errorMessage: Option<string> := None,
      statusCode: Option<StatusCode> := None): (r: ServiceResult<U>)
      ensures r.InnerException == InnerException
      ensures r.Value == value
      ensures r.ErrorMessage == (if errorMessage.Some? then errorMessage else ErrorMessage)
      ensures r.StatusCode == (if statusCode.Some? then statusCode.value else StatusCode)
    {
      FailureFromServiceResult(this, value, errorMessage, statusCode)
    }
  }

  /** ServiceResult.Success: status Ok, the given value, no exception, no message. */
  function Success<T>(value: Option<T>): (r: ServiceResult<T>)
    ensures r.IsSuccess() && !r.IsFailure()
    ensures r.Value == value
    ensures r.InnerException.None? && r.ErrorMessage.None?
  {
    ServiceResult(StatusCode := Ok, Value := value)
  }

  /** The implicit conversion from a bare (nullable) value, made explicit. */
  function FromValue<T>(value: Option<T>): (r: ServiceResult<T>)
    ensures r.IsSuccess()
    ensures r.Value == value
    ensures r.InnerException.None? && r.ErrorMessage.None?
  {
    Success(value)
  }

  /**
   * ServiceResult.Failure(exception, errorMessage, statusCode, value): every
   * argument lands verbatim in its field. The status code is not checked, so
   * passing `Ok` builds a success.
   */
  function Failure<T>(
    exception: Option<Exception> := None,
    errorMessage: Option<string> := None,
    statusCode: StatusCode := GenericFailure,
    value: Option<T> := None): (r: ServiceResult<T>)
    ensures r.StatusCode == statusCode && r.Value == value
    ensures r.InnerException == exception && r.ErrorMessage == errorMessage
    ensures r.IsFailure() <==> statusCode != Ok
  {
    ServiceResult(
      StatusCode := statusCode,
      Value := value,
      InnerException := exception,
      ErrorMessage := errorMessage)
  }

  /** The message-only overload ServiceResult.Failure(errorMessage, statusCode, value). */
  function FailureWithMessage<T>(
    errorMessage: string,
    statusCode: StatusCode := GenericFailure,
    value: Option<T> := None): (r: ServiceResult<T>)
    ensures r.InnerException.None?
    ensures r.ErrorMessage == Some(errorMessage)
    ensures r.StatusCode == statusCode && r.Value == value
  {
    Failure(None, Some(errorMessage), statusCode, value)
  }

  /**
   * ServiceResult.FailureFromServiceResult: a result of a new value type that
   * always keeps the source's inner exception, takes the message and the status
   * code from the overrides when given and from the source otherwise, and
   * carries the caller's value (never the source's).
   */
  function FailureFromServiceResult<S, T>(
    serviceResult: ServiceResult<S>,
    value: Option<T>,
    errorMessage: Option<string> := None,
    statusCode: Option<StatusCode> := None): (r: ServiceResult<T>)
    ensures r.InnerException == serviceResult.InnerException
    ensures r.Value == value
    ensures r.ErrorMessage == (if errorMessage.Some? then errorMessage else serviceResult.ErrorMessage)
    ensures r.StatusCode == (if statusCode.Some? then statusCode.value else serviceResult.StatusCode)
  {
    Failure(
      serviceResult.InnerException,
      errorMessage.OrElse(serviceResult.ErrorMessage),
      statusCode.GetOr(serviceResult.StatusCode),
      value)
  }
}
