/**
 * What the factories and instance members of ServiceResult<T> promise,
 * stated over all inputs.
 */
module ServiceResultProperties {
  import opened ServiceResults

  /** The success and failure predicates partition results by status code alone. */
  lemma SuccessIffOk<T>(r: ServiceResult<T>)
    ensures r.IsSuccess() <==> r.StatusCode == Ok
    ensures r.IsFailure() <==> r.StatusCode != Ok
    ensures r.IsSuccess() != r.IsFailure()
    ensures r.IsSuccess() == r.(Value := None).IsSuccess()
  {
  }

  /**
   * The laws of the `??` operator that the override rules rely on: a null on
   * either side is neutral, chains of `??` group either way, and a non-null
   * fallback is the nullable one unwrapped.
   */
  lemma CoalesceLaws<X>(o: Option<X>, p: Option<X>, q: Option<X>, fallback: X)
    ensures None.OrElse(o) == o
    ensures o.OrElse(None) == o
    ensures o.OrElse(p).OrElse(q) == o.OrElse(p.OrElse(q))
    ensures o.GetOr(fallback) == o.OrElse(Some(fallback)).value
    ensures o.Some? ==> o.OrElse(p) == o && o.GetOr(fallback) == o.value
  {
  }

  /** The implicit conversion and Success build the same record. */
  lemma FromValueIsSuccess<T>(value: Option<T>)
    ensures FromValue(value) == Success(value)
    ensures FromValue(value) == ServiceResult(Ok, value, None, None)
  {
  }

  /** A failure built with the default status code is a failure even when it carries a value. */
  lemma DefaultFailureIsFailure<T>(
    exception: Option<Exception>, errorMessage: Option<string>, message: string, value: Option<T>)
    ensures Failure(exception, errorMessage, value := value).IsFailure()
    ensures Failure(exception, errorMessage, value := value).StatusCode == GenericFailure
    ensures FailureWithMessage(message, value := value).IsFailure()
    ensures FailureWithMessage(message, value := value).StatusCode == GenericFailure
  {
  }

  /** Failure is the full constructor: every record is rebuilt from its own fields. */
  lemma FailureRebuilds<T>(r: ServiceResult<T>)
    ensures Failure(r.InnerException, r.ErrorMessage, r.StatusCode, r.Value) == r
  {
  }

  /** The message-only overload is Failure with a null exception. */
  lemma MessageOverloadIsFailure<T>(errorMessage: string, statusCode: StatusCode, value: Option<T>)
    ensures FailureWithMessage(errorMessage, statusCode, value)
         == Failure(None, Some(errorMessage), statusCode, value)
  {
  }

  /** Get succeeds on a present value and gives it back, also on a failure. */
  lemma GetRoundTrip<T>(v: T, statusCode: StatusCode)
    ensures Success(Some(v)).Get() == v
    ensures Failure(statusCode := statusCode, value := Some(v)).Get() == v
  {
  }

  /** Get and TryGet agree; TryGet reports absence for a valueless success too. */
  lemma TryGetAgreesWithGet<T>(r: ServiceResult<T>)
    ensures r.TryGet().0 ==> r.TryGet().1 == Some(r.Get())
    ensures !Success<T>(None).TryGet().0
  {
  }

  /** PassThroughFail is FailureFromServiceResult on the receiver. */
  lemma PassThroughIsFailureFrom<T, U>(
    r: ServiceResult<T>, value: Option<U>, errorMessage: Option<string>, statusCode: Option<StatusCode>)
    ensures r.PassThroughFail(value, errorMessage, statusCode)
         == FailureFromServiceResult(r, value, errorMessage, statusCode)
  {
  }

  /**
   * Without overrides the whole diagnostic context is inherited, and in
   * particular the status: re-packaging a success gives a success.
   */
  lemma NoOverrideInherits<T, U>(r: ServiceResult<T>, value: Option<U>)
    ensures FailureFromServiceResult(r, value) == ServiceResult(r.StatusCode, value, r.InnerException, r.ErrorMessage)
    ensures r.IsSuccess() ==> FailureFromServiceResult(r, value).IsSuccess()
  {
  }

  /** A message override replaces only the message. */
  lemma MessageOverrideOnly<T, U>(r: ServiceResult<T>, value: Option<U>, errorMessage: string)
    ensures FailureFromServiceResult(r, value, Some(errorMessage))
         == ServiceResult(r.StatusCode, value, r.InnerException, Some(errorMessage))
  {
  }

  /** Passing a result through with its own value and no overrides gives it back. */
  lemma PassThroughOwnValueIsIdentity<T>(r: ServiceResult<T>)
    ensures r.PassThroughFail(r.Value) == r
  {
  }

  /**
   * Two pass-throughs in a row are one pass-through with the later value and,
   * per field, the later override if present and the earlier one otherwise.
   */
  lemma PassThroughTwice<T, U, W>(
    r: ServiceResult<T>,
    v1: Option<U>, m1: Option<string>, c1: Option<StatusCode>,
    v2: Option<W>, m2: Option<string>, c2: Option<StatusCode>)
    ensures r.PassThroughFail(v1, m1, c1).PassThroughFail(v2, m2, c2)
         == r.PassThroughFail(v2, m2.OrElse(m1), c2.OrElse(c1))
  {
  }

  /** One call of PassThroughFail in a chain of callers that share one value type. */
  datatype PassThrough<T> = PassThrough(
    value: Option<T>,
    errorMessage: Option<string>,
    statusCode: Option<StatusCode>)

  /** The result after each step of `steps` in turn has passed the failure on. */
  function PassThroughAll<T>(r: ServiceResult<T>, steps: seq<PassThrough<T>>): (q: ServiceResult<T>)
    decreases |steps|
  {
    if steps == [] then r
    else PassThroughAll(r.PassThroughFail(steps[0].value, steps[0].errorMessage, steps[0].statusCode), steps[1..])
  }

  /** However many layers pass a failure on, the original inner exception survives. */
  lemma {:induction false} PassThroughAllKeepsException<T>(r: ServiceResult<T>, steps: seq<PassThrough<T>>)
    ensures PassThroughAll(r, steps).InnerException == r.InnerException
    decreases |steps|
  {
    if steps != [] {
      var s := steps[0];
      PassThroughAllKeepsException(r.PassThroughFail(s.value, s.errorMessage, s.statusCode), steps[1..]);
    }
  }

  /** After a non-empty chain the value is the last caller's, never the original one. */
  lemma {:induction false} PassThroughAllValue<T>(r: ServiceResult<T>, steps: seq<PassThrough<T>>)
    requires steps != []
    ensures PassThroughAll(r, steps).Value == steps[|steps| - 1].value
    decreases |steps|
  {
    var s := steps[0];
    if |steps| > 1 {
      PassThroughAllValue(r.PassThroughFail(s.value, s.errorMessage, s.statusCode), steps[1..]);
    }
  }

  /**
   * The message after a chain is that of the last layer that overrode it.
   */
  lemma {:induction false} PassThroughAllLastMessage<T>(r: ServiceResult<T>, steps: seq<PassThrough<T>>, k: nat)
    requires k < |steps| && steps[k].errorMessage.Some?
    requires forall i :: k < i < |steps| ==> steps[i].errorMessage.None?
    ensures PassThroughAll(r, steps).ErrorMessage == steps[k].errorMessage
    decreases |steps|
  {
    var s := steps[0];
    var r' := r.PassThroughFail(s.value, s.errorMessage, s.statusCode);
    if k > 0 {
      PassThroughAllLastMessage(r', steps[1..], k - 1);
    } else {
      PassThroughAllWithoutMessageOverride(r', steps[1..]);
    }
  }

  /** The status after a chain is that of the last layer that overrode it. */
  lemma {:induction false} PassThroughAllLastStatus<T>(r: ServiceResult<T>, steps: seq<PassThrough<T>>, j: nat)
    requires j < |steps| && steps[j].statusCode.Some?
    requires forall i :: j < i < |steps| ==> steps[i].statusCode.None?
    ensures PassThroughAll(r, steps).StatusCode == steps[j].statusCode.value
    decreases |steps|
  {
    var s := steps[0];
    var r' := r.PassThroughFail(s.value, s.errorMessage, s.statusCode);
    if j > 0 {
      PassThroughAllLastStatus(r', steps[1..], j - 1);
    } else {
      PassThroughAllWithoutStatusOverride(r', steps[1..]);
    }
  }

  /** When no layer overrides the message, the original message survives. */
  lemma {:induction false} PassThroughAllWithoutMessageOverride<T>(r: ServiceResult<T>, steps: seq<PassThrough<T>>)
    requires forall i :: 0 <= i < |steps| ==> steps[i].errorMessage.None?
    ensures PassThroughAll(r, steps).ErrorMessage == r.ErrorMessage
    decreases |steps|
  {
    if steps != [] {
      var s := steps[0];
      PassThroughAllWithoutMessageOverride(r.PassThroughFail(s.value, s.errorMessage, s.statusCode), steps[1..]);
    }
  }

  /**
   * When no layer overrides the status, the original status survives: a
   * success stays a success and a failure keeps its classification.
   */
  lemma {:induction false} PassThroughAllWithoutStatusOverride<T>(r: ServiceResult<T>, steps: seq<PassThrough<T>>)
    requires forall i :: 0 <= i < |steps| ==> steps[i].statusCode.None?
    ensures PassThroughAll(r, steps).StatusCode == r.StatusCode
    ensures PassThroughAll(r, steps).IsSuccess() == r.IsSuccess()
    decreases |steps|
  {
    if steps != [] {
      var s := steps[0];
      PassThroughAllWithoutStatusOverride(r.PassThroughFail(s.value, s.errorMessage, s.statusCode), steps[1..]);
    }
  }
}
