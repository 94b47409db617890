/**
 * The retry rule of `exec`: a request that ends in a timeout (curl error
 * 28) is sent again, up to `maxRequest` more times, with the same options;
 * any other outcome ends the loop at once.
 */
module Retry {

  /** curl's "operation timed out" error number. */
  const TimeoutErrno: int := 28

  /** How many extra attempts a timeout may trigger, unless configured otherwise. */
  const DefaultMaxRequest: int := 3

  /** What one transfer attempt reports: curl's error number and message, the body and the header lines. */
  datatype Response = Response(errno: int, error: string, body: string, headers: seq<string>)

  /**
   * The number of the last attempt, counting from attempt `num`: stop at an
   * attempt that does not time out, or once `num` exceeds `maxRequest`.
   */
  function AttemptsFrom(attempt: nat -> Response, maxRequest: int, num: nat): (n: nat)
    requires num >= 1
    ensures n >= num
    ensures n == num || n <= maxRequest + 1
    ensures forall i :: num <= i < n ==> attempt(i).errno == TimeoutErrno
    ensures attempt(n).errno != TimeoutErrno || n > maxRequest
    decreases if num > maxRequest then 0 else maxRequest + 1 - num
  {
    if attempt(num).errno != TimeoutErrno || num > maxRequest then num
    else AttemptsFrom(attempt, maxRequest, num + 1)
  }

  /** The number of attempts `exec` makes: at least one, and never more than `maxRequest + 1`. */
  function AttemptCount(attempt: nat -> Response, maxRequest: int): (n: nat)
    ensures 1 <= n && (n == 1 || n <= maxRequest + 1)
  {
    AttemptsFrom(attempt, maxRequest, 1)
  }

  /** An attempt that does not time out is the last one. */
  lemma FirstSuccessStops(attempt: nat -> Response, maxRequest: int)
    requires attempt(1).errno != TimeoutErrno
    ensures AttemptCount(attempt, maxRequest) == 1
  {
  }

  /** A server that always times out is tried exactly `maxRequest + 1` times. */
  lemma AlwaysTimingOut(attempt: nat -> Response, maxRequest: int)
    requires maxRequest >= 0
    requires forall i :: i >= 1 ==> attempt(i).errno == TimeoutErrno
    ensures AttemptCount(attempt, maxRequest) == maxRequest + 1
  {
  }

  /** `k` timeouts followed by any other outcome take `k + 1` attempts, when `k <= maxRequest`. */
  lemma {:induction false} TimeoutsThenAnswer(attempt: nat -> Response, maxRequest: int, k: nat)
    requires k <= maxRequest
    requires forall i :: 1 <= i <= k ==> attempt(i).errno == TimeoutErrno
    requires attempt(k + 1).errno != TimeoutErrno
    ensures AttemptCount(attempt, maxRequest) == k + 1
  {
    TimeoutsThenAnswerFrom(attempt, maxRequest, k, 1);
  }

  lemma {:induction false} TimeoutsThenAnswerFrom(attempt: nat -> Response, maxRequest: int, k: nat, num: nat)
    requires 1 <= num <= k + 1 && k <= maxRequest
    requires forall i :: num <= i <= k ==> attempt(i).errno == TimeoutErrno
    requires attempt(k + 1).errno != TimeoutErrno
    ensures AttemptsFrom(attempt, maxRequest, num) == k + 1
    decreases k + 1 - num
  {
    if num <= k {
      TimeoutsThenAnswerFrom(attempt, maxRequest, k, num + 1);
    }
  }

  /** With the default setting: four attempts at most, and four when every one times out. */
  lemma DefaultAttempts(attempt: nat -> Response)
    ensures AttemptCount(attempt, DefaultMaxRequest) <= 4
    ensures (forall i :: i >= 1 ==> attempt(i).errno == TimeoutErrno) ==> AttemptCount(attempt, DefaultMaxRequest) == 4
  {
  }
}
