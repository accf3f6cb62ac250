/** Shared vocabulary of the coupon system: identifiers, time, the enums of
    the entity package, the exceptions the services throw, and the wrappers
    that stand for "returned normally" versus "threw". */
module Common {

  /** Timestamps, in whole seconds; the clock is always passed in as `now`. */
  type Time = int

  /** Database identities (JPA `Long` ids) and user ids. */
  type CouponId = int
  type IssueId = int
  type UserId = int

  datatype Option<T> = None | Some(value: T)

  /** CouponStatus.java */
  datatype CouponStatus = Active | Exhausted | Expired | Disabled

  /** CouponIssueStatus.java (its EXPIRED is never set by the code) */
  datatype CouponIssueStatus = Issued | Used | IssueExpired

  /** CouponType.java */
  datatype CouponType = FixedAmount | Percentage

  /** IssueResult.java: the result column of an issue-history row. */
  datatype IssueResult = IssueSuccess | IssueFail

  /** Why a coupon is "not available" (CouponNotAvailableException). */
  datatype Unavailable = NotUsable | OutsideIssuePeriod | DeletedCoupon

  /** The rule an IllegalArgumentException reports. */
  datatype Rule =
    | StartAfterEnd
    | EndAfterExpire
    | StartInPast
    | PercentageOutOfRange
    | FixedAmountNotPositive

  /** The exceptions of the core, by kind; the message text is the kind. */
  datatype Error =
    | CouponNotFound
    | CouponAlreadyExists
    | CouponAlreadyUsed
    | CouponNotAvailable(why: Unavailable)
    | CouponOutOfStock
    | DuplicateCoupon
    | IllegalArgument(rule: Rule)
    | RedisLockFailed
    | RedisOperationFailed

  /** A `void` Java call: it completes normally or throws. */
  datatype Outcome = Done | Failed(error: Error)

  /** A value-returning Java call: it returns a value or throws. */
  datatype Result<T> = Ok(value: T) | Err(error: Error)

  /** Math.min */
  function Min(a: int, b: int): int
  {
    if a <= b then a else b
  }
}
