/** CouponIssueResult.java: the value `issueCoupon` returns. */
module IssueResultDto {
  import opened Common

  datatype ResultType = Success | Fail

  /** The message: the fixed "issued" text, or the text of a caught exception. */
  datatype Message = IssuedNormally | Reason(error: Error)

  /** `couponCode` is present only on success. The service hands it the new
      issue's identity (a `Long` where the factory declares a `String`). */
  datatype CouponIssueResult = CouponIssueResult(resultType: ResultType, couponCode: Option<IssueId>, message: Message)
  {
    predicate IsSuccess()
    {
      resultType == Success
    }
  }

  /** success(couponCode) */
  function SuccessResult(couponCode: IssueId): (r: CouponIssueResult)
    ensures r.IsSuccess()
    ensures r.couponCode == Some(couponCode)
    ensures r.message == IssuedNormally
  {
    CouponIssueResult(Success, Some(couponCode), IssuedNormally)
  }

  /** fail(message) */
  function FailResult(message: Error): (r: CouponIssueResult)
    ensures !r.IsSuccess()
    ensures r.couponCode == None
    ensures r.message == Reason(message)
  {
    CouponIssueResult(Fail, None, Reason(message))
  }
}
