/** The coupon aggregate (Coupon.java) as a value: its fields, the checks it
    makes, and each of its state changes as a function from the old value to
    the new one. The class `CouponEntity.Coupon` is specified by these. */
module CouponModel {
  import opened Common

  datatype CouponState = CouponState(
    name: string,
    code: string,
    totalStock: int,
    remainStock: int,
    usedCount: int,
    couponType: Option<CouponType>,
    discountValue: int,
    startTime: Time,
    endTime: Time,
    expireTime: Time,
    status: CouponStatus,
    isDeleted: bool)

  /** CouponUpdateRequest.java; its `code` is carried but never applied. */
  datatype CouponUpdateRequest = CouponUpdateRequest(
    name: string,
    code: string,
    totalStock: int,
    couponType: Option<CouponType>,
    discountValue: int,
    startTime: Time,
    endTime: Time,
    expireTime: Time)

  /** The stock bookkeeping that issuing keeps. */
  predicate StockInRange(c: CouponState)
  {
    0 <= c.remainStock <= c.totalStock
  }

  /** The builder constructor: a fresh coupon with all of its stock left. */
  function NewCoupon(name: string, code: string, totalStock: int, couponType: Option<CouponType>,
                     discountValue: int, startTime: Time, endTime: Time, expireTime: Time): (c: CouponState)
    ensures c.remainStock == c.totalStock == totalStock
    ensures c.usedCount == 0 && c.status == Active && !c.isDeleted
    ensures c.name == name && c.code == code && c.couponType == couponType && c.discountValue == discountValue
    ensures c.startTime == startTime && c.endTime == endTime && c.expireTime == expireTime
    ensures totalStock >= 0 ==> StockInRange(c)
  {
    CouponState(name, code, totalStock, totalStock, 0, couponType, discountValue,
                startTime, endTime, expireTime, Active, false)
  }

  /** validateForIssue: stock first, then the window from start to expiry. */
  function ValidateForIssue(c: CouponState, now: Time): (o: Outcome)
    ensures o == Done <==> c.remainStock > 0 && c.startTime <= now <= c.expireTime
    ensures c.remainStock <= 0 ==> o == Failed(CouponOutOfStock)
    ensures c.remainStock > 0 && !(c.startTime <= now <= c.expireTime) ==>
              o == Failed(CouponNotAvailable(OutsideIssuePeriod))
  {
    if c.remainStock <= 0 then Failed(CouponOutOfStock)
    else if now < c.startTime || now > c.expireTime then Failed(CouponNotAvailable(OutsideIssuePeriod))
    else Done
  }

  datatype CouponStep = CouponStep(outcome: Outcome, coupon: CouponState)

  /** issue(): validate, take one unit of stock, and mark the coupon
      exhausted when that unit was the last. */
  function Issue(c: CouponState, now: Time): (r: CouponStep)
    ensures r.outcome == Done <==> c.remainStock > 0 && c.startTime <= now <= c.expireTime
    ensures c.remainStock <= 0 ==> r.outcome == Failed(CouponOutOfStock)
    ensures c.remainStock > 0 && !(c.startTime <= now <= c.expireTime) ==>
              r.outcome == Failed(CouponNotAvailable(OutsideIssuePeriod))
    ensures r.outcome.Failed? ==> r.coupon == c
    ensures r.outcome == Done ==> r.coupon.remainStock == c.remainStock - 1
    ensures r.outcome == Done ==> (r.coupon.remainStock == 0 ==> r.coupon.status == Exhausted)
    ensures r.outcome == Done ==> (r.coupon.remainStock != 0 ==> r.coupon.status == c.status)
    ensures r.outcome == Done ==>
              r.coupon == c.(remainStock := r.coupon.remainStock, status := r.coupon.status)
    ensures StockInRange(c) ==> StockInRange(r.coupon)
  {
    match ValidateForIssue(c, now)
    case Failed(e) => CouponStep(Failed(e), c)
    case Done =>
      var left := c.remainStock - 1;
      CouponStep(Done, c.(remainStock := left, status := if left == 0 then Exhausted else c.status))
  }

  /** validateUpdateTime: start not after end, then end not after expiry. */
  function ValidateUpdateTime(startTime: Time, endTime: Time, expireTime: Time): (o: Outcome)
    ensures o == Done <==> startTime <= endTime <= expireTime
    ensures startTime > endTime ==> o == Failed(IllegalArgument(StartAfterEnd))
    ensures startTime <= endTime && endTime > expireTime ==> o == Failed(IllegalArgument(EndAfterExpire))
  {
    if startTime > endTime then Failed(IllegalArgument(StartAfterEnd))
    else if endTime > expireTime then Failed(IllegalArgument(EndAfterExpire))
    else Done
  }

  /** update(request): validate the times, then overwrite the editable fields. */
  function Update(c: CouponState, request: CouponUpdateRequest): (r: CouponStep)
    ensures r.outcome == Done <==> request.startTime <= request.endTime <= request.expireTime
    ensures request.startTime > request.endTime ==> r.outcome == Failed(IllegalArgument(StartAfterEnd))
    ensures request.startTime <= request.endTime && request.endTime > request.expireTime ==>
              r.outcome == Failed(IllegalArgument(EndAfterExpire))
    ensures r.outcome.Failed? ==> r.coupon == c
    ensures r.outcome == Done ==>
              && r.coupon.name == request.name && r.coupon.totalStock == request.totalStock
              && r.coupon.discountValue == request.discountValue && r.coupon.couponType == request.couponType
              && r.coupon.startTime == request.startTime && r.coupon.endTime == request.endTime
              && r.coupon.expireTime == request.expireTime
    ensures r.coupon.code == c.code && r.coupon.remainStock == c.remainStock && r.coupon.usedCount == c.usedCount
    ensures r.coupon.status == c.status && r.coupon.isDeleted == c.isDeleted
  {
    match ValidateUpdateTime(request.startTime, request.endTime, request.expireTime)
    case Failed(e) => CouponStep(Failed(e), c)
    case Done =>
      CouponStep(Done, c.(name := request.name, totalStock := request.totalStock,
                          discountValue := request.discountValue, couponType := request.couponType,
                          startTime := request.startTime, endTime := request.endTime,
                          expireTime := request.expireTime))
  }

  /** isAllUsed */
  predicate IsAllUsed(c: CouponState)
  {
    c.usedCount >= c.totalStock
  }

  /** isExpired, with the clock passed in */
  predicate IsExpired(c: CouponState, now: Time)
  {
    now > c.expireTime
  }

  /** isAvailable: the usability test applied before a redemption. */
  predicate IsAvailable(c: CouponState, now: Time)
  {
    && !c.isDeleted
    && !IsExpired(c, now)
    && !IsAllUsed(c)
    && (c.status == Active || c.status == Exhausted)
  }

  /** validateForUse: throws "not available" unless the coupon is usable. */
  function ValidateForUse(c: CouponState, now: Time): (o: Outcome)
    ensures o == Done <==>
              && !c.isDeleted && now <= c.expireTime && c.usedCount < c.totalStock
              && c.status in {Active, Exhausted}
    ensures o.Failed? ==> o.error == CouponNotAvailable(NotUsable)
  {
    if IsAvailable(c, now) then Done else Failed(CouponNotAvailable(NotUsable))
  }

  /** Issuing never consults the end of the issue period, the deleted flag
      or the status: two coupons that differ only there issue alike. */
  lemma IssueIgnoresEndDeletedAndStatus(c: CouponState, now: Time, endTime: Time, isDeleted: bool, status: CouponStatus)
    ensures Issue(c.(endTime := endTime, isDeleted := isDeleted, status := status), now).outcome
         == Issue(c, now).outcome
  {
  }

  /** Usability only gets worse as the clock advances. */
  lemma {:induction false} UnavailableStaysUnavailable(c: CouponState, now: Time, later: Time)
    requires now <= later
    requires !IsAvailable(c, now)
    ensures ValidateForUse(c, later) == Failed(CouponNotAvailable(NotUsable))
  {
    assert !IsAvailable(c, later);
  }
}
