/** CouponCreateRequest.java: the admin's request to create a coupon. Its
    compact constructor validates the times and then the discount; `from`
    copies a coupon into a request and `toEntity` builds a fresh coupon. */
module CreateRequest {
  import opened Common
  import opened CouponModel

  datatype CouponCreateRequest = CouponCreateRequest(
    name: string,
    code: string,
    totalStock: int,
    couponType: Option<CouponType>,
    discountValue: int,
    startTime: Time,
    endTime: Time,
    expireTime: Time)

  /** The time rules: start <= end <= expiry, and the start not in the past. */
  predicate TimesValid(startTime: Time, endTime: Time, expireTime: Time, now: Time)
  {
    startTime <= endTime <= expireTime && now <= startTime
  }

  /** The discount rules; a missing type is not checked. */
  predicate DiscountValid(couponType: Option<CouponType>, discountValue: int)
  {
    && (couponType == Some(Percentage) ==> 1 <= discountValue <= 100)
    && (couponType == Some(FixedAmount) ==> discountValue > 0)
  }

  predicate IsTimeRule(rule: Rule)
  {
    rule == StartAfterEnd || rule == EndAfterExpire || rule == StartInPast
  }

  /** validateTimeSequence */
  function ValidateTimeSequence(startTime: Time, endTime: Time, expireTime: Time, now: Time): (o: Outcome)
    ensures o == Done <==> TimesValid(startTime, endTime, expireTime, now)
    ensures o.Failed? ==> o.error.IllegalArgument? && IsTimeRule(o.error.rule)
    ensures startTime > endTime ==> o == Failed(IllegalArgument(StartAfterEnd))
    ensures startTime <= endTime && endTime > expireTime ==> o == Failed(IllegalArgument(EndAfterExpire))
    ensures startTime <= endTime <= expireTime && startTime < now ==> o == Failed(IllegalArgument(StartInPast))
  {
    if startTime > endTime then Failed(IllegalArgument(StartAfterEnd))
    else if endTime > expireTime then Failed(IllegalArgument(EndAfterExpire))
    else if startTime < now then Failed(IllegalArgument(StartInPast))
    else Done
  }

  /** validateDiscountValue */
  function ValidateDiscountValue(couponType: Option<CouponType>, discountValue: int): (o: Outcome)
    ensures o == Done <==> DiscountValid(couponType, discountValue)
    ensures couponType == Some(Percentage) && !(1 <= discountValue <= 100) ==>
              o == Failed(IllegalArgument(PercentageOutOfRange))
    ensures couponType == Some(FixedAmount) && discountValue <= 0 ==>
              o == Failed(IllegalArgument(FixedAmountNotPositive))
    ensures couponType == None ==> o == Done
  {
    if couponType == Some(Percentage) then
      if discountValue <= 0 || discountValue > 100 then Failed(IllegalArgument(PercentageOutOfRange)) else Done
    else if couponType == Some(FixedAmount) && discountValue <= 0 then Failed(IllegalArgument(FixedAmountNotPositive))
    else Done
  }

  /** The compact constructor: the request exists exactly when every rule
      holds, and a broken time rule is reported before a broken discount rule. */
  function NewRequest(name: string, code: string, totalStock: int, couponType: Option<CouponType>,
                      discountValue: int, startTime: Time, endTime: Time, expireTime: Time, now: Time)
    : (r: Result<CouponCreateRequest>)
    ensures r.Ok? <==> TimesValid(startTime, endTime, expireTime, now) && DiscountValid(couponType, discountValue)
    ensures r.Ok? ==> r.value == CouponCreateRequest(name, code, totalStock, couponType, discountValue,
                                                      startTime, endTime, expireTime)
    ensures r.Err? ==> r.error.IllegalArgument?
    ensures !TimesValid(startTime, endTime, expireTime, now) <==> r.Err? && IsTimeRule(r.error.rule)
    ensures startTime > endTime ==> r == Err(IllegalArgument(StartAfterEnd))
    ensures startTime <= endTime && endTime > expireTime ==> r == Err(IllegalArgument(EndAfterExpire))
    ensures startTime <= endTime <= expireTime && startTime < now ==> r == Err(IllegalArgument(StartInPast))
    ensures TimesValid(startTime, endTime, expireTime, now) && couponType == Some(Percentage) && !(1 <= discountValue <= 100)
            ==> r == Err(IllegalArgument(PercentageOutOfRange))
    ensures TimesValid(startTime, endTime, expireTime, now) && couponType == Some(FixedAmount) && discountValue <= 0
            ==> r == Err(IllegalArgument(FixedAmountNotPositive))
  {
    match ValidateTimeSequence(startTime, endTime, expireTime, now)
    case Failed(e) => Err(e)
    case Done =>
      match ValidateDiscountValue(couponType, discountValue)
      case Failed(e) => Err(e)
      case Done => Ok(CouponCreateRequest(name, code, totalStock, couponType, discountValue,
                                          startTime, endTime, expireTime))
  }

  /** A request is well-formed at `now` when its constructor accepts it. */
  predicate WellFormed(request: CouponCreateRequest, now: Time)
  {
    && TimesValid(request.startTime, request.endTime, request.expireTime, now)
    && DiscountValid(request.couponType, request.discountValue)
  }

  /** from(coupon): the coupon's fields through the validating constructor. */
  function From(c: CouponState, now: Time): (r: Result<CouponCreateRequest>)
    ensures r.Ok? <==> TimesValid(c.startTime, c.endTime, c.expireTime, now) && DiscountValid(c.couponType, c.discountValue)
    ensures r.Err? ==> r.error.IllegalArgument?
    ensures r.Ok? ==>
              && r.value.name == c.name && r.value.code == c.code && r.value.totalStock == c.totalStock
              && r.value.couponType == c.couponType && r.value.discountValue == c.discountValue
              && r.value.startTime == c.startTime && r.value.endTime == c.endTime
              && r.value.expireTime == c.expireTime
  {
    NewRequest(c.name, c.code, c.totalStock, c.couponType, c.discountValue,
               c.startTime, c.endTime, c.expireTime, now)
  }

  /** toEntity(): a fresh coupon carrying the request's fields. */
  function ToEntity(request: CouponCreateRequest): (c: CouponState)
    ensures c.usedCount == 0 && c.status == Active && !c.isDeleted
    ensures c.remainStock == c.totalStock == request.totalStock
    ensures c.name == request.name && c.code == request.code
    ensures c.couponType == request.couponType && c.discountValue == request.discountValue
    ensures c.startTime == request.startTime && c.endTime == request.endTime && c.expireTime == request.expireTime
  {
    NewCoupon(request.name, request.code, request.totalStock, request.couponType, request.discountValue,
              request.startTime, request.endTime, request.expireTime)
  }

  /** Round trip from a coupon: whenever `from` accepts a coupon, the entity
      built back from the request agrees with it on every copied field, and
      is what the coupon would be with its counters and flags reset. */
  lemma {:induction false} FromThenToEntity(c: CouponState, now: Time)
    requires From(c, now).Ok?
    ensures var e := ToEntity(From(c, now).value);
            && e.name == c.name && e.code == c.code && e.totalStock == c.totalStock
            && e.couponType == c.couponType && e.discountValue == c.discountValue
            && e.startTime == c.startTime && e.endTime == c.endTime && e.expireTime == c.expireTime
    ensures ToEntity(From(c, now).value)
         == c.(remainStock := c.totalStock, usedCount := 0, status := Active, isDeleted := false)
  {
  }

  /** Round trip from a request: a well-formed request survives
      `toEntity` followed by `from` unchanged. */
  lemma {:induction false} ToEntityThenFrom(request: CouponCreateRequest, now: Time)
    requires WellFormed(request, now)
    ensures From(ToEntity(request), now) == Ok(request)
  {
  }
}
