/** The admin operations (CouponAdminService.java) over the coupon
    repository taken as a value: coupons by id, and the identity the next
    saved coupon receives. Deletion is soft, so no row ever leaves the map. */
module AdminModel {
  import opened Common
  import opened CouponModel
  import opened CreateRequest

  datatype Catalog = Catalog(coupons: map<CouponId, CouponState>, nextId: CouponId)

  /** CouponResponse.from(coupon): the identity and every field. */
  datatype CouponResponse = CouponResponse(id: CouponId, coupon: CouponState)

  datatype Created = Created(catalog: Catalog, response: CouponResponse)

  datatype Changed = Changed(coupons: map<CouponId, CouponState>, response: CouponResponse)

  /** existsActiveCodeAndNotDeleted(code) */
  predicate CodeInUse(coupons: map<CouponId, CouponState>, code: string)
  {
    exists id :: id in coupons && coupons[id].code == code && !coupons[id].isDeleted
  }

  /** Every saved row has an identity below the next one. */
  predicate IdsBelowNext(cat: Catalog)
  {
    forall id :: id in cat.coupons ==> id < cat.nextId
  }

  /** At most one non-deleted coupon per code. */
  predicate CodesUnique(coupons: map<CouponId, CouponState>)
  {
    forall a, b ::
      (a in coupons && b in coupons && !coupons[a].isDeleted && !coupons[b].isDeleted
       && coupons[a].code == coupons[b].code) ==> a == b
  }

  predicate Invariant(cat: Catalog)
  {
    IdsBelowNext(cat) && CodesUnique(cat.coupons)
  }

  /** getCoupon(request): the builder fed with the request's fields. */
  function GetCoupon(request: CouponCreateRequest): (c: CouponState)
    ensures c == ToEntity(request)
    ensures c.remainStock == c.totalStock == request.totalStock
    ensures c.usedCount == 0 && c.status == Active && !c.isDeleted
    ensures c.name == request.name && c.code == request.code
    ensures c.couponType == request.couponType && c.discountValue == request.discountValue
    ensures c.startTime == request.startTime && c.endTime == request.endTime && c.expireTime == request.expireTime
  {
    NewCoupon(request.name, request.code, request.totalStock, request.couponType, request.discountValue,
              request.startTime, request.endTime, request.expireTime)
  }

  /** validateAlreadyExistCoupon */
  function ValidateAlreadyExistCoupon(coupons: map<CouponId, CouponState>, request: CouponCreateRequest): (o: Outcome)
    ensures o.Failed? <==> CodeInUse(coupons, request.code)
    ensures o.Failed? ==> o.error == CouponAlreadyExists
  {
    if CodeInUse(coupons, request.code) then Failed(CouponAlreadyExists) else Done
  }

  /** createCoupon(request): refuse a code held by a non-deleted coupon,
      otherwise save one fresh coupon under the next identity. */
  function CreateCoupon(cat: Catalog, request: CouponCreateRequest): (r: Result<Created>)
    ensures r.Err? <==> CodeInUse(cat.coupons, request.code)
    ensures r.Err? ==> r.error == CouponAlreadyExists
    ensures r.Ok? ==>
              && r.value.catalog.coupons == cat.coupons[cat.nextId := GetCoupon(request)]
              && r.value.catalog.nextId == cat.nextId + 1
              && r.value.response == CouponResponse(cat.nextId, GetCoupon(request))
              && r.value.response.coupon.code == request.code
    ensures r.Ok? && IdsBelowNext(cat) ==>
              cat.nextId !in cat.coupons && |r.value.catalog.coupons| == |cat.coupons| + 1
  {
    match ValidateAlreadyExistCoupon(cat.coupons, request)
    case Failed(e) => Err(e)
    case Done =>
      var c := GetCoupon(request);
      Ok(Created(Catalog(cat.coupons[cat.nextId := c], cat.nextId + 1), CouponResponse(cat.nextId, c)))
  }

  /** updateCoupon(couponId, request): not found, then already used, then
      deleted, then the coupon's own time checks; only that coupon changes. */
  function UpdateCoupon(coupons: map<CouponId, CouponState>, couponId: CouponId, request: CouponUpdateRequest)
    : (r: Result<Changed>)
    ensures couponId !in coupons ==> r == Err(CouponNotFound)
    ensures couponId in coupons && coupons[couponId].usedCount > 0 ==> r == Err(CouponAlreadyUsed)
    ensures couponId in coupons && coupons[couponId].usedCount <= 0 && coupons[couponId].isDeleted ==>
              r == Err(CouponNotAvailable(DeletedCoupon))
    ensures couponId in coupons && coupons[couponId].usedCount <= 0 && !coupons[couponId].isDeleted ==>
              match Update(coupons[couponId], request).outcome
              case Failed(e) => r == Err(e)
              case Done => r.Ok?
    ensures r.Ok? ==>
              && couponId in coupons
              && r.value.coupons == coupons[couponId := Update(coupons[couponId], request).coupon]
              && r.value.response == CouponResponse(couponId, r.value.coupons[couponId])
  {
    if couponId !in coupons then Err(CouponNotFound)
    else
      var c := coupons[couponId];
      if c.usedCount > 0 then Err(CouponAlreadyUsed)
      else if c.isDeleted then Err(CouponNotAvailable(DeletedCoupon))
      else
        var step := Update(c, request);
        match step.outcome
        case Failed(e) => Err(e)
        case Done =>
          Ok(Changed(coupons[couponId := step.coupon], CouponResponse(couponId, step.coupon)))
  }

  /** deleteCoupon(couponId): mark the row deleted and EXPIRED. */
  function DeleteCoupon(coupons: map<CouponId, CouponState>, couponId: CouponId)
    : (r: Result<map<CouponId, CouponState>>)
    ensures r.Err? <==> couponId !in coupons
    ensures r.Err? ==> r.error == CouponNotFound
    ensures r.Ok? ==> r.value == coupons[couponId := coupons[couponId].(isDeleted := true, status := Expired)]
  {
    if couponId !in coupons then Err(CouponNotFound)
    else Ok(coupons[couponId := coupons[couponId].(isDeleted := true, status := Expired)])
  }

  /** Creating keeps identities fresh and codes unique. */
  lemma {:induction false} CreateKeepsInvariant(cat: Catalog, request: CouponCreateRequest)
    requires Invariant(cat)
    ensures CreateCoupon(cat, request).Ok? ==> Invariant(CreateCoupon(cat, request).value.catalog)
  {
    var r := CreateCoupon(cat, request);
    if r.Ok? {
      var m := r.value.catalog.coupons;
      forall a, b | a in m && b in m && !m[a].isDeleted && !m[b].isDeleted && m[a].code == m[b].code
        ensures a == b
      {
        if a != b && (a == cat.nextId || b == cat.nextId) {
          assert false;
        }
      }
    }
  }

  /** A successful create takes the code: creating it again is refused. */
  lemma {:induction false} CreateTwiceFails(cat: Catalog, request: CouponCreateRequest, again: CouponCreateRequest)
    requires CreateCoupon(cat, request).Ok?
    requires again.code == request.code
    ensures CreateCoupon(CreateCoupon(cat, request).value.catalog, again) == Err(CouponAlreadyExists)
  {
    var m := CreateCoupon(cat, request).value.catalog.coupons;
    assert cat.nextId in m && m[cat.nextId].code == again.code && !m[cat.nextId].isDeleted;
  }

  /** Updating never changes a code or a deleted flag, so it keeps the invariant. */
  lemma {:induction false} UpdateKeepsInvariant(cat: Catalog, couponId: CouponId, request: CouponUpdateRequest)
    requires Invariant(cat)
    ensures var r := UpdateCoupon(cat.coupons, couponId, request);
            r.Ok? ==> Invariant(cat.(coupons := r.value.coupons))
  {
    var r := UpdateCoupon(cat.coupons, couponId, request);
    if r.Ok? {
      var m := r.value.coupons;
      assert forall id :: id in m ==> m[id].code == cat.coupons[id].code && m[id].isDeleted == cat.coupons[id].isDeleted;
    }
  }

  /** Deleting twice is deleting once. */
  lemma DeleteIdempotent(coupons: map<CouponId, CouponState>, couponId: CouponId)
    requires couponId in coupons
    ensures DeleteCoupon(DeleteCoupon(coupons, couponId).value, couponId) == DeleteCoupon(coupons, couponId)
  {
    var once := DeleteCoupon(coupons, couponId).value;
    assert once[couponId := once[couponId].(isDeleted := true, status := Expired)] == once;
  }

  /** Deleting a live coupon frees its code: with codes unique, no live
      coupon holds it afterwards, so a coupon with that code can be created
      again. The invariant survives the delete. */
  lemma {:induction false} DeleteFreesCode(cat: Catalog, couponId: CouponId, request: CouponCreateRequest)
    requires Invariant(cat)
    requires couponId in cat.coupons && !cat.coupons[couponId].isDeleted
    requires request.code == cat.coupons[couponId].code
    ensures var m := DeleteCoupon(cat.coupons, couponId).value;
            && !CodeInUse(m, request.code)
            && Invariant(cat.(coupons := m))
            && CreateCoupon(cat.(coupons := m), request).Ok?
  {
    var m := DeleteCoupon(cat.coupons, couponId).value;
    assert forall id :: id in m ==> m[id].code == cat.coupons[id].code;
    assert forall id :: id in m && !m[id].isDeleted ==> !cat.coupons[id].isDeleted;
  }
}
