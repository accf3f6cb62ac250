/** CouponAdminService.java over an in-memory coupon repository. Each
    operation's effect on the repository is the matching function of
    `AdminModel` applied to the repository before the call. */
module CouponAdminServiceImpl {
  import opened Common
  import opened CouponEntity
  import CM = CouponModel
  import CR = CreateRequest
  import AM = AdminModel

  /** CouponResponse.from(coupon) */
  function ResponseFrom(coupon: Coupon): (r: AM.CouponResponse)
    reads coupon
    ensures r.id == coupon.id && r.coupon == coupon.State()
  {
    AM.CouponResponse(coupon.id, coupon.State())
  }

  class CouponAdminService {
    var coupons: map<CouponId, Coupon>
    /** The identity the repository gives the next saved coupon. */
    var nextId: CouponId

    /** Each coupon is stored under its own identity, below the next one. */
    ghost predicate Valid()
      reads this
    {
      forall id :: id in coupons ==> coupons[id].id == id && id < nextId
    }

    /** The repository as a value. */
    ghost function View(): AM.Catalog
      reads this, coupons.Values
    {
      AM.Catalog(States(coupons), nextId)
    }

    constructor (nextId: CouponId)
      ensures Valid()
      ensures View() == AM.Catalog(map[], nextId)
    {
      this.coupons := map[];
      this.nextId := nextId;
    }

    /** createCoupon */
    method CreateCoupon(request: CR.CouponCreateRequest) returns (r: Result<AM.CouponResponse>)
      requires Valid()
      modifies this
      ensures Valid()
      ensures var spec := AM.CreateCoupon(old(View()), request);
              && r == (if spec.Ok? then Ok(spec.value.response) else Err(spec.error))
              && View() == (if spec.Ok? then spec.value.catalog else old(View()))
      ensures old(AM.Invariant(View())) ==> AM.Invariant(View())
    {
      ghost var before := View();
      if AM.Invariant(before) {
        AM.CreateKeepsInvariant(before, request);
      }
      var o := ValidateAlreadyExistCoupon(request);
      if o.Failed? {
        return Err(o.error);
      }
      var coupon := GetCoupon(nextId, request);
      Save(coupon);
      r := Ok(ResponseFrom(coupon));
    }

    /** couponRepository.save of a new coupon: it is stored under the next
        identity, which then moves on. */
    method Save(coupon: Coupon)
      requires Valid() && coupon.id == nextId && coupon !in coupons.Values
      modifies this
      ensures Valid()
      ensures coupons == old(coupons)[old(nextId) := coupon] && nextId == old(nextId) + 1
      ensures View() == AM.Catalog(old(View()).coupons[old(nextId) := coupon.State()], old(nextId) + 1)
    {
      ghost var before := View();
      assert States(coupons) == before.coupons;
      coupons := coupons[nextId := coupon];
      nextId := nextId + 1;
      assert States(coupons) == before.coupons[coupon.id := coupon.State()];
    }

    /** validateAlreadyExistCoupon */
    method ValidateAlreadyExistCoupon(request: CR.CouponCreateRequest) returns (o: Outcome)
      ensures o == AM.ValidateAlreadyExistCoupon(States(coupons), request)
    {
      if exists id | id in coupons :: coupons[id].code == request.code && !coupons[id].isDeleted {
        o := Failed(CouponAlreadyExists);
      } else {
        o := Done;
      }
    }

    /** getCoupon, built with the identity that saving it assigns. */
    method GetCoupon(id: CouponId, request: CR.CouponCreateRequest) returns (coupon: Coupon)
      ensures fresh(coupon)
      ensures coupon !in coupons.Values
      ensures coupon.id == id && coupon.State() == AM.GetCoupon(request)
    {
      coupon := new Coupon(id, request.name, request.code, request.totalStock, request.couponType,
                           request.discountValue, request.startTime, request.endTime, request.expireTime);
    }

    /** updateCoupon */
    method UpdateCoupon(couponId: CouponId, request: CM.CouponUpdateRequest) returns (r: Result<AM.CouponResponse>)
      requires Valid()
      modifies coupons.Values
      ensures Valid()
      ensures var spec := AM.UpdateCoupon(old(View()).coupons, couponId, request);
              && r == (if spec.Ok? then Ok(spec.value.response) else Err(spec.error))
              && View() == (if spec.Ok? then old(View()).(coupons := spec.value.coupons) else old(View()))
      ensures old(AM.Invariant(View())) ==> AM.Invariant(View())
    {
      ghost var before := View();
      if AM.Invariant(before) {
        AM.UpdateKeepsInvariant(before, couponId, request);
      }
      if couponId !in coupons {
        return Err(CouponNotFound);
      }
      var coupon := coupons[couponId];
      if coupon.usedCount > 0 {
        return Err(CouponAlreadyUsed);
      }
      if coupon.isDeleted {
        return Err(CouponNotAvailable(DeletedCoupon));
      }
      var o := coupon.Update(request);
      assert States(coupons) == before.coupons[couponId := coupon.State()] by {
        assert forall id :: id in coupons && id != couponId ==> coupons[id] != coupon;
      }
      if o.Failed? {
        return Err(o.error);
      }
      r := Ok(ResponseFrom(coupon));
    }

    /** deleteCoupon */
    method DeleteCoupon(couponId: CouponId) returns (o: Outcome)
      requires Valid()
      modifies coupons.Values
      ensures Valid()
      ensures var spec := AM.DeleteCoupon(old(View()).coupons, couponId);
              && o == (if spec.Ok? then Done else Failed(spec.error))
              && View() == (if spec.Ok? then old(View()).(coupons := spec.value) else old(View()))
    {
      ghost var before := View();
      if couponId !in coupons {
        return Failed(CouponNotFound);
      }
      var coupon := coupons[couponId];
      coupon.MarkAsDeleted();
      coupon.ChangeStatus(Expired);
      assert States(coupons) == before.coupons[couponId := coupon.State()] by {
        assert forall id :: id in coupons && id != couponId ==> coupons[id] != coupon;
      }
      o := Done;
    }
  }
}
