/** Coupon.java as a mutable entity. Every method is specified by the
    matching function of `CouponModel` applied to the state before the call. */
module CouponEntity {
  import opened Common
  import M = CouponModel

  class Coupon {
    /** The identity the repository gives the row when it is saved. */
    const id: CouponId
    var name: string
    /** Never reassigned after construction. */
    const code: string
    var totalStock: int
    var remainStock: int
    var usedCount: int
    var couponType: Option<CouponType>
    var discountValue: int
    var startTime: Time
    var endTime: Time
    var expireTime: Time
    var status: CouponStatus
    var isDeleted: bool

    /** The value of all fields but the identity. */
    function State(): M.CouponState
      reads this
    {
      M.CouponState(name, code, totalStock, remainStock, usedCount, couponType, discountValue,
                    startTime, endTime, expireTime, status, isDeleted)
    }

    constructor (id: CouponId, name: string, code: string, totalStock: int, couponType: Option<CouponType>,
                 discountValue: int, startTime: Time, endTime: Time, expireTime: Time)
      ensures this.id == id
      ensures State() == M.NewCoupon(name, code, totalStock, couponType, discountValue, startTime, endTime, expireTime)
    {
      this.id := id;
      this.name := name;
      this.code := code;
      this.totalStock := totalStock;
      this.remainStock := totalStock;
      this.usedCount := 0;
      this.couponType := couponType;
      this.discountValue := discountValue;
      this.startTime := startTime;
      this.endTime := endTime;
      this.expireTime := expireTime;
      this.status := Active;
      this.isDeleted := false;
    }

    method Issue(now: Time) returns (o: Outcome)
      modifies this
      ensures o == M.Issue(old(State()), now).outcome
      ensures State() == M.Issue(old(State()), now).coupon
    {
      o := M.ValidateForIssue(State(), now);
      if o.Failed? {
        return;
      }
      remainStock := remainStock - 1;
      if remainStock == 0 {
        status := Exhausted;
      }
    }

    method Update(request: M.CouponUpdateRequest) returns (o: Outcome)
      modifies this
      ensures o == M.Update(old(State()), request).outcome
      ensures State() == M.Update(old(State()), request).coupon
    {
      o := M.ValidateUpdateTime(request.startTime, request.endTime, request.expireTime);
      if o.Failed? {
        return;
      }
      name := request.name;
      totalStock := request.totalStock;
      discountValue := request.discountValue;
      couponType := request.couponType;
      startTime := request.startTime;
      endTime := request.endTime;
      expireTime := request.expireTime;
    }

    method IncreaseUsedCount()
      modifies this
      ensures State() == old(State()).(usedCount := old(usedCount) + 1)
    {
      usedCount := usedCount + 1;
    }

    /** Sets the deleted flag and nothing else; a second call changes nothing. */
    method MarkAsDeleted()
      modifies this
      ensures State() == old(State()).(isDeleted := true)
      ensures old(isDeleted) ==> State() == old(State())
    {
      isDeleted := true;
    }

    method ChangeStatus(newStatus: CouponStatus)
      modifies this
      ensures State() == old(State()).(status := newStatus)
    {
      status := newStatus;
    }

    /** isAllUsed */
    predicate IsAllUsed()
      reads this
      ensures IsAllUsed() == M.IsAllUsed(State())
    {
      usedCount >= totalStock
    }

    /** isExpired, with the clock passed in */
    predicate IsExpired(now: Time)
      reads this
      ensures IsExpired(now) == M.IsExpired(State(), now)
    {
      now > expireTime
    }

    /** isAvailable */
    predicate IsAvailable(now: Time)
      reads this
      ensures IsAvailable(now) == M.IsAvailable(State(), now)
    {
      !isDeleted && !IsExpired(now) && !IsAllUsed() && (status == Active || status == Exhausted)
    }

    /** validateForUse */
    function ValidateForUse(now: Time): (o: Outcome)
      reads this
      ensures o == M.ValidateForUse(State(), now)
    {
      if !IsAvailable(now) then Failed(CouponNotAvailable(NotUsable)) else Done
    }
  }

  /** The states of the coupon entities by id. */
  ghost function States(m: map<CouponId, Coupon>): (r: map<CouponId, M.CouponState>)
    reads m.Values
    ensures r.Keys == m.Keys
    ensures forall id :: id in m ==> r[id] == m[id].State()
  {
    map id | id in m :: m[id].State()
  }

  /** When every entity but the one stored under `k` still has its earlier
      state, the states differ from the earlier ones at `k` alone. */
  lemma StatesAfterChangeOf(m: map<CouponId, Coupon>, k: CouponId, before: map<CouponId, M.CouponState>)
    requires k in m && before.Keys == m.Keys
    requires forall id :: id in m && id != k ==> m[id].State() == before[id]
    ensures States(m) == before[k := m[k].State()]
  {
  }

  /** When no entity changed, neither did their states. */
  twostate lemma StatesUnchanged(m: map<CouponId, Coupon>)
    requires unchanged(m.Values)
    ensures States(m) == old(States(m))
  {
  }
}
