/** CouponIssue.java as a mutable entity holding a reference to the coupon
    it was issued from; redeeming it also updates that coupon. */
module CouponIssueEntity {
  import opened Common
  import opened CouponEntity
  import IM = IssueModel

  class CouponIssue {
    const id: IssueId
    const coupon: Coupon
    const userId: UserId
    const issueCode: string
    var used: bool
    var issuedAt: Time
    var usedAt: Option<Time>
    var status: CouponIssueStatus

    /** The row value; the coupon appears through its identity. */
    function Row(): IM.IssueRow
      reads this
    {
      IM.IssueRow(id, coupon.id, userId, issueCode, used, issuedAt, usedAt, status)
    }

    ghost predicate Valid()
      reads this
    {
      IM.UseConsistent(Row())
    }

    constructor (id: IssueId, coupon: Coupon, userId: UserId, issueCode: string, now: Time)
      ensures this.coupon == coupon
      ensures Row() == IM.NewIssue(id, coupon.id, userId, issueCode, now)
      ensures Valid()
    {
      this.id := id;
      this.coupon := coupon;
      this.userId := userId;
      this.issueCode := issueCode;
      this.used := false;
      this.issuedAt := now;
      this.usedAt := None;
      this.status := Issued;
    }

    method Use(now: Time) returns (o: Outcome)
      modifies this, coupon
      ensures o == IM.Use(old(Row()), old(coupon.State()), now).outcome
      ensures Row() == IM.Use(old(Row()), old(coupon.State()), now).issue
      ensures coupon.State() == IM.Use(old(Row()), old(coupon.State()), now).coupon
      ensures old(Valid()) ==> Valid()
    {
      if used {
        return Failed(CouponAlreadyUsed);
      }
      o := coupon.ValidateForUse(now);
      if o.Failed? {
        return;
      }
      used := true;
      usedAt := Some(now);
      status := Used;
      coupon.IncreaseUsedCount();
    }
  }
}
