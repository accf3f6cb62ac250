/** CouponService.java over in-memory repositories: coupon entities by id,
    the saved issue entities, and the history rows. `issueCoupon` mutates the
    coupon entity in place; its effect on the whole store is the function
    `IssuanceModel.IssueCoupon` applied to the store before the call. */
module CouponServiceImpl {
  import opened Common
  import opened CouponEntity
  import opened CouponIssueEntity
  import CM = CouponModel
  import IM = IssueModel
  import opened IssuanceModel
  import opened IssueResultDto

  /** The rows of a sequence of issue entities. */
  ghost function Rows(s: seq<CouponIssue>): (r: seq<IM.IssueRow>)
    reads set x | x in s
    ensures |r| == |s|
    ensures forall i :: 0 <= i < |s| ==> r[i] == s[i].Row()
    decreases |s|
  {
    if s == [] then [] else Rows(s[..|s| - 1]) + [s[|s| - 1].Row()]
  }

  /** When no issue entity changed, neither did their rows. */
  twostate lemma RowsUnchanged(s: seq<CouponIssue>)
    requires unchanged(set x | x in s)
    ensures Rows(s) == old(Rows(s))
  {
  }

  class CouponService {
    var coupons: map<CouponId, Coupon>
    var issues: seq<CouponIssue>
    var histories: seq<CouponIssueHistory>

    /** Each coupon is stored under its own id, and each issue's coupon is
        the stored entity of that id. */
    ghost predicate Valid()
      reads this
    {
      && (forall id :: id in coupons ==> coupons[id].id == id)
      && (forall i :: 0 <= i < |issues| ==>
            issues[i].coupon.id in coupons && coupons[issues[i].coupon.id] == issues[i].coupon)
    }

    /** The repositories as values. */
    ghost function View(): Store
      reads this, coupons.Values, set x | x in issues
    {
      Store(States(coupons), Rows(issues), histories)
    }

    constructor (coupons: map<CouponId, Coupon>)
      requires forall id :: id in coupons ==> coupons[id].id == id
      ensures Valid()
      ensures this.coupons == coupons && issues == [] && histories == []
    {
      this.coupons := coupons;
      this.issues := [];
      this.histories := [];
    }

    /** issueCoupon: its effect on the repositories is the pure
        `IssuanceModel.IssueCoupon` of the repositories before the call. */
    method IssueCoupon(couponId: CouponId, userId: UserId, requestIp: string, now: Time, issueCode: string)
      returns (r: Result<CouponIssueResult>)
      requires Valid()
      modifies this, coupons.Values
      ensures Valid() && coupons == old(coupons)
      ensures var spec := IssuanceModel.IssueCoupon(old(View()), couponId, userId, requestIp, now, issueCode);
              && r == (if spec.Ok? then Ok(spec.value.result) else Err(spec.error))
              && View() == (if spec.Ok? then spec.value.store else old(View()))
    {
      if couponId !in coupons {
        return Err(CouponNotFound);
      }
      var result := IssueKnownCoupon(couponId, userId, requestIp, now, issueCode);
      r := Ok(result);
    }

    /** issueCoupon once findById has found the coupon. */
    method IssueKnownCoupon(couponId: CouponId, userId: UserId, requestIp: string, now: Time, issueCode: string)
      returns (r: CouponIssueResult)
      requires Valid() && couponId in coupons
      modifies this, coupons.Values
      ensures Valid() && coupons == old(coupons)
      ensures var spec := IssuanceModel.IssueCoupon(old(View()), couponId, userId, requestIp, now, issueCode);
              spec.Ok? && r == spec.value.result && View() == spec.value.store
    {
      ghost var before := View();
      var coupon := coupons[couponId];
      var attempt := TryIssue(couponId, userId, now);
      if attempt.Failed? {
        r := RecordFailure(before, couponId, userId, requestIp, now, issueCode, attempt.error);
      } else {
        r := RecordSuccess(before, couponId, userId, requestIp, now, issueCode, coupon);
      }
    }

    /** The catch block: save a FAIL history row and answer FAIL. */
    method RecordFailure(ghost before: Store, couponId: CouponId, userId: UserId, requestIp: string, now: Time,
                         issueCode: string, e: Error)
      returns (r: CouponIssueResult)
      requires Valid() && couponId in before.coupons && View() == before
      requires Attempt(before, couponId, userId, now) == Failed(e)
      modifies this`histories
      ensures Valid() && coupons == old(coupons)
      ensures var spec := IssuanceModel.IssueCoupon(before, couponId, userId, requestIp, now, issueCode);
              spec.Ok? && r == spec.value.result && View() == spec.value.store
    {
      SaveCouponIssueHistory(couponId, userId, requestIp, now, IssueFail, Some(e));
      IssueCouponFails(before, couponId, userId, requestIp, now, issueCode, e);
      r := FailResult(e);
    }

    /** The success path after issue(): save the new issue, then its SUCCESS
        history row, and answer SUCCESS with the new issue's id. */
    method RecordSuccess(ghost before: Store, couponId: CouponId, userId: UserId, requestIp: string, now: Time,
                         issueCode: string, coupon: Coupon)
      returns (r: CouponIssueResult)
      requires Valid() && couponId in coupons && coupons[couponId] == coupon && couponId in before.coupons
      requires Attempt(before, couponId, userId, now) == Done
      requires View() == before.(coupons := before.coupons[couponId := CM.Issue(before.coupons[couponId], now).coupon])
      modifies this
      ensures Valid() && coupons == old(coupons)
      ensures var spec := IssuanceModel.IssueCoupon(before, couponId, userId, requestIp, now, issueCode);
              spec.Ok? && r == spec.value.result && View() == spec.value.store
    {
      var issue := CreateCouponIssue(userId, coupon, now, issueCode);
      SaveCouponIssueHistory(couponId, userId, requestIp, now, IssueSuccess, None);
      IssueCouponSucceeds(before, couponId, userId, requestIp, now, issueCode);
      r := SuccessResult(issue.id);
    }

    /** The try block up to the save: the duplicate check, then the coupon's
        issue(), which changes that coupon entity and nothing else. */
    method TryIssue(couponId: CouponId, userId: UserId, now: Time) returns (attempt: Outcome)
      requires Valid() && couponId in coupons
      modifies coupons[couponId]
      ensures Valid() && coupons == old(coupons)
      ensures attempt == Attempt(old(View()), couponId, userId, now)
      ensures View() == old(View()).(coupons := old(View()).coupons[couponId :=
                if attempt.Done? then CM.Issue(old(View()).coupons[couponId], now).coupon
                else old(View()).coupons[couponId]])
    {
      ghost var before := States(coupons);
      var coupon := coupons[couponId];
      attempt := ValidateDuplicateIssue(couponId, userId);
      if attempt == Done {
        attempt := coupon.Issue(now);
      }
      forall id | id in coupons && id != couponId
        ensures coupons[id].State() == before[id]
      {
        assert coupons[id] != coupon;
      }
      StatesAfterChangeOf(coupons, couponId, before);
      RowsUnchanged(issues);
    }

    /** validateDuplicateIssue: an issue of this coupon for this user exists. */
    method ValidateDuplicateIssue(couponId: CouponId, userId: UserId) returns (o: Outcome)
      ensures o == (if HasIssue(Rows(issues), couponId, userId) then Failed(DuplicateCoupon) else Done)
    {
      if exists i | 0 <= i < |issues| :: issues[i].coupon.id == couponId && issues[i].userId == userId {
        o := Failed(DuplicateCoupon);
      } else {
        o := Done;
      }
    }

    /** createCouponIssue: build the issue with a generated code and save it
        under the next identity. */
    method CreateCouponIssue(userId: UserId, coupon: Coupon, now: Time, issueCode: string) returns (issue: CouponIssue)
      requires Valid() && coupon.id in coupons && coupons[coupon.id] == coupon
      modifies this
      ensures Valid()
      ensures fresh(issue) && issue.coupon == coupon
      ensures issue.Row() == IM.NewIssue(|old(issues)| + 1, coupon.id, userId, issueCode, now)
      ensures issues == old(issues) + [issue]
      ensures coupons == old(coupons) && histories == old(histories)
      ensures issue.id == |old(issues)| + 1
      ensures View() == old(View()).(issues := old(View()).issues + [IM.NewIssue(|old(issues)| + 1, coupon.id, userId, issueCode, now)])
    {
      ghost var saved := issues;
      issue := new CouponIssue(|issues| + 1, coupon, userId, issueCode, now);
      issues := issues + [issue];
      StatesUnchanged(coupons);
      RowsUnchanged(saved);
      assert issues[..|issues| - 1] == saved;
    }

    /** saveCouponIssueHistory: append one audit row. */
    method SaveCouponIssueHistory(couponId: CouponId, userId: UserId, requestIp: string, now: Time,
                                  result: IssueResult, failReason: Option<Error>)
      requires Valid()
      modifies this`histories
      ensures Valid()
      ensures histories == old(histories) + [History(couponId, userId, requestIp, now, result, failReason)]
      ensures coupons == old(coupons) && issues == old(issues)
      ensures View() == old(View()).(histories := old(View()).histories + [History(couponId, userId, requestIp, now, result, failReason)])
    {
      histories := histories + [History(couponId, userId, requestIp, now, result, failReason)];
      StatesUnchanged(coupons);
      RowsUnchanged(issues);
    }

    /** useCoupon is an empty stub: it changes nothing. */
    method UseCoupon(couponIssueId: IssueId)
      ensures unchanged(this)
    {
    }
  }
}
