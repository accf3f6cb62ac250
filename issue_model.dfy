/** An issued coupon (CouponIssue.java) as a value, and its redemption:
    the two-state machine ISSUED -> USED, guarded by the `used` flag and by the
    owning coupon's usability. */
module IssueModel {
  import opened Common
  import opened CouponModel

  datatype IssueRow = IssueRow(
    id: IssueId,
    couponId: CouponId,
    userId: UserId,
    issueCode: string,
    used: bool,
    issuedAt: Time,
    usedAt: Option<Time>,
    status: CouponIssueStatus)

  /** The redemption invariant: used, status USED and a use time go together. */
  predicate UseConsistent(r: IssueRow)
  {
    && r.used == (r.status == Used)
    && r.used == r.usedAt.Some?
  }

  /** The builder constructor of CouponIssue. */
  function NewIssue(id: IssueId, couponId: CouponId, userId: UserId, issueCode: string, now: Time): (r: IssueRow)
    ensures r.id == id && r.couponId == couponId && r.userId == userId && r.issueCode == issueCode
    ensures !r.used && r.status == Issued && r.usedAt == None && r.issuedAt == now
    ensures UseConsistent(r)
  {
    IssueRow(id, couponId, userId, issueCode, false, now, None, Issued)
  }

  datatype UseStep = UseStep(outcome: Outcome, issue: IssueRow, coupon: CouponState)

  /** use(): refuse a used issue, then an unusable coupon; otherwise mark the
      issue used now and count one more use on the coupon. */
  function Use(r: IssueRow, c: CouponState, now: Time): (s: UseStep)
    ensures s.outcome == Done <==> !r.used && IsAvailable(c, now)
    ensures r.used ==> s == UseStep(Failed(CouponAlreadyUsed), r, c)
    ensures !r.used && !IsAvailable(c, now) ==> s == UseStep(Failed(CouponNotAvailable(NotUsable)), r, c)
    ensures s.outcome == Done ==>
              && s.issue == r.(used := true, usedAt := Some(now), status := Used)
              && s.coupon == c.(usedCount := c.usedCount + 1)
              && s.coupon.usedCount <= s.coupon.totalStock
    ensures UseConsistent(r) ==> UseConsistent(s.issue)
  {
    if r.used then UseStep(Failed(CouponAlreadyUsed), r, c)
    else match ValidateForUse(c, now)
      case Failed(e) => UseStep(Failed(e), r, c)
      case Done => UseStep(Done, r.(used := true, usedAt := Some(now), status := Used),
                           c.(usedCount := c.usedCount + 1))
  }

  /** Redeeming the same issue again, at the same time or later, fails. */
  lemma {:induction false} SecondUseFails(r: IssueRow, c: CouponState, now: Time, later: Time)
    requires now <= later
    ensures var first := Use(r, c, now);
            Use(first.issue, first.coupon, later).outcome.Failed?
  {
    var first := Use(r, c, now);
    if first.outcome.Failed? && !r.used {
      UnavailableStaysUnavailable(c, now, later);
    }
  }

  datatype UseRun = UseRun(issue: IssueRow, coupon: CouponState, successes: nat)

  /** One issue redeemed over and over, once per time in `times`. */
  function UseAll(r: IssueRow, c: CouponState, times: seq<Time>): UseRun
    decreases |times|
  {
    if times == [] then UseRun(r, c, 0)
    else
      var s := Use(r, c, times[0]);
      var rest := UseAll(s.issue, s.coupon, times[1..]);
      rest.(successes := rest.successes + (if s.outcome == Done then 1 else 0))
  }

  /** Once used, an issue refuses every further redemption and nothing changes. */
  lemma {:induction false} UsedIssueIsInert(r: IssueRow, c: CouponState, times: seq<Time>)
    requires r.used
    ensures UseAll(r, c, times) == UseRun(r, c, 0)
    decreases |times|
  {
    if times != [] {
      UsedIssueIsInert(r, c, times[1..]);
    }
  }

  /** However often one issue is redeemed, it succeeds at most once and adds
      at most one to the coupon's used count, and only the count changes. */
  lemma {:induction false} IssueCountsAtMostOnce(r: IssueRow, c: CouponState, times: seq<Time>)
    ensures UseAll(r, c, times).successes <= 1
    ensures UseAll(r, c, times).coupon.usedCount <= c.usedCount + 1
    ensures UseAll(r, c, times).coupon == c.(usedCount := UseAll(r, c, times).coupon.usedCount)
    decreases |times|
  {
    if times != [] {
      var s := Use(r, c, times[0]);
      if s.outcome == Done {
        UsedIssueIsInert(s.issue, s.coupon, times[1..]);
      } else {
        IssueCountsAtMostOnce(r, c, times[1..]);
      }
    }
  }

  datatype Redemption = Redemption(issues: seq<IssueRow>, coupon: CouponState, successes: nat)

  /** Distinct issues of one coupon redeemed one after another at `now`,
      each seeing the coupon as the previous redemption left it. */
  function UseEach(rows: seq<IssueRow>, c: CouponState, now: Time): (r: Redemption)
    ensures |r.issues| == |rows|
    decreases |rows|
  {
    if rows == [] then Redemption([], c, 0)
    else
      var s := Use(rows[0], c, now);
      var rest := UseEach(rows[1..], s.coupon, now);
      Redemption([s.issue] + rest.issues, rest.coupon, rest.successes + (if s.outcome == Done then 1 else 0))
  }

  /** The coupon's total caps redemption: when every issue is still unused
      and the coupon is otherwise usable, exactly min(room, |rows|) of them
      succeed, where room is totalStock - usedCount, the coupon's used count
      grows by exactly that many and never passes its total, and nothing
      else about the coupon changes. */
  lemma {:induction false} RedemptionCappedByTotal(rows: seq<IssueRow>, c: CouponState, now: Time)
    requires forall i :: 0 <= i < |rows| ==> !rows[i].used
    requires !c.isDeleted && now <= c.expireTime && c.status in {Active, Exhausted}
    requires c.usedCount <= c.totalStock
    ensures var r := UseEach(rows, c, now);
            && r.successes == Min(c.totalStock - c.usedCount, |rows|)
            && r.coupon == c.(usedCount := c.usedCount + r.successes)
            && r.coupon.usedCount <= c.totalStock
    decreases |rows|
  {
    if rows != [] {
      var s := Use(rows[0], c, now);
      forall i | 0 <= i < |rows[1..]|
        ensures !rows[1..][i].used
      {
        assert rows[1..][i] == rows[i + 1];
      }
      RedemptionCappedByTotal(rows[1..], s.coupon, now);
    }
  }
}
