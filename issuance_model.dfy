/** The issuance service (CouponService.issueCoupon) over its three
    repositories taken as values: coupons by id, the issued coupons and the
    append-only issue history. A run of calls is a fold of single calls; the
    lemmas state what the service keeps true along a run. */
module IssuanceModel {
  import opened Common
  import opened CouponModel
  import opened IssueModel
  import opened IssueResultDto

  /** CouponIssueHistory.java: one audit row per attempt. */
  datatype CouponIssueHistory = CouponIssueHistory(
    couponId: CouponId,
    userId: UserId,
    requestIp: string,
    requestTime: Time,
    result: IssueResult,
    failReason: Option<Error>)

  datatype Store = Store(
    coupons: map<CouponId, CouponState>,
    issues: seq<IssueRow>,
    histories: seq<CouponIssueHistory>)

  /** existsByCouponIdAndUserId */
  predicate HasIssue(issues: seq<IssueRow>, couponId: CouponId, userId: UserId)
  {
    exists i :: 0 <= i < |issues| && issues[i].couponId == couponId && issues[i].userId == userId
  }

  /** The number of issued coupons of one coupon. */
  function CountIssues(issues: seq<IssueRow>, couponId: CouponId): nat
    decreases |issues|
  {
    if issues == [] then 0
    else CountIssues(issues[..|issues| - 1], couponId) + (if issues[|issues| - 1].couponId == couponId then 1 else 0)
  }

  /** The number of successful attempts recorded for one coupon. */
  function CountSuccesses(histories: seq<CouponIssueHistory>, couponId: CouponId): nat
    decreases |histories|
  {
    if histories == [] then 0
    else CountSuccesses(histories[..|histories| - 1], couponId)
         + (if histories[|histories| - 1].couponId == couponId && histories[|histories| - 1].result == IssueSuccess
            then 1 else 0)
  }

  /** No user holds two issues of the same coupon. */
  predicate OneIssuePerUser(issues: seq<IssueRow>)
  {
    forall i, j :: 0 <= i < j < |issues| ==>
      issues[i].couponId != issues[j].couponId || issues[i].userId != issues[j].userId
  }

  /** What is left plus what was issued is the total, coupon by coupon. */
  predicate StockConserved(db: Store)
  {
    forall id :: id in db.coupons ==>
      db.coupons[id].remainStock + CountIssues(db.issues, id) == db.coupons[id].totalStock
  }

  /** The identity column: the n-th saved issue has id n. */
  predicate IdsSequential(issues: seq<IssueRow>)
  {
    forall i :: 0 <= i < |issues| ==> issues[i].id == i + 1
  }

  /** The audit trail agrees with the issues: per coupon, as many SUCCESS
      rows as issued coupons. */
  predicate AuditMatchesIssues(db: Store)
  {
    forall id :: id in db.coupons ==> CountSuccesses(db.histories, id) == CountIssues(db.issues, id)
  }

  predicate Invariant(db: Store)
  {
    OneIssuePerUser(db.issues) && StockConserved(db) && IdsSequential(db.issues) && AuditMatchesIssues(db)
  }

  /** saveCouponIssueHistory */
  function History(couponId: CouponId, userId: UserId, requestIp: string, now: Time,
                   result: IssueResult, failReason: Option<Error>): CouponIssueHistory
  {
    CouponIssueHistory(couponId, userId, requestIp, now, result, failReason)
  }

  datatype IssueOutput = IssueOutput(result: CouponIssueResult, store: Store)

  /** The checks inside the try block: the duplicate check first, then the
      coupon's own issue(). */
  function Attempt(db: Store, couponId: CouponId, userId: UserId, now: Time): Outcome
    requires couponId in db.coupons
  {
    if HasIssue(db.issues, couponId, userId) then Failed(DuplicateCoupon)
    else Issue(db.coupons[couponId], now).outcome
  }

  /** issueCoupon(couponId, userId, requestIp), with the clock and the
      generated issue code passed in. An unknown coupon throws; every other
      failure is caught, written to the history and returned as FAIL. */
  function IssueCoupon(db: Store, couponId: CouponId, userId: UserId, requestIp: string,
                       now: Time, issueCode: string): (r: Result<IssueOutput>)
    ensures r.Err? <==> couponId !in db.coupons
    ensures r.Err? ==> r.error == CouponNotFound
    ensures r.Ok? ==>
              var s := r.value.store;
              && s.coupons.Keys == db.coupons.Keys
              && |s.histories| == |db.histories| + 1
              && s.histories[..|db.histories|] == db.histories
              && s.histories[|db.histories|].couponId == couponId
              && s.histories[|db.histories|].userId == userId
              && s.histories[|db.histories|].requestIp == requestIp
              && s.histories[|db.histories|].requestTime == now
              && (s.histories[|db.histories|].result == IssueSuccess <==> r.value.result.IsSuccess())
              && (s.histories[|db.histories|].failReason == None <==> r.value.result.IsSuccess())
    ensures r.Ok? ==>
              (r.value.result.IsSuccess() <==>
                 !HasIssue(db.issues, couponId, userId) && Issue(db.coupons[couponId], now).outcome == Done)
    ensures r.Ok? && HasIssue(db.issues, couponId, userId) ==>
              && r.value.result == FailResult(DuplicateCoupon)
              && r.value.store.histories[|db.histories|].failReason == Some(DuplicateCoupon)
    ensures r.Ok? && !HasIssue(db.issues, couponId, userId) && Issue(db.coupons[couponId], now).outcome.Failed? ==>
              && r.value.result == FailResult(Issue(db.coupons[couponId], now).outcome.error)
              && r.value.store.histories[|db.histories|].failReason == Some(Issue(db.coupons[couponId], now).outcome.error)
    ensures r.Ok? && !r.value.result.IsSuccess() ==>
              r.value.store.coupons == db.coupons && r.value.store.issues == db.issues
    ensures r.Ok? && r.value.result.IsSuccess() ==>
              && r.value.store.coupons == db.coupons[couponId := Issue(db.coupons[couponId], now).coupon]
              && r.value.store.issues == db.issues + [NewIssue(|db.issues| + 1, couponId, userId, issueCode, now)]
              && r.value.result == SuccessResult(|db.issues| + 1)
  {
    if couponId !in db.coupons then Err(CouponNotFound)
    else
      match Attempt(db, couponId, userId, now)
      case Failed(e) =>
        Ok(IssueOutput(FailResult(e),
                  db.(histories := db.histories + [History(couponId, userId, requestIp, now, IssueFail, Some(e))])))
      case Done =>
        var issue := NewIssue(|db.issues| + 1, couponId, userId, issueCode, now);
        Ok(IssueOutput(SuccessResult(issue.id),
                  Store(db.coupons[couponId := Issue(db.coupons[couponId], now).coupon],
                        db.issues + [issue],
                        db.histories + [History(couponId, userId, requestIp, now, IssueSuccess, None)])))
  }

  /** The two outcomes of a call on a known coupon, written out. */
  lemma IssueCouponFails(db: Store, couponId: CouponId, userId: UserId, requestIp: string,
                         now: Time, issueCode: string, e: Error)
    requires couponId in db.coupons
    requires Attempt(db, couponId, userId, now) == Failed(e)
    ensures IssueCoupon(db, couponId, userId, requestIp, now, issueCode)
         == Ok(IssueOutput(FailResult(e),
                           db.(histories := db.histories + [History(couponId, userId, requestIp, now, IssueFail, Some(e))])))
  {
  }

  lemma IssueCouponSucceeds(db: Store, couponId: CouponId, userId: UserId, requestIp: string,
                            now: Time, issueCode: string)
    requires couponId in db.coupons
    requires Attempt(db, couponId, userId, now) == Done
    ensures IssueCoupon(db, couponId, userId, requestIp, now, issueCode)
         == Ok(IssueOutput(SuccessResult(|db.issues| + 1),
                           Store(db.coupons[couponId := Issue(db.coupons[couponId], now).coupon],
                                 db.issues + [NewIssue(|db.issues| + 1, couponId, userId, issueCode, now)],
                                 db.histories + [History(couponId, userId, requestIp, now, IssueSuccess, None)])))
  {
  }

  lemma {:induction false} CountIssuesAppend(issues: seq<IssueRow>, issue: IssueRow, couponId: CouponId)
    ensures CountIssues(issues + [issue], couponId)
         == CountIssues(issues, couponId) + (if issue.couponId == couponId then 1 else 0)
  {
    assert (issues + [issue])[..|issues|] == issues;
  }

  lemma {:induction false} CountSuccessesAppend(histories: seq<CouponIssueHistory>, row: CouponIssueHistory, couponId: CouponId)
    ensures CountSuccesses(histories + [row], couponId)
         == CountSuccesses(histories, couponId) + (if row.couponId == couponId && row.result == IssueSuccess then 1 else 0)
  {
    assert (histories + [row])[..|histories|] == histories;
  }

  /** A failed call only appends a FAIL row, which keeps the invariant. */
  lemma {:induction false} FailureKeepsInvariant(db: Store, row: CouponIssueHistory)
    requires Invariant(db)
    requires row.result == IssueFail
    ensures Invariant(db.(histories := db.histories + [row]))
  {
    forall id | id in db.coupons
      ensures CountSuccesses(db.histories + [row], id) == CountSuccesses(db.histories, id)
    {
      CountSuccessesAppend(db.histories, row, id);
    }
  }

  /** Appending an issue for a user who holds none of that coupon keeps
      one issue per user. */
  lemma {:induction false} AppendKeepsOneIssuePerUser(issues: seq<IssueRow>, issue: IssueRow)
    requires OneIssuePerUser(issues)
    requires !HasIssue(issues, issue.couponId, issue.userId)
    ensures OneIssuePerUser(issues + [issue])
  {
    var s := issues + [issue];
    forall i, j | 0 <= i < j < |s|
      ensures s[i].couponId != s[j].couponId || s[i].userId != s[j].userId
    {
      if j == |issues| {
        assert s[i] == issues[i];
      }
    }
  }

  /** Taking one unit off a coupon's stock while appending one issue of it
      keeps every coupon's balance and the audit agreement, given a SUCCESS
      row for the same coupon. */
  lemma {:induction false} AppendKeepsCounts(db: Store, c: CouponState, issue: IssueRow, row: CouponIssueHistory)
    requires StockConserved(db) && AuditMatchesIssues(db)
    requires issue.couponId in db.coupons
    requires c.remainStock == db.coupons[issue.couponId].remainStock - 1
    requires c.totalStock == db.coupons[issue.couponId].totalStock
    requires row.couponId == issue.couponId && row.result == IssueSuccess
    ensures var s := Store(db.coupons[issue.couponId := c], db.issues + [issue], db.histories + [row]);
            StockConserved(s) && AuditMatchesIssues(s)
  {
    var s := Store(db.coupons[issue.couponId := c], db.issues + [issue], db.histories + [row]);
    forall id | id in s.coupons
      ensures s.coupons[id].remainStock + CountIssues(s.issues, id) == s.coupons[id].totalStock
      ensures CountSuccesses(s.histories, id) == CountIssues(s.issues, id)
    {
      CountIssuesAppend(db.issues, issue, id);
      CountSuccessesAppend(db.histories, row, id);
    }
  }

  /** A successful call changes one coupon by issue(), appends the next
      issue and a SUCCESS row for that coupon, which keeps the invariant. */
  lemma {:induction false} SuccessKeepsInvariant(db: Store, couponId: CouponId, userId: UserId, requestIp: string,
                                                now: Time, issueCode: string)
    requires Invariant(db)
    requires couponId in db.coupons
    requires Attempt(db, couponId, userId, now) == Done
    ensures Invariant(Store(db.coupons[couponId := Issue(db.coupons[couponId], now).coupon],
                            db.issues + [NewIssue(|db.issues| + 1, couponId, userId, issueCode, now)],
                            db.histories + [History(couponId, userId, requestIp, now, IssueSuccess, None)]))
  {
    var issue := NewIssue(|db.issues| + 1, couponId, userId, issueCode, now);
    AppendKeepsOneIssuePerUser(db.issues, issue);
    AppendKeepsCounts(db, Issue(db.coupons[couponId], now).coupon, issue,
                      History(couponId, userId, requestIp, now, IssueSuccess, None));
    assert IdsSequential(db.issues + [issue]) by {
      forall i | 0 <= i < |db.issues| + 1
        ensures (db.issues + [issue])[i].id == i + 1
      {
        if i < |db.issues| {
          assert (db.issues + [issue])[i] == db.issues[i];
        }
      }
    }
  }

  /** One call keeps at most one issue per user, the stock balance of every
      coupon, the identity column, and the agreement of the audit trail. */
  lemma {:induction false} IssueCouponKeepsInvariant(db: Store, couponId: CouponId, userId: UserId, requestIp: string,
                                                    now: Time, issueCode: string)
    requires Invariant(db)
    ensures var r := IssueCoupon(db, couponId, userId, requestIp, now, issueCode);
            r.Ok? ==> Invariant(r.value.store)
  {
    if couponId in db.coupons {
      match Attempt(db, couponId, userId, now)
      case Failed(e) =>
        FailureKeepsInvariant(db, History(couponId, userId, requestIp, now, IssueFail, Some(e)));
      case Done =>
        SuccessKeepsInvariant(db, couponId, userId, requestIp, now, issueCode);
    }
  }

  /** One issueCoupon call: the repository row it names, the caller, and the
      two oracles (the request time and the generated issue code). */
  datatype Request = Request(couponId: CouponId, userId: UserId, requestIp: string, now: Time, issueCode: string)

  datatype Run = Run(store: Store, successes: nat)

  /** Sequential calls; a call on an unknown coupon throws and changes nothing. */
  function IssueAll(db: Store, requests: seq<Request>): Run
    decreases |requests|
  {
    if requests == [] then Run(db, 0)
    else
      var q := requests[0];
      match IssueCoupon(db, q.couponId, q.userId, q.requestIp, q.now, q.issueCode)
      case Err(_) => IssueAll(db, requests[1..])
      case Ok(step) =>
        var rest := IssueAll(step.store, requests[1..]);
        rest.(successes := rest.successes + (if step.result.IsSuccess() then 1 else 0))
  }

  /** Every run keeps the invariant. */
  lemma {:induction false} IssueAllKeepsInvariant(db: Store, requests: seq<Request>)
    requires Invariant(db)
    ensures Invariant(IssueAll(db, requests).store)
    decreases |requests|
  {
    if requests != [] {
      var q := requests[0];
      IssueCouponKeepsInvariant(db, q.couponId, q.userId, q.requestIp, q.now, q.issueCode);
      var r := IssueCoupon(db, q.couponId, q.userId, q.requestIp, q.now, q.issueCode);
      if r.Ok? {
        IssueAllKeepsInvariant(r.value.store, requests[1..]);
      } else {
        IssueAllKeepsInvariant(db, requests[1..]);
      }
    }
  }

  /** Audit completeness: on known coupons, every attempt leaves exactly one
      history row, and earlier rows are never touched. */
  lemma {:induction false} IssueAllAuditsEveryAttempt(db: Store, requests: seq<Request>)
    requires forall i :: 0 <= i < |requests| ==> requests[i].couponId in db.coupons
    ensures |IssueAll(db, requests).store.histories| == |db.histories| + |requests|
    ensures IssueAll(db, requests).store.histories[..|db.histories|] == db.histories
    ensures IssueAll(db, requests).store.coupons.Keys == db.coupons.Keys
    decreases |requests|
  {
    if requests != [] {
      var q := requests[0];
      var step := IssueCoupon(db, q.couponId, q.userId, q.requestIp, q.now, q.issueCode).value;
      IssueAllAuditsEveryAttempt(step.store, requests[1..]);
      var h := IssueAll(db, requests).store.histories;
      assert h[..|step.store.histories|] == step.store.histories;
      assert h[..|db.histories|] == step.store.histories[..|db.histories|];
    }
  }

  /** Requests for one coupon, from users that are distinct and hold no
      issue of it yet, all inside the coupon's issue window. */
  predicate FreshUsersInWindow(db: Store, couponId: CouponId, requests: seq<Request>)
    requires couponId in db.coupons
  {
    && (forall i :: 0 <= i < |requests| ==> requests[i].couponId == couponId)
    && (forall i :: 0 <= i < |requests| ==>
          db.coupons[couponId].startTime <= requests[i].now <= db.coupons[couponId].expireTime)
    && (forall i, j :: 0 <= i < j < |requests| ==> requests[i].userId != requests[j].userId)
    && (forall i :: 0 <= i < |requests| ==> !HasIssue(db.issues, couponId, requests[i].userId))
  }

  /** The flash sale: with N units left and M fresh users asking inside the
      window, exactly min(N, M) succeed, the stock drops by that much, and the
      coupon is EXHAUSTED once the last unit has gone; nothing else of the
      coupon changes. */
  lemma {:induction false} FlashSale(db: Store, couponId: CouponId, requests: seq<Request>)
    requires couponId in db.coupons
    requires db.coupons[couponId].remainStock >= 0
    requires FreshUsersInWindow(db, couponId, requests)
    ensures var c := db.coupons[couponId];
            var k := Min(c.remainStock, |requests|);
            var run := IssueAll(db, requests);
            && run.successes == k
            && couponId in run.store.coupons
            && run.store.coupons[couponId]
               == c.(remainStock := c.remainStock - k,
                     status := if k > 0 && k == c.remainStock then Exhausted else c.status)
    decreases |requests|
  {
    if requests != [] {
      var c := db.coupons[couponId];
      var q := requests[0];
      assert !HasIssue(db.issues, couponId, q.userId);
      var step := IssueCoupon(db, q.couponId, q.userId, q.requestIp, q.now, q.issueCode).value;
      var s := step.store;
      var c' := s.coupons[couponId];
      if c.remainStock > 0 {
        assert step.result.IsSuccess();
        assert c' == c.(remainStock := c.remainStock - 1, status := if c.remainStock == 1 then Exhausted else c.status);
        forall i | 0 <= i < |requests[1..]|
          ensures !HasIssue(s.issues, couponId, requests[1..][i].userId)
        {
          assert requests[1..][i] == requests[i + 1];
          assert !HasIssue(db.issues, couponId, requests[i + 1].userId);
        }
        assert FreshUsersInWindow(s, couponId, requests[1..]);
        FlashSale(s, couponId, requests[1..]);
      } else {
        assert !step.result.IsSuccess();
        assert s.coupons == db.coupons && s.issues == db.issues;
        assert FreshUsersInWindow(s, couponId, requests[1..]);
        FlashSale(s, couponId, requests[1..]);
      }
    }
  }
}
