# Coupon system: a verified model of issuance, redemption, admin and Redis stock

This project models the core of a Spring coupon service, with proofs about that model.

- **Coupons.** A coupon has a stock, an issue window and an expiry time. It moves through the states ACTIVE, EXHAUSTED and EXPIRED, and it can be soft-deleted.
- **Issuance.** A user asks for a coupon. The service checks for a duplicate and calls the coupon's `issue()`. On success it saves an issued coupon (`CouponIssue`). Every attempt writes one history row, and every failure inside the try block becomes a FAIL result.
- **Redemption.** An issued coupon is redeemed once. Redemption moves it from ISSUED to USED and counts one more use on its coupon.
- **Admin.** An administrator creates, updates and deletes coupons. A code is unique among non-deleted coupons.
- **Redis stock.** A Redis copy of the stock is kept under the keys `coupon:stock:<code>`. A `coupon:lock:` lock is taken with SET NX and released by a compare-and-delete script.

Each core file is modelled in two layers.

- **The value model** gives each entity a datatype and each operation a function from the old value to the new one. It has pre-checks, error results and lemmas about runs of operations:
  - `CouponModel`, `IssueModel`, `IssuanceModel`, `AdminModel`, `CreateRequest`, `IssueResultDto`, `RedisModel` and `Backoff`.
- **The imperative layer** mirrors the Java objects that change in place:
  - the classes `CouponEntity.Coupon` and `CouponIssueEntity.CouponIssue`;
  - the services `CouponServiceImpl.CouponService`, `CouponAdminServiceImpl.CouponAdminService` and `RedisStockServiceImpl.RedisStockService`.

  Each method's postcondition ties its new state, viewed as a value, to the value-model function applied to the state before the call. So every lemma about the value model carries over to the objects. The two loops of the source are methods with loop invariants: the lock retry loop of `acquireLock` and the coupon loop of `initializeStockData`.

The source is modelled with these conventions.

- **Time.** Time is an integer. The clock is always passed in as `now`.
- **Generated values.** The following are all parameters:
  - the generated issue code;
  - the UUID of each stock sync (`lockValues`);
  - the `random.nextLong()` draws of the backoff (`draws`).
- **Repositories.**
  - The coupon repository is a map from identity to coupon, or the sequence of its rows where RedisStockService queries it.
  - The issue repository is a sequence.
  - The history repository is an append-only sequence.
  - New identities follow the IDENTITY column: the n-th saved issue has id n.
- **Exceptions.** A Java exception is an `Error` value. A `void` call gives an `Outcome`, and a value-returning call gives a `Result`.

## Model

Paths are relative to the repository root.

| member | source | states |
|---|---|---|
| CouponModel.NewCoupon | src/main/java/cloud/coupon/domain/coupon/entity/Coupon.java:49-64 | a built coupon has remainStock = totalStock, usedCount 0, ACTIVE, not deleted, and the given fields; with a non-negative total its stock is in range |
| CouponModel.ValidateForIssue | src/main/java/cloud/coupon/domain/coupon/entity/Coupon.java:125-134 | completes iff remainStock > 0 and startTime <= now <= expireTime; an empty stock is reported as out-of-stock before the window is looked at, a closed window as not-available |
| CouponModel.Issue | src/main/java/cloud/coupon/domain/coupon/entity/Coupon.java:67-75 | succeeds iff remainStock > 0 and startTime <= now <= expireTime (both ends inclusive); out of stock is reported before the window; a failure changes nothing; a success lowers remainStock by exactly 1, sets EXHAUSTED exactly when it reaches 0 and changes no other field; 0 <= remainStock <= totalStock is preserved |
| CouponModel.IssueIgnoresEndDeletedAndStatus | src/main/java/cloud/coupon/domain/coupon/entity/Coupon.java:125-134 | issue's checks do not consult endTime, isDeleted or status: coupons that differ only there have the same outcome |
| CouponModel.ValidateUpdateTime | src/main/java/cloud/coupon/domain/coupon/entity/Coupon.java:89-96 | completes iff start <= end <= expire; start-after-end is reported before end-after-expire, both as IllegalArgument |
| CouponModel.Update | src/main/java/cloud/coupon/domain/coupon/entity/Coupon.java:77-96 | succeeds iff start <= end <= expire; start-after-end is reported before end-after-expire; a failure changes nothing; a success sets name, totalStock, discountValue, type and the three times; code, remainStock, usedCount, status and isDeleted never change |
| CouponModel.IsAllUsed | src/main/java/cloud/coupon/domain/coupon/entity/Coupon.java:111-113 | usedCount >= totalStock, a definition with no contract; CouponModel.ValidateForUse and IssueModel.RedemptionCappedByTotal state what it decides |
| CouponModel.IsExpired | src/main/java/cloud/coupon/domain/coupon/entity/Coupon.java:115-117 | now strictly after expireTime, a definition with no contract; CouponModel.UnavailableStaysUnavailable states that it never turns back |
| CouponModel.IsAvailable | src/main/java/cloud/coupon/domain/coupon/entity/Coupon.java:136-141 | not deleted, not expired, not all used and ACTIVE or EXHAUSTED, a definition with no contract; CouponModel.ValidateForUse states it field by field |
| CouponModel.ValidateForUse | src/main/java/cloud/coupon/domain/coupon/entity/Coupon.java:111-141 | completes iff not deleted, now <= expireTime, usedCount < totalStock and status is ACTIVE or EXHAUSTED; otherwise throws not-available |
| CouponModel.UnavailableStaysUnavailable | src/main/java/cloud/coupon/domain/coupon/entity/Coupon.java:115-141 | a coupon unusable at some time stays unusable at every later time |
| CouponEntity.Coupon.constructor | src/main/java/cloud/coupon/domain/coupon/entity/Coupon.java:49-64 | the new entity's state is NewCoupon of the arguments |
| CouponEntity.Coupon.Issue | src/main/java/cloud/coupon/domain/coupon/entity/Coupon.java:67-75 | outcome and new fields are those of CouponModel.Issue on the old fields |
| CouponEntity.Coupon.Update | src/main/java/cloud/coupon/domain/coupon/entity/Coupon.java:77-96 | outcome and new fields are those of CouponModel.Update on the old fields |
| CouponEntity.Coupon.IncreaseUsedCount | src/main/java/cloud/coupon/domain/coupon/entity/Coupon.java:99-101 | usedCount goes up by exactly 1; nothing else changes |
| CouponEntity.Coupon.MarkAsDeleted | src/main/java/cloud/coupon/domain/coupon/entity/Coupon.java:103-105 | only isDeleted changes, to true; on a deleted coupon nothing changes (idempotent) |
| CouponEntity.Coupon.ChangeStatus | src/main/java/cloud/coupon/domain/coupon/entity/Coupon.java:107-109 | only status changes, to the given one |
| CouponEntity.Coupon.IsAllUsed | src/main/java/cloud/coupon/domain/coupon/entity/Coupon.java:111-113 | computed over the entity's fields, it agrees with CouponModel.IsAllUsed of the entity's state |
| CouponEntity.Coupon.IsExpired | src/main/java/cloud/coupon/domain/coupon/entity/Coupon.java:115-117 | computed over the entity's fields, it agrees with CouponModel.IsExpired of the entity's state |
| CouponEntity.Coupon.IsAvailable | src/main/java/cloud/coupon/domain/coupon/entity/Coupon.java:136-141 | computed over the entity's fields, it agrees with CouponModel.IsAvailable of the entity's state |
| CouponEntity.Coupon.ValidateForUse | src/main/java/cloud/coupon/domain/coupon/entity/Coupon.java:119-123 | computed over the entity's fields, it agrees with CouponModel.ValidateForUse of the entity's state |
| IssueModel.NewIssue | src/main/java/cloud/coupon/domain/coupon/entity/CouponIssue.java:38-46 | a new issue is unused, ISSUED, has no use time, was issued now, and satisfies used <=> USED <=> use time set |
| IssueModel.Use | src/main/java/cloud/coupon/domain/coupon/entity/CouponIssue.java:48-61 | succeeds iff the issue is unused and its coupon usable; a used issue fails with already-used and an unusable coupon with not-available, changing neither; a success marks the issue used now with status USED and adds exactly 1 to the coupon's usedCount, nothing else; used <=> USED <=> use time set is preserved |
| IssueModel.SecondUseFails | src/main/java/cloud/coupon/domain/coupon/entity/CouponIssue.java:48-58 | a second use of the same issue, at the same time or later, fails |
| IssueModel.UsedIssueIsInert | src/main/java/cloud/coupon/domain/coupon/entity/CouponIssue.java:56-58 | once used, any number of further uses all fail and change nothing |
| IssueModel.IssueCountsAtMostOnce | src/main/java/cloud/coupon/domain/coupon/entity/CouponIssue.java:48-54 | however often an issue is used, at most one use succeeds, the coupon's usedCount grows by at most 1 and no other coupon field changes |
| IssueModel.RedemptionCappedByTotal | src/main/java/cloud/coupon/domain/coupon/entity/CouponIssue.java:48-61 | distinct unused issues of one usable coupon redeemed in turn: exactly min(totalStock - usedCount, number of issues) succeed, usedCount grows by exactly that many and never passes totalStock, and no other coupon field changes |
| CouponIssueEntity.CouponIssue.constructor | src/main/java/cloud/coupon/domain/coupon/entity/CouponIssue.java:38-46 | the new entity's row is NewIssue, holding the given coupon reference |
| CouponIssueEntity.CouponIssue.Use | src/main/java/cloud/coupon/domain/coupon/entity/CouponIssue.java:48-61 | the issue and the referenced coupon entity end as IssueModel.Use of their old states; the used/status/use-time invariant is preserved |
| IssueResultDto.SuccessResult | src/main/java/cloud/coupon/domain/coupon/dto/response/CouponIssueResult.java:13-15 | success(code) is a success carrying exactly that code and the "issued" message |
| IssueResultDto.FailResult | src/main/java/cloud/coupon/domain/coupon/dto/response/CouponIssueResult.java:17-19 | fail(msg) is not a success, has no coupon code and carries msg |
| IssueResultDto.CouponIssueResult.IsSuccess | src/main/java/cloud/coupon/domain/coupon/dto/response/CouponIssueResult.java:26-28 | the result type is SUCCESS, a definition with no contract; IssueResultDto.SuccessResult and FailResult state its value on each factory |
| CreateRequest.ValidateTimeSequence | src/main/java/cloud/coupon/domain/coupon/admin/dto/request/CouponCreateRequest.java:50-60 | completes iff start <= end <= expire and start is not before now; each broken rule gives IllegalArgument with that rule, in the order start-after-end, end-after-expire, start-in-past |
| CreateRequest.ValidateDiscountValue | src/main/java/cloud/coupon/domain/coupon/admin/dto/request/CouponCreateRequest.java:62-71 | completes iff a PERCENTAGE discount is in 1..100 and a FIXED_AMOUNT discount is > 0; no type is never refused; each broken rule gives IllegalArgument with that rule |
| CreateRequest.NewRequest | src/main/java/cloud/coupon/domain/coupon/admin/dto/request/CouponCreateRequest.java:45-71 | the request exists iff start <= end <= expire, start not before now, a PERCENTAGE discount in 1..100 and a FIXED_AMOUNT discount > 0 (no type: no discount check); errors are IllegalArgument with the rule; a time rule is reported before any discount rule, in the source's order, and with the times valid a bad PERCENTAGE or FIXED_AMOUNT discount gives that rule's error |
| CreateRequest.ToEntity | src/main/java/cloud/coupon/domain/coupon/admin/dto/request/CouponCreateRequest.java:86-97 | the entity carries the request's fields with remainStock = totalStock, usedCount 0, ACTIVE, not deleted |
| CreateRequest.From | src/main/java/cloud/coupon/domain/coupon/admin/dto/request/CouponCreateRequest.java:73-84 | from(coupon) succeeds iff the coupon's times and discount pass the constructor's rules at now; any error is IllegalArgument; a success copies name, code, totalStock, type, discount and the three times |
| CreateRequest.FromThenToEntity | src/main/java/cloud/coupon/domain/coupon/admin/dto/request/CouponCreateRequest.java:73-97 | when from(c) succeeds, toEntity(from(c)) agrees with c on name, code, totalStock, type, discount and the three times, and is c with its counters and flags reset |
| CreateRequest.ToEntityThenFrom | src/main/java/cloud/coupon/domain/coupon/admin/dto/request/CouponCreateRequest.java:73-97 | a well-formed request comes back unchanged from from(toEntity(request)) |
| IssuanceModel.IssueCoupon | src/main/java/cloud/coupon/domain/coupon/service/CouponService.java:30-53 | an unknown coupon throws not-found; otherwise exactly one history row with the caller, IP and time is appended and no earlier row changes; SUCCESS iff no earlier issue for (coupon, user) and issue() succeeds; a duplicate or a failed issue() gives FAIL with that reason and leaves coupons and issues unchanged; a success applies issue() to that coupon only and appends exactly one ISSUED issue with the next id and the generated code |
| IssuanceModel.IssueCouponKeepsInvariant | src/main/java/cloud/coupon/domain/coupon/service/CouponService.java:35-45 | one call preserves: at most one issue per (coupon, user); remainStock + issues = totalStock per coupon; sequential issue ids; per coupon, SUCCESS history rows = issues |
| IssuanceModel.IssueAllKeepsInvariant | src/main/java/cloud/coupon/domain/coupon/service/CouponService.java:30-53 | any sequence of calls preserves the same invariant |
| IssuanceModel.IssueAllAuditsEveryAttempt | src/main/java/cloud/coupon/domain/coupon/service/CouponService.java:40-44 | calls on known coupons append exactly one history row each and never change earlier rows or the set of coupons |
| IssuanceModel.FlashSale | src/main/java/cloud/coupon/domain/coupon/service/CouponService.java:35-42 | with N units left and M distinct fresh users asking inside the window, exactly min(N, M) succeed, the stock drops by that much, and the coupon is EXHAUSTED exactly when the last unit went |
| CouponServiceImpl.CouponService.IssueCoupon | src/main/java/cloud/coupon/domain/coupon/service/CouponService.java:30-47 | result and the repositories afterwards are IssuanceModel.IssueCoupon of the repositories before (a not-found error changes nothing) |
| CouponServiceImpl.CouponService.TryIssue | src/main/java/cloud/coupon/domain/coupon/service/CouponService.java:35-37 | the duplicate check then issue(): outcome as in the model, and only that coupon entity changes, by issue() when it succeeds |
| CouponServiceImpl.CouponService.ValidateDuplicateIssue | src/main/java/cloud/coupon/domain/coupon/service/CouponService.java:49-53 | fails with duplicate iff an issue for (coupon, user) exists |
| CouponServiceImpl.CouponService.CreateCouponIssue | src/main/java/cloud/coupon/domain/coupon/service/CouponService.java:67-76 | saves one fresh ISSUED issue of that coupon entity with the next id and the generated code; coupons and history unchanged |
| CouponServiceImpl.CouponService.SaveCouponIssueHistory | src/main/java/cloud/coupon/domain/coupon/service/CouponService.java:78-89 | appends exactly that history row and changes nothing else |
| CouponServiceImpl.CouponService.UseCoupon | src/main/java/cloud/coupon/domain/coupon/service/CouponService.java:62-65 | changes nothing |
| AdminModel.GetCoupon | src/main/java/cloud/coupon/domain/coupon/admin/service/CouponAdminService.java:93-104 | the coupon built from the request: the request's fields, full stock, usedCount 0, ACTIVE, not deleted (the same as toEntity) |
| AdminModel.ValidateAlreadyExistCoupon | src/main/java/cloud/coupon/domain/coupon/admin/service/CouponAdminService.java:37-41 | fails with already-exists iff a non-deleted coupon has the code |
| AdminModel.CreateCoupon | src/main/java/cloud/coupon/domain/coupon/admin/service/CouponAdminService.java:30-35 | already-exists iff a non-deleted coupon has the code (store unchanged); otherwise exactly one coupon is added under the next identity, with the request's fields, and is returned with its code |
| AdminModel.UpdateCoupon | src/main/java/cloud/coupon/domain/coupon/admin/service/CouponAdminService.java:45-62 | in order: not-found, already-used when usedCount > 0, not-available when deleted, then update's own time errors; any error leaves every coupon unchanged; a success replaces only that coupon, by Coupon.update, and returns it |
| AdminModel.DeleteCoupon | src/main/java/cloud/coupon/domain/coupon/admin/service/CouponAdminService.java:65-71 | not-found iff the id is unknown; otherwise only that coupon changes, to deleted and EXPIRED |
| AdminModel.CreateKeepsInvariant | src/main/java/cloud/coupon/domain/coupon/admin/service/CouponAdminService.java:30-41 | create keeps identities below the next one and codes unique among non-deleted coupons |
| AdminModel.CreateTwiceFails | src/main/java/cloud/coupon/domain/coupon/admin/service/CouponAdminService.java:30-41 | after a successful create, creating the same code again fails with already-exists |
| AdminModel.UpdateKeepsInvariant | src/main/java/cloud/coupon/domain/coupon/admin/service/CouponAdminService.java:45-62 | update keeps the same invariant (it never touches a code or a deleted flag) |
| AdminModel.DeleteIdempotent | src/main/java/cloud/coupon/domain/coupon/admin/service/CouponAdminService.java:65-71 | deleting twice is deleting once |
| AdminModel.DeleteFreesCode | src/main/java/cloud/coupon/domain/coupon/repository/CouponRepository.java:23-24 | with codes unique, deleting a live coupon frees its code: no live coupon has it, the invariant holds, and creating that code again succeeds |
| CouponAdminServiceImpl.CouponAdminService.CreateCoupon | src/main/java/cloud/coupon/domain/coupon/admin/service/CouponAdminService.java:30-35 | response and repository afterwards are AdminModel.CreateCoupon of the repository before; the invariant is preserved |
| CouponAdminServiceImpl.CouponAdminService.Save | src/main/java/cloud/coupon/domain/coupon/admin/service/CouponAdminService.java:33 | the new entity is stored under the next identity, which moves on by one |
| CouponAdminServiceImpl.CouponAdminService.ValidateAlreadyExistCoupon | src/main/java/cloud/coupon/domain/coupon/admin/service/CouponAdminService.java:37-41 | the model's check, computed over the entities |
| CouponAdminServiceImpl.CouponAdminService.GetCoupon | src/main/java/cloud/coupon/domain/coupon/admin/service/CouponAdminService.java:93-104 | a fresh entity whose state is AdminModel.GetCoupon |
| CouponAdminServiceImpl.CouponAdminService.UpdateCoupon | src/main/java/cloud/coupon/domain/coupon/admin/service/CouponAdminService.java:45-62 | response and repository afterwards are AdminModel.UpdateCoupon of the repository before; the invariant is preserved |
| CouponAdminServiceImpl.CouponAdminService.DeleteCoupon | src/main/java/cloud/coupon/domain/coupon/admin/service/CouponAdminService.java:65-71 | outcome and repository afterwards are AdminModel.DeleteCoupon of the repository before |
| RedisModel.StockKeyInjective | src/main/java/cloud/coupon/infra/redis/service/RedisStockService.java:51-53 | distinct codes have distinct stock keys |
| RedisModel.LockKeyInjective | src/main/java/cloud/coupon/infra/redis/service/RedisStockService.java:190-191 | distinct codes have distinct lock keys |
| RedisModel.PrefixesDisjoint | src/main/java/cloud/coupon/infra/redis/service/RedisStockService.java:142-148 | no key is both a stock key and a lock key |
| RedisModel.SyncLockKeyIsNotLockKey | src/main/java/cloud/coupon/infra/redis/service/RedisStockService.java:150-155 | the lock syncStockWithDB takes is coupon:lock:coupon:lock:<code>, never coupon:lock:<code> |
| RedisModel.StockKey | src/main/java/cloud/coupon/infra/redis/service/RedisStockService.java:52 | the key is coupon:stock: followed by exactly the code |
| RedisModel.LockKey | src/main/java/cloud/coupon/infra/redis/service/RedisStockService.java:191 | the key is coupon:lock: followed by exactly the code |
| RedisModel.IsLockHeld | src/main/java/cloud/coupon/infra/redis/service/RedisStockService.java:243-246 | the lock key is present, a definition with no contract; RedisModel.IsLockHeldDecidesAcquire states what it decides |
| RedisModel.IsLockHeldDecidesAcquire | src/main/java/cloud/coupon/infra/redis/service/RedisStockService.java:190-246 | a held lock makes acquire fail and change nothing; a free one makes it succeed; after a successful acquire the lock is held, a release with another token keeps it held and the release with the holder's token frees it |
| RedisModel.FindByCodeAndIsDeletedFalse | src/main/java/cloud/coupon/domain/coupon/repository/CouponRepository.java:19-21 | found iff some row has the code and is not deleted; the row found is such a row |
| RedisModel.FindAllActiveCoupons | src/main/java/cloud/coupon/domain/coupon/repository/CouponRepository.java:26-27 | exactly the ACTIVE non-deleted rows; with unique live codes, their codes are distinct |
| RedisModel.InitializeStock | src/main/java/cloud/coupon/infra/redis/service/RedisStockService.java:51-54 | sets that code's counter to the quantity; every other key and every lock unchanged |
| RedisModel.IncreaseStock | src/main/java/cloud/coupon/infra/redis/service/RedisStockService.java:56-81 | fails with operation-failed iff no undeleted coupon has the code, keeping the increment; otherwise the counter ends at min(prior + 1, totalStock), a missing key reading as 0; locks unchanged |
| RedisModel.DecreaseStock | src/main/java/cloud/coupon/infra/redis/service/RedisStockService.java:83-94 | true iff the prior counter (missing = 0) was positive; on true the counter is one lower; on false it equals its prior value and a missing key ends at 0 |
| RedisModel.AcquireLock | src/main/java/cloud/coupon/infra/redis/service/RedisStockService.java:190-238 | with nothing else changing the store, acquired iff the key is absent, and then it holds requestId; an existing holder is never overwritten |
| RedisModel.ReleaseLock | src/main/java/cloud/coupon/infra/redis/service/RedisStockService.java:276-294 | deletes the lock entry iff it holds requestId; otherwise the store is unchanged |
| RedisModel.AcquireThenReleaseRestores | src/main/java/cloud/coupon/infra/redis/service/RedisStockService.java:276-294 | releasing with the token one acquired with restores the store from before the acquire |
| RedisModel.ForeignReleaseKeepsLock | src/main/java/cloud/coupon/infra/redis/service/RedisStockService.java:276-294 | a release or an acquire with another token leaves the holder's lock as it is |
| RedisModel.SyncStockWithDB | src/main/java/cloud/coupon/infra/redis/service/RedisStockService.java:150-185 | completes iff the sync lock is free; then the counter equals the database value and the lock it took is gone; otherwise it throws lock-failed with the store untouched |
| RedisModel.DeleteStock | src/main/java/cloud/coupon/infra/redis/service/RedisStockService.java:96-140 | a present counter goes down by exactly 1 if positive, else stays; a missing one is first seeded from the undeleted coupon's remainStock, or the call throws not-found (no coupon) or lock-failed, store unchanged; locks never change |
| RedisModel.TakeOne | src/main/java/cloud/coupon/infra/redis/service/RedisStockService.java:111-133 | the guarded DECR: one less when positive, unchanged otherwise |
| RedisModel.DeleteAllKeys | src/main/java/cloud/coupon/infra/redis/service/RedisStockService.java:142-148 | exactly the keys under coupon:stock: and coupon:lock: are removed; a store holding only such keys ends empty |
| RedisModel.SyncAllCompletes | src/main/java/cloud/coupon/infra/redis/service/RedisStockService.java:44-49 | with no sync lock held, the loop over all coupons completes and leaves the locks as they were |
| RedisModel.SyncAllSetsEveryCounter | src/main/java/cloud/coupon/infra/redis/service/RedisStockService.java:44-49 | with distinct codes and no sync lock held, every coupon's counter ends equal to its remainStock |
| RedisModel.SyncAllLeavesOtherCounters | src/main/java/cloud/coupon/infra/redis/service/RedisStockService.java:44-49 | the loop changes no counter but those of its coupons |
| RedisModel.SyncAll | src/main/java/cloud/coupon/infra/redis/service/RedisStockService.java:46-48 | the loop over the given coupons never changes a lock, fails only with lock-failed, and keeps the store well-formed |
| RedisModel.InitializeStockData | src/main/java/cloud/coupon/infra/redis/service/RedisStockService.java:44-49 | the same over the active coupons read from the repository: locks unchanged, only lock-failed, well-formedness kept |
| RedisModel.InitializeStockDataMatchesDb | src/main/java/cloud/coupon/infra/redis/service/RedisStockService.java:44-49 | over a repository with unique live codes and no sync lock held, every ACTIVE undeleted coupon's counter equals its remainStock afterwards |
| RedisStockServiceImpl.RedisStockService.InitializeStockData | src/main/java/cloud/coupon/infra/redis/service/RedisStockService.java:44-49 | the loop over the active coupons, ending at the first sync that throws: outcome and store are RedisModel.InitializeStockData of the store before |
| RedisStockServiceImpl.RedisStockService.SyncAll | src/main/java/cloud/coupon/infra/redis/service/RedisStockService.java:46-48 | the for loop, ending at the first sync that throws: outcome and store are RedisModel.SyncAll of the store before |
| RedisStockServiceImpl.RedisStockService.InitializeStock | src/main/java/cloud/coupon/infra/redis/service/RedisStockService.java:51-54 | the store afterwards is RedisModel.InitializeStock of the store before |
| RedisStockServiceImpl.RedisStockService.IncreaseStock | src/main/java/cloud/coupon/infra/redis/service/RedisStockService.java:56-81 | outcome and store are RedisModel.IncreaseStock of the store before |
| RedisStockServiceImpl.RedisStockService.DecreaseStock | src/main/java/cloud/coupon/infra/redis/service/RedisStockService.java:83-94 | result and store are RedisModel.DecreaseStock of the store before |
| RedisStockServiceImpl.RedisStockService.DeleteStock | src/main/java/cloud/coupon/infra/redis/service/RedisStockService.java:96-140 | outcome and store are RedisModel.DeleteStock of the store before |
| RedisStockServiceImpl.RedisStockService.DeleteAllKeys | src/main/java/cloud/coupon/infra/redis/service/RedisStockService.java:142-148 | the store afterwards is RedisModel.DeleteAllKeys of the store before |
| RedisStockServiceImpl.RedisStockService.SyncStockWithDB | src/main/java/cloud/coupon/infra/redis/service/RedisStockService.java:150-185 | outcome and store are RedisModel.SyncStockWithDB of the store before |
| RedisStockServiceImpl.RedisStockService.AcquireLock | src/main/java/cloud/coupon/infra/redis/service/RedisStockService.java:190-238 | result and store as RedisModel.AcquireLock; no waits on success; on failure exactly MAX_RETRY_COUNT = 20 waits, each computed by calculateBackoffTime as written from the sleep before it and that round's nextLong() draw, each within [50, 800] |
| RedisStockServiceImpl.RedisStockService.SetIfAbsent | src/main/java/cloud/coupon/infra/redis/service/RedisStockService.java:201-202 | stores iff the key is absent, and then writes exactly that entry |
| RedisStockServiceImpl.RedisStockService.ReleaseLock | src/main/java/cloud/coupon/infra/redis/service/RedisStockService.java:276-294 | the store afterwards is RedisModel.ReleaseLock of the store before |
| RedisStockServiceImpl.RedisStockService.IsLockHeld | src/main/java/cloud/coupon/infra/redis/service/RedisStockService.java:243-246 | agrees with RedisModel.IsLockHeld of the store |
| Backoff.TruncDiv | src/main/java/cloud/coupon/infra/redis/service/RedisStockService.java:261 | Java's cast of a quotient: truncation toward zero, bounded both ways |
| Backoff.Wrap64 | src/main/java/cloud/coupon/infra/redis/service/RedisStockService.java:269 | 64-bit `long` arithmetic: the result in the signed range and equal to the exact value when that fits |
| Backoff.Clamp | src/main/java/cloud/coupon/infra/redis/service/RedisStockService.java:272-273 | the final clamp lies in [50, 800] and keeps a value already in range |
| Backoff.CalculateBackoffTimeAsWritten | src/main/java/cloud/coupon/infra/redis/service/RedisStockService.java:256-274 | calculateBackoffTime as written, with nextLong(): the wait lies in [50, 800] for every input and draw |
| Backoff.JitterAsWrittenLeavesItsRange | src/main/java/cloud/coupon/infra/redis/service/RedisStockService.java:267-269 | a concrete draw for which the jitter as written leaves the ±range band (see Findings) |
| Backoff.Jitter | src/main/java/cloud/coupon/infra/redis/service/RedisStockService.java:269 | the intended jitter never exceeds the range in absolute value |
| Backoff.CalculateBackoffTime | src/main/java/cloud/coupon/infra/redis/service/RedisStockService.java:256-274 | the wait lies in [50, 800] and between the clamps of capped - range and capped + range |
| Backoff.CappedNeverShrinks | src/main/java/cloud/coupon/infra/redis/service/RedisStockService.java:258-264 | for a wait in [50, 800], the capped next wait is no smaller and at most 800 |
| Backoff.JitterRangeAtMostFifteenPercent | src/main/java/cloud/coupon/infra/redis/service/RedisStockService.java:266-268 | the jitter range is non-negative and at most 15% of the capped wait |
| Backoff.BackoffsInRange | src/main/java/cloud/coupon/infra/redis/service/RedisStockService.java:215-230 | the i-th wait of the retry loop is the as-written backoff after attempt i + 1 under the given nextLong() draws, and every wait lies in [50, 800] |

## Left out

- HTTP controllers (`CouponController`, `CouponAdminController`, `RedisTestController`), logging, message strings, and the plain field-copying DTOs `CouponResponse` and `CouponUseResponse`. A response is modelled as the coupon's identity and state.
- Bean validation annotations and nulls. Fields are never null. A missing `couponType` is an `Option`, which is the only null the source checks.
- `CouponService.getCouponStatus`, `CouponAdminService.stopCouponIssue` and `getCouponStatistics` return null or do nothing.
- `CouponAdminService.getCouponStatus(code)` and `CouponStatusResponse` are not in the core modelled here. Its issue rate is floating point.
- `CouponService.useCoupon` is an empty stub. It is modelled as a method that changes nothing.
- Transactions, rollback and JPA's pessimistic locks are left out. Each service call is one sequential step over in-memory repositories.
- The two services are modelled separately. The coupon service and the admin service each own their coupon repository, and `RedisStockService` reads the repository as a sequence of rows.
- `findByCodeAndIsDeletedFalse` returns the first matching row. JPA would throw on several matches. Under the uniqueness that `createCoupon` keeps, there is at most one.
- `CouponService` calls an `existsByCouponIdAndUserId` query that `CouponIssueRepository` does not declare. It is modelled as "an issue of this coupon id for this user exists".
- `CouponIssueResult.success` takes a `String`, but `issueCoupon` passes the new issue's `Long` identity. The result carries that identity.
- Concurrency is not modelled.
  - Nothing else writes Redis while a method runs, so SET NX never loses a race.
  - `acquireLock` therefore either succeeds at the first attempt, or fails all 20 rounds against a lock that is held throughout.
  - The 10,000-thread behaviour of the performance test is not claimed.
- RedisModel.AcquireLock: the 3-second lock TTL, the 10-second deadline, `Thread.sleep` and the interrupt branch are left out. The sleeps are the returned sequence of waits. With the deadline left out, every round is tried.
- Redis values are integers rather than decimal strings. The 32-bit `Integer.parseInt` and the 64-bit INCR/DECR limits are not modelled.
- The `remainStock == null` branch of `decreaseStock` is not modelled. DECR on a missing key gives -1, never null.
- Exceptions from the Redis client itself are not modelled. The catch blocks that turn them into `RedisOperationException` therefore act only on the service's own exceptions. In `increaseStock` this means the not-found thrown for a missing coupon is caught and rethrown as operation-failed, after the increment.
- Backoff.CalculateBackoffTime: the decimal multiplier and jitter factor are exact rationals, truncated where the source casts to `long`. The intended uniform `nextDouble()` draw is any whole offset within the range, chosen by an integer sample. Rounding of IEEE doubles is not modelled.
- Random codes and UUIDs are parameters (`issueCode`, `lockValues`), so nothing is claimed about their uniqueness.
- `LocalDateTime.now()` is the `now` parameter. In `issueCoupon` the issue time, the history time and `coupon.issue()`'s clock are the same instant.
- `Coupon.update` can set `totalStock` below `remainStock`. No stock bound is claimed to survive an update.
- `issue()` (Coupon.java:125-134) checks neither `isDeleted`, the status nor `endTime`. The model keeps these gaps.
- A duplicate request is returned as a FAIL result, not thrown (CouponService.java:43-46).

## Findings

| source | as written | input that shows it | evidently intended | confidence | as-written member | corrected member |
|---|---|---|---|---|---|---|
| src/main/java/cloud/coupon/infra/redis/service/RedisStockService.java:267-269 | `jitter = (random.nextLong() * 2 - 1) * jitterRange` draws from the whole 64-bit range, so the jitter is almost always far outside ±jitterRange and the clamp pins the wait to 50 or 800 | retry 1, current backoff 50: capped wait 100 and range 13; the draw nextLong() = 100 gives jitter 2587 and a wait of 800 | `random.nextDouble()`: a jitter within ±jitterRange (±15% / (1 + 0.1·retry)) of the capped wait | not executed | Backoff.JitterAsWrittenLeavesItsRange | Backoff.CalculateBackoffTime |
