/** The Redis side of the stock (RedisStockService.java) as a value: the
    stock counters and the lock entries, each map keyed by the full Redis
    key. Every operation is a function from the store before to the store
    after; the repository is passed in as its rows in id order. */
module RedisModel {
  import opened Common
  import CM = CouponModel

  const StockKeyPrefix: string := "coupon:stock:"
  const LockKeyPrefix: string := "coupon:lock:"
  const MaxRetryCount: nat := 20

  predicate HasPrefix(k: string, prefix: string)
  {
    |prefix| <= |k| && k[..|prefix|] == prefix
  }

  function StockKey(code: string): (k: string)
    ensures HasPrefix(k, StockKeyPrefix) && k[|StockKeyPrefix|..] == code
  {
    StockKeyPrefix + code
  }

  function LockKey(code: string): (k: string)
    ensures HasPrefix(k, LockKeyPrefix) && k[|LockKeyPrefix|..] == code
  {
    LockKeyPrefix + code
  }

  /** Distinct codes have distinct counters. */
  lemma {:induction false} StockKeyInjective(a: string, b: string)
    requires StockKey(a) == StockKey(b)
    ensures a == b
  {
    assert a == StockKey(a)[|StockKeyPrefix|..];
  }

  lemma {:induction false} LockKeyInjective(a: string, b: string)
    requires LockKey(a) == LockKey(b)
    ensures a == b
  {
    assert a == LockKey(a)[|LockKeyPrefix|..];
  }

  /** No key is both a stock key and a lock key. */
  lemma {:induction false} PrefixesDisjoint(k: string)
    ensures HasPrefix(k, StockKeyPrefix) ==> !HasPrefix(k, LockKeyPrefix)
  {
    if HasPrefix(k, StockKeyPrefix) {
      assert k[7] == StockKeyPrefix[7];
      if |LockKeyPrefix| <= |k| {
        assert k[..|LockKeyPrefix|][7] != LockKeyPrefix[7];
      }
    }
  }

  /** syncStockWithDB hands acquireLock and releaseLock a key that already
      carries the lock prefix, and both add it again: the lock it takes is
      never the one a caller of acquireLock(code) would take. */
  lemma {:induction false} SyncLockKeyIsNotLockKey(code: string)
    ensures LockKey(LockKey(code)) != LockKey(code)
  {
    assert |LockKey(LockKey(code))| == |LockKey(code)| + |LockKeyPrefix|;
  }

  datatype Redis = Redis(stock: map<string, int>, locks: map<string, string>)

  /** Counters live under stock keys and lock tokens under lock keys. */
  predicate Valid(r: Redis)
  {
    && (forall k :: k in r.stock ==> HasPrefix(k, StockKeyPrefix))
    && (forall k :: k in r.locks ==> HasPrefix(k, LockKeyPrefix))
  }

  /** What INCR and DECR start from: a missing key counts as 0. */
  function Counter(r: Redis, key: string): int
  {
    if key in r.stock then r.stock[key] else 0
  }

  datatype Step = Step(outcome: Outcome, redis: Redis)

  datatype Decreased = Decreased(ok: bool, redis: Redis)

  datatype Acquired = Acquired(acquired: bool, redis: Redis)

  /** findByCodeAndIsDeletedFalse: the first undeleted row with the code. */
  function FindByCodeAndIsDeletedFalse(db: seq<CM.CouponState>, code: string): (o: Option<CM.CouponState>)
    ensures o.Some? <==> exists i :: 0 <= i < |db| && db[i].code == code && !db[i].isDeleted
    ensures o.Some? ==> o.value in db && o.value.code == code && !o.value.isDeleted
    decreases |db|
  {
    if db == [] then None
    else if db[0].code == code && !db[0].isDeleted then Some(db[0])
    else
      var rest := FindByCodeAndIsDeletedFalse(db[1..], code);
      assert forall i :: 1 <= i < |db| ==> db[i] == db[1..][i - 1];
      rest
  }

  /** At most one undeleted row per code, the uniqueness createCoupon keeps. */
  predicate UndeletedCodesUnique(db: seq<CM.CouponState>)
  {
    forall i, j :: 0 <= i < j < |db| && !db[i].isDeleted && !db[j].isDeleted ==> db[i].code != db[j].code
  }

  /** findAllActiveCoupons: the ACTIVE undeleted rows, in order. */
  function FindAllActiveCoupons(db: seq<CM.CouponState>): (s: seq<CM.CouponState>)
    ensures forall c :: c in s <==> c in db && c.status == Active && !c.isDeleted
    ensures UndeletedCodesUnique(db) ==> forall i, j :: 0 <= i < j < |s| ==> s[i].code != s[j].code
    decreases |db|
  {
    if db == [] then []
    else
      var rest := FindAllActiveCoupons(db[1..]);
      assert forall i, j :: 0 <= i < j < |db[1..]| ==> db[1..][i] == db[i + 1] && db[1..][j] == db[j + 1];
      if db[0].status == Active && !db[0].isDeleted then
        assert UndeletedCodesUnique(db) ==> forall c :: c in db[1..] && !c.isDeleted ==> c.code != db[0].code;
        [db[0]] + rest
      else rest
  }

  /** initializeStock(code, quantity): SET the counter. */
  function InitializeStock(r: Redis, code: string, quantity: int): (r': Redis)
    ensures r'.stock == r.stock[StockKey(code) := quantity] && r'.locks == r.locks
    ensures Valid(r) ==> Valid(r')
  {
    r.(stock := r.stock[StockKey(code) := quantity])
  }

  /** increaseStock(code): INCR, then clamp to the coupon's total. The
      increment stays even when no undeleted coupon has the code, which ends
      in "operation failed". */
  function IncreaseStock(r: Redis, db: seq<CM.CouponState>, code: string): (s: Step)
    ensures s.redis.locks == r.locks
    ensures s.outcome.Failed? <==> FindByCodeAndIsDeletedFalse(db, code).None?
    ensures s.outcome.Failed? ==>
              && s.outcome.error == RedisOperationFailed
              && s.redis.stock == r.stock[StockKey(code) := Counter(r, StockKey(code)) + 1]
    ensures s.outcome == Done ==>
              var total := FindByCodeAndIsDeletedFalse(db, code).value.totalStock;
              s.redis.stock == r.stock[StockKey(code) := Min(Counter(r, StockKey(code)) + 1, total)]
    ensures Valid(r) ==> Valid(s.redis)
  {
    var key := StockKey(code);
    var incremented := r.(stock := r.stock[key := Counter(r, key) + 1]);
    match FindByCodeAndIsDeletedFalse(db, code)
    case None => Step(Failed(RedisOperationFailed), incremented)
    case Some(coupon) =>
      if incremented.stock[key] > coupon.totalStock then
        Step(Done, incremented.(stock := incremented.stock[key := coupon.totalStock]))
      else Step(Done, incremented)
  }

  /** decreaseStock(code): DECR, and INCR back when the result is negative. */
  function DecreaseStock(r: Redis, code: string): (d: Decreased)
    ensures d.ok <==> Counter(r, StockKey(code)) > 0
    ensures d.ok ==> d.redis.stock == r.stock[StockKey(code) := Counter(r, StockKey(code)) - 1]
    ensures !d.ok ==> d.redis.stock == r.stock[StockKey(code) := Counter(r, StockKey(code))]
    ensures !d.ok && StockKey(code) !in r.stock ==> d.redis.stock[StockKey(code)] == 0
    ensures d.redis.locks == r.locks
    ensures Valid(r) ==> Valid(d.redis)
  {
    var key := StockKey(code);
    var left := Counter(r, key) - 1;
    var decremented := r.(stock := r.stock[key := left]);
    if left < 0 then Decreased(false, decremented.(stock := decremented.stock[key := left + 1]))
    else Decreased(true, decremented)
  }

  /** isLockHeld(lockKey): EXISTS on the key. */
  predicate IsLockHeld(r: Redis, lockKey: string)
  {
    lockKey in r.locks
  }

  /** acquireLock(couponCode, requestId) on a store nothing else changes:
      SET NX succeeds on the first attempt when the key is free, and no
      attempt succeeds while another holder has it. */
  function AcquireLock(r: Redis, couponCode: string, requestId: string): (a: Acquired)
    ensures a.acquired <==> LockKey(couponCode) !in r.locks
    ensures a.acquired ==> a.redis == r.(locks := r.locks[LockKey(couponCode) := requestId])
    ensures !a.acquired ==> a.redis == r
    ensures Valid(r) ==> Valid(a.redis)
  {
    var key := LockKey(couponCode);
    if !IsLockHeld(r, key) then Acquired(true, r.(locks := r.locks[key := requestId]))
    else Acquired(false, r)
  }

  /** A held lock is what decides acquireLock: while the key is held, every
      acquire fails and changes nothing; once acquired, the key is held, a
      release with another token keeps it held, and a release with the
      holder's token frees it. */
  lemma {:induction false} IsLockHeldDecidesAcquire(r: Redis, couponCode: string, requestId: string, other: string)
    requires requestId != other
    ensures IsLockHeld(r, LockKey(couponCode)) ==> AcquireLock(r, couponCode, requestId) == Acquired(false, r)
    ensures !IsLockHeld(r, LockKey(couponCode)) ==> AcquireLock(r, couponCode, requestId).acquired
    ensures AcquireLock(r, couponCode, requestId).acquired ==>
            var held := AcquireLock(r, couponCode, requestId).redis;
            && IsLockHeld(held, LockKey(couponCode))
            && IsLockHeld(ReleaseLock(held, couponCode, other), LockKey(couponCode))
            && !IsLockHeld(ReleaseLock(held, couponCode, held.locks[LockKey(couponCode)]), LockKey(couponCode))
  {
  }

  /** releaseLock(couponCode, requestId): delete the entry only if it holds
      this requestId. */
  function ReleaseLock(r: Redis, couponCode: string, requestId: string): (r': Redis)
    ensures LockKey(couponCode) in r.locks && r.locks[LockKey(couponCode)] == requestId ==>
              r' == r.(locks := r.locks - {LockKey(couponCode)})
    ensures !(LockKey(couponCode) in r.locks && r.locks[LockKey(couponCode)] == requestId) ==> r' == r
    ensures Valid(r) ==> Valid(r')
  {
    var key := LockKey(couponCode);
    if key in r.locks && r.locks[key] == requestId then r.(locks := r.locks - {key}) else r
  }

  /** The lock-token discipline: releasing with the token one acquired with
      gives back the store as it was before the acquire. */
  lemma {:induction false} AcquireThenReleaseRestores(r: Redis, couponCode: string, requestId: string)
    requires AcquireLock(r, couponCode, requestId).acquired
    ensures ReleaseLock(AcquireLock(r, couponCode, requestId).redis, couponCode, requestId) == r
  {
    var key := LockKey(couponCode);
    assert r.locks[key := requestId] - {key} == r.locks;
  }

  /** A release with another token leaves the holder's lock in place. */
  lemma {:induction false} ForeignReleaseKeepsLock(r: Redis, couponCode: string, holder: string, other: string)
    requires holder != other
    requires AcquireLock(r, couponCode, holder).acquired
    ensures var held := AcquireLock(r, couponCode, holder).redis;
            && ReleaseLock(held, couponCode, other) == held
            && AcquireLock(held, couponCode, other) == Acquired(false, held)
  {
  }

  /** syncStockWithDB(code, dbStock): under the sync lock, set the counter
      to the database's value; without the lock, fail and touch nothing. */
  function SyncStockWithDB(r: Redis, code: string, dbStock: int, lockValue: string): (s: Step)
    ensures s.outcome == Done <==> LockKey(LockKey(code)) !in r.locks
    ensures s.outcome.Failed? ==> s.outcome == Failed(RedisLockFailed) && s.redis == r
    ensures s.outcome == Done ==> s.redis == r.(stock := r.stock[StockKey(code) := dbStock])
    ensures Valid(r) ==> Valid(s.redis)
  {
    var lockKey := LockKey(code);
    var a := AcquireLock(r, lockKey, lockValue);
    if !a.acquired then Step(Failed(RedisLockFailed), r)
    else
      var held := a.redis;
      var stockKey := StockKey(code);
      var synced :=
        if stockKey !in held.stock then held.(stock := held.stock[stockKey := dbStock])
        else if held.stock[stockKey] != dbStock then held.(stock := held.stock[stockKey := dbStock])
        else held;
      assert synced.locks == held.locks;
      assert ReleaseLock(synced, lockKey, lockValue).locks == r.locks by {
        AcquireThenReleaseRestores(r, lockKey, lockValue);
      }
      Step(Done, ReleaseLock(synced, lockKey, lockValue))
  }

  /** deleteStock(code): seed a missing counter from the database first,
      then take one unit if there is one. */
  function DeleteStock(r: Redis, db: seq<CM.CouponState>, code: string, lockValue: string): (s: Step)
    ensures s.redis.locks == r.locks
    ensures StockKey(code) in r.stock ==>
              var n := r.stock[StockKey(code)];
              s == Step(Done, r.(stock := r.stock[StockKey(code) := if n > 0 then n - 1 else n]))
    ensures StockKey(code) !in r.stock && FindByCodeAndIsDeletedFalse(db, code).None? ==>
              s == Step(Failed(CouponNotFound), r)
    ensures StockKey(code) !in r.stock && FindByCodeAndIsDeletedFalse(db, code).Some? &&
            LockKey(LockKey(code)) in r.locks ==>
              s == Step(Failed(RedisLockFailed), r)
    ensures StockKey(code) !in r.stock && FindByCodeAndIsDeletedFalse(db, code).Some? &&
            LockKey(LockKey(code)) !in r.locks ==>
              var n := FindByCodeAndIsDeletedFalse(db, code).value.remainStock;
              s == Step(Done, r.(stock := r.stock[StockKey(code) := if n > 0 then n - 1 else n]))
    ensures Valid(r) ==> Valid(s.redis)
  {
    var key := StockKey(code);
    if key in r.stock then
      TakeOne(r, key)
    else
      match FindByCodeAndIsDeletedFalse(db, code)
      case None => Step(Failed(CouponNotFound), r)
      case Some(coupon) =>
        var synced := SyncStockWithDB(r, code, coupon.remainStock, lockValue);
        if synced.outcome.Failed? then synced
        else TakeOne(synced.redis, key)
  }

  /** The tail of deleteStock: nothing when the counter is not positive,
      otherwise the script's guarded DECR. */
  function TakeOne(r: Redis, key: string): (s: Step)
    requires key in r.stock
    ensures s.outcome == Done && s.redis.locks == r.locks
    ensures s.redis.stock == r.stock[key := if r.stock[key] > 0 then r.stock[key] - 1 else r.stock[key]]
  {
    if r.stock[key] <= 0 then Step(Done, r)
    else Step(Done, r.(stock := r.stock[key := r.stock[key] - 1]))
  }

  /** deleteAllKeys: delete every key matching coupon:stock:* and coupon:lock:*. */
  function DeleteAllKeys(r: Redis): (r': Redis)
    ensures forall k :: k in r'.stock <==> k in r.stock && !HasPrefix(k, StockKeyPrefix)
    ensures forall k :: k in r'.locks <==> k in r.locks && !HasPrefix(k, LockKeyPrefix)
    ensures Valid(r) ==> r' == Redis(map[], map[])
  {
    Redis(map k | k in r.stock && !HasPrefix(k, StockKeyPrefix) :: r.stock[k],
          map k | k in r.locks && !HasPrefix(k, LockKeyPrefix) :: r.locks[k])
  }

  /** The loop of initializeStockData over the given coupons, stopping at the
      first sync that throws; `lockValues(i)` is the UUID of the i-th sync. */
  function SyncAll(r: Redis, coupons: seq<CM.CouponState>, lockValues: nat -> string): (s: Step)
    ensures s.redis.locks == r.locks
    ensures s.outcome.Failed? ==> s.outcome.error == RedisLockFailed
    ensures Valid(r) ==> Valid(s.redis)
    decreases |coupons|
  {
    if coupons == [] then Step(Done, r)
    else
      var before := SyncAll(r, coupons[..|coupons| - 1], lockValues);
      var last := coupons[|coupons| - 1];
      if before.outcome.Failed? then before
      else SyncStockWithDB(before.redis, last.code, last.remainStock, lockValues(|coupons| - 1))
  }

  /** initializeStockData: sync every ACTIVE undeleted coupon. Whatever
      happens, every lock it takes is released and the only exception that
      escapes is lock-failed. */
  function InitializeStockData(r: Redis, db: seq<CM.CouponState>, lockValues: nat -> string): (s: Step)
    ensures s.redis.locks == r.locks
    ensures s.outcome.Failed? ==> s.outcome.error == RedisLockFailed
    ensures Valid(r) ==> Valid(s.redis)
  {
    SyncAll(r, FindAllActiveCoupons(db), lockValues)
  }

  /** The counter key of one of the coupons. */
  predicate IsCounterOf(coupons: seq<CM.CouponState>, k: string)
  {
    exists i :: 0 <= i < |coupons| && k == StockKey(coupons[i].code)
  }

  /** With no sync lock held, the whole loop runs and leaves the locks. */
  lemma {:induction false} SyncAllCompletes(r: Redis, coupons: seq<CM.CouponState>, lockValues: nat -> string)
    requires forall i :: 0 <= i < |coupons| ==> LockKey(LockKey(coupons[i].code)) !in r.locks
    ensures SyncAll(r, coupons, lockValues).outcome == Done
    ensures SyncAll(r, coupons, lockValues).redis.locks == r.locks
    decreases |coupons|
  {
    if coupons != [] {
      var init := coupons[..|coupons| - 1];
      assert forall i :: 0 <= i < |init| ==> init[i] == coupons[i];
      SyncAllCompletes(r, init, lockValues);
    }
  }

  /** One more sync, when it goes through, sets the last coupon's counter. */
  lemma SyncAllStep(r: Redis, coupons: seq<CM.CouponState>, lockValues: nat -> string)
    requires coupons != []
    requires SyncAll(r, coupons[..|coupons| - 1], lockValues).outcome == Done
    requires LockKey(LockKey(coupons[|coupons| - 1].code)) !in SyncAll(r, coupons[..|coupons| - 1], lockValues).redis.locks
    ensures var prev := SyncAll(r, coupons[..|coupons| - 1], lockValues).redis;
            var last := coupons[|coupons| - 1];
            SyncAll(r, coupons, lockValues) == Step(Done, prev.(stock := prev.stock[StockKey(last.code) := last.remainStock]))
  {
  }

  /** With distinct codes and no sync lock held, every coupon's counter ends
      equal to its remainStock. */
  lemma {:induction false} SyncAllSetsEveryCounter(r: Redis, coupons: seq<CM.CouponState>, lockValues: nat -> string)
    requires forall i, j :: 0 <= i < j < |coupons| ==> coupons[i].code != coupons[j].code
    requires forall i :: 0 <= i < |coupons| ==> LockKey(LockKey(coupons[i].code)) !in r.locks
    ensures forall i :: 0 <= i < |coupons| ==>
              StockKey(coupons[i].code) in SyncAll(r, coupons, lockValues).redis.stock
              && SyncAll(r, coupons, lockValues).redis.stock[StockKey(coupons[i].code)] == coupons[i].remainStock
    decreases |coupons|
  {
    if coupons != [] {
      var n := |coupons| - 1;
      var init := coupons[..n];
      var last := coupons[n];
      assert forall i :: 0 <= i < |init| ==> init[i] == coupons[i];
      SyncAllSetsEveryCounter(r, init, lockValues);
      SyncAllCompletes(r, init, lockValues);
      SyncAllStep(r, coupons, lockValues);
      var prev := SyncAll(r, init, lockValues).redis.stock;
      var fin := SyncAll(r, coupons, lockValues).redis.stock;
      assert fin == prev[StockKey(last.code) := last.remainStock];
      forall i | 0 <= i < |coupons|
        ensures StockKey(coupons[i].code) in fin && fin[StockKey(coupons[i].code)] == coupons[i].remainStock
      {
        if i < n {
          assert coupons[i] == init[i];
          if StockKey(coupons[i].code) == StockKey(last.code) {
            StockKeyInjective(coupons[i].code, last.code);
          }
        }
      }
    }
  }

  /** The sync loop touches no counter but those of its coupons. */
  lemma {:induction false} SyncAllLeavesOtherCounters(r: Redis, coupons: seq<CM.CouponState>, lockValues: nat -> string)
    requires forall i :: 0 <= i < |coupons| ==> LockKey(LockKey(coupons[i].code)) !in r.locks
    ensures forall k :: !IsCounterOf(coupons, k) ==>
              (k in SyncAll(r, coupons, lockValues).redis.stock <==> k in r.stock)
              && (k in r.stock ==> SyncAll(r, coupons, lockValues).redis.stock[k] == r.stock[k])
    decreases |coupons|
  {
    if coupons != [] {
      var n := |coupons| - 1;
      var init := coupons[..n];
      var last := coupons[n];
      assert forall i :: 0 <= i < |init| ==> init[i] == coupons[i];
      SyncAllLeavesOtherCounters(r, init, lockValues);
      SyncAllCompletes(r, init, lockValues);
      SyncAllStep(r, coupons, lockValues);
      var prev := SyncAll(r, init, lockValues).redis.stock;
      var fin := SyncAll(r, coupons, lockValues).redis.stock;
      assert fin == prev[StockKey(last.code) := last.remainStock];
      forall k | !IsCounterOf(coupons, k)
        ensures (k in fin <==> k in r.stock) && (k in r.stock ==> fin[k] == r.stock[k])
      {
        assert k != StockKey(coupons[n].code);
        assert !IsCounterOf(init, k) by {
          assert forall i :: 0 <= i < |init| ==> k != StockKey(coupons[i].code);
        }
      }
    }
  }

  /** Start-up sync: over a repository whose undeleted codes are unique, with
      no sync lock held, every ACTIVE undeleted coupon's counter equals its
      remainStock afterwards. */
  lemma {:induction false} InitializeStockDataMatchesDb(r: Redis, db: seq<CM.CouponState>, lockValues: nat -> string)
    requires UndeletedCodesUnique(db)
    requires forall c :: c in db && c.status == Active && !c.isDeleted ==> LockKey(LockKey(c.code)) !in r.locks
    ensures var s := InitializeStockData(r, db, lockValues);
            && s.outcome == Done
            && s.redis.locks == r.locks
            && (forall c :: c in db && c.status == Active && !c.isDeleted ==>
                  StockKey(c.code) in s.redis.stock && s.redis.stock[StockKey(c.code)] == c.remainStock)
  {
    var active := FindAllActiveCoupons(db);
    assert forall i :: 0 <= i < |active| ==> active[i] in active;
    SyncAllCompletes(r, active, lockValues);
    SyncAllSetsEveryCounter(r, active, lockValues);
    forall c | c in db && c.status == Active && !c.isDeleted
      ensures exists i :: 0 <= i < |active| && active[i] == c
    {
      assert c in active;
    }
  }
}
