/** RedisStockService.java over a Redis store held as two maps that single
    atomic commands update. The repository arrives as its rows `db`; the
    UUIDs of the sync locks and the random.nextLong() draws of the backoff
    arrive as the oracles `lockValues` and `draws`. Each method is specified by the
    function of `RedisModel` with the same name. */
module RedisStockServiceImpl {
  import opened Common
  import CM = CouponModel
  import RM = RedisModel
  import B = Backoff

  class RedisStockService {
    var stock: map<string, int>
    var locks: map<string, string>

    function View(): RM.Redis
      reads this
    {
      RM.Redis(stock, locks)
    }

    constructor ()
      ensures View() == RM.Redis(map[], map[])
    {
      stock := map[];
      locks := map[];
    }

    /** initializeStockData: sync every ACTIVE undeleted coupon, in order; the
        first sync that throws ends the loop. */
    method InitializeStockData(db: seq<CM.CouponState>, lockValues: nat -> string, draws: nat -> int)
      returns (o: Outcome)
      modifies this
      ensures var spec := RM.InitializeStockData(old(View()), db, lockValues);
              o == spec.outcome && View() == spec.redis
    {
      var active := RM.FindAllActiveCoupons(db);
      o := SyncAll(active, lockValues, draws);
    }

    /** The for-each loop of initializeStockData over the given coupons. */
    method SyncAll(active: seq<CM.CouponState>, lockValues: nat -> string, draws: nat -> int)
      returns (o: Outcome)
      modifies this
      ensures var spec := RM.SyncAll(old(View()), active, lockValues);
              o == spec.outcome && View() == spec.redis
    {
      ghost var start := View();
      var i := 0;
      o := Done;
      while i < |active|
        invariant 0 <= i <= |active|
        invariant o == Done
        invariant RM.SyncAll(start, active[..i], lockValues) == RM.Step(Done, View())
      {
        SyncAllExtend(start, active, i, lockValues);
        ghost var before := View();
        o := SyncStockWithDB(active[i].code, active[i].remainStock, lockValues(i), draws);
        if o.Failed? {
          assert RM.SyncAll(start, active[..i + 1], lockValues) == RM.Step(o, before) == RM.Step(o, View());
          SyncAllStopsAtFailure(start, active, i + 1, lockValues);
          return;
        }
        i := i + 1;
      }
      assert active[..i] == active;
    }

    /** initializeStock: SET the counter. */
    method InitializeStock(couponCode: string, quantity: int)
      modifies this
      ensures View() == RM.InitializeStock(old(View()), couponCode, quantity)
    {
      stock := stock[RM.StockKey(couponCode) := quantity];
    }

    /** increaseStock: INCR, then clamp to the coupon's total stock. */
    method IncreaseStock(code: string, db: seq<CM.CouponState>) returns (o: Outcome)
      modifies this
      ensures var spec := RM.IncreaseStock(old(View()), db, code);
              o == spec.outcome && View() == spec.redis
    {
      var key := RM.StockKey(code);
      stock := stock[key := RM.Counter(View(), key) + 1];
      var currentStock := stock[key];
      match RM.FindByCodeAndIsDeletedFalse(db, code)
      case None =>
        return Failed(RedisOperationFailed);
      case Some(coupon) =>
        if currentStock > coupon.totalStock {
          stock := stock[key := coupon.totalStock];
        }
        o := Done;
    }

    /** decreaseStock: DECR, and INCR back when the result is negative. */
    method DecreaseStock(couponCode: string) returns (ok: bool)
      modifies this
      ensures var spec := RM.DecreaseStock(old(View()), couponCode);
              ok == spec.ok && View() == spec.redis
    {
      var key := RM.StockKey(couponCode);
      var remainStock := RM.Counter(View(), key) - 1;
      stock := stock[key := remainStock];
      if remainStock < 0 {
        stock := stock[key := stock[key] + 1];
        return false;
      }
      return true;
    }

    /** deleteStock: seed a missing counter from the database, then run the
        guarded decrement. */
    method DeleteStock(couponCode: string, db: seq<CM.CouponState>, lockValue: string, draws: nat -> int)
      returns (o: Outcome)
      modifies this
      ensures var spec := RM.DeleteStock(old(View()), db, couponCode, lockValue);
              o == spec.outcome && View() == spec.redis
    {
      var key := RM.StockKey(couponCode);
      var currentStock: int;
      if key !in stock {
        match RM.FindByCodeAndIsDeletedFalse(db, couponCode)
        case None =>
          return Failed(CouponNotFound);
        case Some(coupon) =>
          o := SyncStockWithDB(couponCode, coupon.remainStock, lockValue, draws);
          if o.Failed? {
            return;
          }
          currentStock := coupon.remainStock;
      } else {
        currentStock := stock[key];
      }
      o := Done;
      if currentStock <= 0 {
        return;
      }
      if key in stock && stock[key] > 0 {
        stock := stock[key := stock[key] - 1];
      }
    }

    /** deleteAllKeys: delete the keys matching coupon:stock:* and coupon:lock:*. */
    method DeleteAllKeys()
      modifies this
      ensures View() == RM.DeleteAllKeys(old(View()))
    {
      stock := map k | k in stock && !RM.HasPrefix(k, RM.StockKeyPrefix) :: stock[k];
      locks := map k | k in locks && !RM.HasPrefix(k, RM.LockKeyPrefix) :: locks[k];
    }

    /** syncStockWithDB: under the lock, make the counter equal the
        database's value; the lock is released on the way out. */
    method SyncStockWithDB(code: string, dbStock: int, lockValue: string, draws: nat -> int)
      returns (o: Outcome)
      modifies this
      ensures var spec := RM.SyncStockWithDB(old(View()), code, dbStock, lockValue);
              o == spec.outcome && View() == spec.redis
    {
      var stockKey := RM.StockKey(code);
      var lockKey := RM.LockKey(code);
      var locked, waits := AcquireLock(lockKey, lockValue, draws);
      if !locked {
        return Failed(RedisLockFailed);
      }
      if stockKey !in stock {
        stock := stock[stockKey := dbStock];
      } else if stock[stockKey] != dbStock {
        stock := stock[stockKey := dbStock];
      }
      ReleaseLock(lockKey, lockValue);
      o := Done;
    }

    /** acquireLock: up to MAX_RETRY_COUNT rounds of "look, then SET NX",
        with a backoff wait after each failed round. `waits` is the sequence
        of Thread.sleep durations. */
    method AcquireLock(couponCode: string, requestId: string, draws: nat -> int)
      returns (acquired: bool, waits: seq<int>)
      modifies this`locks
      ensures var spec := RM.AcquireLock(old(View()), couponCode, requestId);
              acquired == spec.acquired && View() == spec.redis
      ensures waits == if acquired then [] else B.Backoffs(draws, RM.MaxRetryCount)
      ensures forall i :: 0 <= i < |waits| ==> B.InitialBackoffMs <= waits[i] <= B.MaxBackoffMs
    {
      var lockKey := RM.LockKey(couponCode);
      var retryCount: nat := 0;
      var backoffTime := B.InitialBackoffMs;
      waits := [];
      while retryCount < RM.MaxRetryCount
        invariant retryCount <= RM.MaxRetryCount
        invariant locks == old(locks)
        invariant retryCount > 0 ==> lockKey in locks
        invariant backoffTime == B.BackoffAfter(draws, retryCount)
        invariant waits == B.Backoffs(draws, retryCount)
      {
        if !IsLockHeld(lockKey) {
          var stored := SetIfAbsent(lockKey, requestId);
          if stored {
            return true, waits;
          }
        }
        retryCount := retryCount + 1;
        backoffTime := B.CalculateBackoffTimeAsWritten(retryCount, backoffTime, draws(retryCount));
        waits := waits + [backoffTime];
      }
      B.BackoffsInRange(draws, RM.MaxRetryCount);
      return false, waits;
    }

    /** isLockHeld: EXISTS on the key. */
    predicate IsLockHeld(lockKey: string)
      reads this
      ensures IsLockHeld(lockKey) == RM.IsLockHeld(View(), lockKey)
    {
      lockKey in locks
    }

    /** SET key value NX: writes only when the key is absent. */
    method SetIfAbsent(key: string, value: string) returns (stored: bool)
      modifies this`locks
      ensures stored <==> key !in old(locks)
      ensures locks == if stored then old(locks)[key := value] else old(locks)
    {
      if key in locks {
        return false;
      }
      locks := locks[key := value];
      return true;
    }

    /** releaseLock: the compare-and-delete script. */
    method ReleaseLock(couponCode: string, requestId: string)
      modifies this`locks
      ensures View() == RM.ReleaseLock(old(View()), couponCode, requestId)
    {
      var lockKey := RM.LockKey(couponCode);
      if lockKey in locks && locks[lockKey] == requestId {
        locks := locks - {lockKey};
      }
    }
  }

  /** The loop over one more coupon is one more sync. */
  lemma {:induction false} SyncAllExtend(r: RM.Redis, coupons: seq<CM.CouponState>, i: nat, lockValues: nat -> string)
    requires i < |coupons|
    requires RM.SyncAll(r, coupons[..i], lockValues).outcome == Done
    ensures RM.SyncAll(r, coupons[..i + 1], lockValues)
         == RM.SyncStockWithDB(RM.SyncAll(r, coupons[..i], lockValues).redis, coupons[i].code,
                               coupons[i].remainStock, lockValues(i))
  {
    assert coupons[..i + 1][..i] == coupons[..i];
  }

  /** A sync that throws ends the loop: the rest of the coupons are not synced. */
  lemma {:induction false} SyncAllStopsAtFailure(r: RM.Redis, coupons: seq<CM.CouponState>, j: nat, lockValues: nat -> string)
    requires j <= |coupons|
    requires RM.SyncAll(r, coupons[..j], lockValues).outcome.Failed?
    ensures RM.SyncAll(r, coupons, lockValues) == RM.SyncAll(r, coupons[..j], lockValues)
    decreases |coupons|
  {
    if j < |coupons| {
      var init := coupons[..|coupons| - 1];
      assert init[..j] == coupons[..j];
      SyncAllStopsAtFailure(r, init, j, lockValues);
    } else {
      assert coupons[..j] == coupons;
    }
  }
}
