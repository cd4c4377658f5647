/**
 * The in-memory token bucket of src/server/rateLimit.ts. It keeps a map it
 * prunes when it grows. Pruning is shown to be invisible by running beside a
 * copy that never prunes, and the rate it promises is shown of that copy.
 */
module RateLimit {
  type Key = string

  /** Calls made at times that never go back. */
  datatype Call = Call(key: Key, now: nat)

  predicate Ordered(calls: seq<Call>) {
    forall i, j :: 0 <= i <= j < |calls| ==> calls[i].now <= calls[j].now
  }

  predicate NotBefore(calls: seq<Call>, now: nat) {
    forall i :: 0 <= i < |calls| ==> calls[i].now <= now
  }

  // --- token bucket --------------------------------------------------------------

  datatype Bucket = Bucket(tokens: real, updatedAt: nat)

  datatype BucketConfig = BucketConfig(capacity: real, refillMs: nat, ratePerMs: real) {
    ghost predicate Valid() {
      capacity >= 0.0 && refillMs > 0 && ratePerMs >= 0.0 && refillMs as real * ratePerMs == capacity
    }
  }

  /** What an empty bucket regains over `ms`. */
  function Regained(c: BucketConfig, ms: int): real {
    ms as real * c.ratePerMs
  }

  type Buckets = map<Key, Bucket>

  function MinReal(a: real, b: real): real {
    if a < b then a else b
  }

  /** A bucket's tokens at time `now`; a key never seen has a full one. */
  function Refilled(c: BucketConfig, m: Buckets, key: Key, now: nat): real
  {
    if key !in m then c.capacity
    else MinReal(c.capacity, m[key].tokens + Regained(c, now - m[key].updatedAt))
  }

  /** One `take` without pruning. */
  function Taken(c: BucketConfig, m: Buckets, call: Call): (Buckets, bool)
    requires c.Valid()
  {
    var tokens := Refilled(c, m, call.key, call.now);
    if tokens < 1.0 then (m[call.key := Bucket(tokens, call.now)], false)
    else (m[call.key := Bucket(tokens - 1.0, call.now)], true)
  }

  function PrunedBuckets(c: BucketConfig, m: Buckets, now: nat): Buckets {
    map k | k in m && now - m[k].updatedAt <= c.refillMs :: m[k]
  }

  const BUCKET_PRUNE_ABOVE: nat := 5000

  class TokenBucketLimiter {
    const config: BucketConfig
    var buckets: Buckets

    constructor (capacity: real, refillMs: nat)
      requires capacity >= 0.0 && refillMs > 0
      ensures config.Valid() && config.capacity == capacity && config.refillMs == refillMs && buckets == map[]
    {
      config, buckets := BucketConfig(capacity, refillMs, capacity / refillMs as real), map[];
    }

    method Take(key: Key, now: nat) returns (ok: bool)
      requires config.Valid()
      modifies this
      ensures (buckets, ok)
           == Taken(config, if |old(buckets)| <= BUCKET_PRUNE_ABOVE then old(buckets)
                            else PrunedBuckets(config, old(buckets), now), Call(key, now))
    {
      if |buckets| > BUCKET_PRUNE_ABOVE {
        buckets := PrunedBuckets(config, buckets, now);
      }
      ghost var m := buckets;
      var bucket: Bucket;
      if key !in buckets {
        bucket := Bucket(config.capacity, now);
      } else {
        bucket := buckets[key];
        var gained := (now - bucket.updatedAt) as real * config.ratePerMs;
        bucket := Bucket(MinReal(config.capacity, bucket.tokens + gained), now);
      }
      buckets := buckets[key := bucket];
      assert bucket.tokens == Refilled(config, m, key, now);
      if bucket.tokens < 1.0 {
        return false;
      }
      buckets := buckets[key := bucket.(tokens := bucket.tokens - 1.0)];
      assert buckets == m[key := buckets[key]];
      return true;
    }
  }

  /** Where the unpruned limiter stands after a run of calls. */
  function BucketsAfter(c: BucketConfig, calls: seq<Call>): Buckets
    requires c.Valid()
  {
    if calls == [] then map[] else Taken(c, BucketsAfter(c, calls[..|calls| - 1]), calls[|calls| - 1]).0
  }

  /** Whether the last call of a run got its token. */
  predicate Granted(c: BucketConfig, calls: seq<Call>)
    requires c.Valid() && calls != []
  {
    Taken(c, BucketsAfter(c, calls[..|calls| - 1]), calls[|calls| - 1]).1
  }

  /** The same run where pruning happens before the calls in `prunes`: any subset, so any threshold. */
  function PrunedAfter(c: BucketConfig, calls: seq<Call>, prunes: set<nat>): Buckets
    requires c.Valid()
    decreases |calls|, 1
  {
    if calls == [] then map[]
    else Taken(c, BeforeTake(c, calls, prunes), calls[|calls| - 1]).0
  }

  function BeforeTake(c: BucketConfig, calls: seq<Call>, prunes: set<nat>): Buckets
    requires c.Valid() && calls != []
    decreases |calls|, 0
  {
    var m := PrunedAfter(c, calls[..|calls| - 1], prunes);
    if |calls| in prunes then PrunedBuckets(c, m, calls[|calls| - 1].now) else m
  }

  /** The pruned map holds the same buckets but for some that are full again by `now`. */
  ghost predicate SameBuckets(c: BucketConfig, pruned: Buckets, full: Buckets, now: nat)
    requires c.Valid()
  {
    && (forall k :: k in pruned ==> k in full && pruned[k] == full[k])
    && (forall k :: k in full ==> full[k].updatedAt <= now && 0.0 <= full[k].tokens <= c.capacity)
    && (forall k :: k in full && k !in pruned ==> now - full[k].updatedAt >= c.refillMs)
  }

  lemma FullAgain(c: BucketConfig, elapsed: nat)
    requires c.Valid() && elapsed >= c.refillMs
    ensures Regained(c, elapsed) >= c.capacity
  {
    RefillBetween(c, c.refillMs, elapsed - c.refillMs);
  }

  lemma SameTake(c: BucketConfig, pruned: Buckets, full: Buckets, call: Call)
    requires c.Valid() && SameBuckets(c, pruned, full, call.now)
    ensures Refilled(c, pruned, call.key, call.now) == Refilled(c, full, call.key, call.now)
    ensures Taken(c, pruned, call).1 == Taken(c, full, call).1
    ensures SameBuckets(c, Taken(c, pruned, call).0, Taken(c, full, call).0, call.now)
  {
    if call.key in full {
      var elapsed := call.now - full[call.key].updatedAt;
      RefillBetween(c, 0, elapsed);
      if call.key !in pruned {
        FullAgain(c, elapsed);
      }
    }
  }

  lemma SamePruned(c: BucketConfig, pruned: Buckets, full: Buckets, now: nat)
    requires c.Valid() && SameBuckets(c, pruned, full, now)
    ensures SameBuckets(c, PrunedBuckets(c, pruned, now), full, now)
  {}

  lemma {:induction false} SameRun(c: BucketConfig, calls: seq<Call>, prunes: set<nat>, now: nat)
    requires c.Valid() && Ordered(calls) && NotBefore(calls, now)
    ensures SameBuckets(c, PrunedAfter(c, calls, prunes), BucketsAfter(c, calls), now)
  {
    if calls != [] {
      var init, last := calls[..|calls| - 1], calls[|calls| - 1];
      SameRun(c, init, prunes, last.now);
      var m, full := PrunedAfter(c, init, prunes), BucketsAfter(c, init);
      SamePruned(c, m, full, last.now);
      SameTake(c, BeforeTake(c, calls, prunes), full, last);
    }
  }

  /** Pruning, whenever it happens, never changes an answer. */
  lemma BucketPruningInvisible(c: BucketConfig, calls: seq<Call>, prunes: set<nat>)
    requires c.Valid() && Ordered(calls) && calls != []
    ensures Taken(c, BeforeTake(c, calls, prunes), calls[|calls| - 1]).1 == Granted(c, calls)
  {
    var init, last := calls[..|calls| - 1], calls[|calls| - 1];
    SameRun(c, init, prunes, last.now);
    var m, full := PrunedAfter(c, init, prunes), BucketsAfter(c, init);
    SamePruned(c, m, full, last.now);
    SameTake(c, BeforeTake(c, calls, prunes), full, last);
  }

  /** Tokens granted to `key` from the call with index `from` on. */
  function Grants(c: BucketConfig, calls: seq<Call>, key: Key, from: nat): nat
    requires c.Valid()
  {
    if |calls| <= from then 0
    else Grants(c, calls[..|calls| - 1], key, from)
         + (if calls[|calls| - 1].key == key && Granted(c, calls) then 1 else 0)
  }

  /** One call: a token granted to `key` is one it had, and it regains no more than the rate. */
  lemma CallPaidFor(c: BucketConfig, m: Buckets, last: Call, key: Key, now: nat)
    requires c.Valid() && last.now <= now && (key in m ==> m[key].updatedAt <= last.now)
    ensures (if last.key == key && Taken(c, m, last).1 then 1.0 else 0.0) + Refilled(c, Taken(c, m, last).0, key, now)
         <= Refilled(c, m, key, last.now) + Regained(c, now - last.now)
  {
    if last.key != key {
      RefilledLater(c, m, key, last.now, now);
    }
  }

  lemma RefilledFull(c: BucketConfig, m: Buckets, key: Key, now: nat)
    requires c.Valid()
    ensures Refilled(c, m, key, now) <= c.capacity
  {}

  /** The most `key` can have been given or hold at `now`, counting from `then`. */
  function Budget(c: BucketConfig, then_: nat, now: int): real
    requires c.Valid()
  {
    c.capacity + Regained(c, now - then_)
  }

  lemma BudgetGrows(c: BucketConfig, then_: nat, t: nat, now: nat)
    requires c.Valid() && then_ <= t <= now
    ensures Budget(c, then_, now) == Budget(c, then_, t) + Regained(c, now - t)
    ensures Budget(c, then_, t) >= c.capacity
  {
    RefillBetween(c, t - then_, now - t);
    RefillBetween(c, 0, t - then_);
  }

  /** Tokens granted since `from`, and those left, were all there at `from` or refilled since. */
  ghost predicate PaidFor(c: BucketConfig, calls: seq<Call>, key: Key, from: nat, then_: nat, now: nat)
    requires c.Valid()
  {
    Grants(c, calls, key, from) as real + Refilled(c, BucketsAfter(c, calls), key, now) <= Budget(c, then_, now)
  }

  lemma PaidForStep(c: BucketConfig, calls: seq<Call>, key: Key, from: nat, then_: nat, now: nat)
    requires c.Valid() && from < |calls| && then_ <= calls[|calls| - 1].now <= now
    requires PaidFor(c, calls[..|calls| - 1], key, from, then_, calls[|calls| - 1].now)
    requires var m := BucketsAfter(c, calls[..|calls| - 1]);
             key in m ==> m[key].updatedAt <= calls[|calls| - 1].now
    ensures PaidFor(c, calls, key, from, then_, now)
  {
    var init, last := calls[..|calls| - 1], calls[|calls| - 1];
    var m := BucketsAfter(c, init);
    BudgetGrows(c, then_, last.now, now);
    CallPaidFor(c, m, last, key, now);
    GrantsStep(c, calls, key, from);
    AddUp(Grants(c, init, key, from) as real, Refilled(c, m, key, last.now), Budget(c, then_, last.now),
          if last.key == key && Taken(c, m, last).1 then 1.0 else 0.0,
          Refilled(c, Taken(c, m, last).0, key, now), Regained(c, now - last.now));
  }

  lemma AddUp(grants: real, held: real, budget: real, granted: real, held': real, regained: real)
    requires grants + held <= budget && granted + held' <= held + regained
    ensures (grants + granted) + held' <= budget + regained
  {}

  lemma {:induction false} GrantsPaidFor(c: BucketConfig, calls: seq<Call>, key: Key, from: nat, now: nat)
    requires c.Valid() && Ordered(calls) && from < |calls| && NotBefore(calls, now)
    ensures PaidFor(c, calls, key, from, calls[from].now, now)
    decreases |calls|
  {
    var init, last := calls[..|calls| - 1], calls[|calls| - 1];
    if from < |init| {
      GrantsPaidFor(c, init, key, from, last.now);
    } else {
      NothingYet(c, init, key, from, last.now);
    }
    SameRun(c, init, {}, last.now);
    PaidForStep(c, calls, key, from, calls[from].now, now);
  }

  lemma NothingYet(c: BucketConfig, calls: seq<Call>, key: Key, from: nat, now: nat)
    requires c.Valid() && |calls| <= from
    ensures PaidFor(c, calls, key, from, now, now)
  {
    RefilledFull(c, BucketsAfter(c, calls), key, now);
    BudgetGrows(c, now, now, now);
  }

  lemma GrantsStep(c: BucketConfig, calls: seq<Call>, key: Key, from: nat)
    requires c.Valid() && from < |calls|
    ensures var init, last := calls[..|calls| - 1], calls[|calls| - 1];
            Grants(c, calls, key, from) as real
            == Grants(c, init, key, from) as real
               + (if last.key == key && Taken(c, BucketsAfter(c, init), last).1 then 1.0 else 0.0)
  {}

  lemma RefillBetween(c: BucketConfig, a: nat, b: nat)
    requires c.Valid()
    ensures Regained(c, a + b) == Regained(c, a) + Regained(c, b)
    ensures Regained(c, b) >= 0.0
  {}

  lemma RefilledLater(c: BucketConfig, m: Buckets, key: Key, t: nat, now: nat)
    requires c.Valid() && t <= now && (key in m ==> m[key].updatedAt <= t)
    ensures Refilled(c, m, key, now) <= Refilled(c, m, key, t) + Regained(c, now - t)
  {
    RefillBetween(c, 0, now - t);
    if key in m {
      RefillBetween(c, t - m[key].updatedAt, now - t);
    }
  }

  /** In any stretch of calls, a key gets at most a full bucket plus what refills over that time. */
  lemma GrantsBounded(c: BucketConfig, calls: seq<Call>, key: Key, from: nat)
    requires c.Valid() && Ordered(calls) && from < |calls|
    ensures Grants(c, calls, key, from) as real <= Budget(c, calls[from].now, calls[|calls| - 1].now)
  {
    var now := calls[|calls| - 1].now;
    GrantsPaidFor(c, calls, key, from, now);
    SameRun(c, calls, {}, now);
    PaidForBound(c, calls, key, from, calls[from].now, now);
  }

  lemma PaidForBound(c: BucketConfig, calls: seq<Call>, key: Key, from: nat, then_: nat, now: nat)
    requires c.Valid() && PaidFor(c, calls, key, from, then_, now)
    requires var m := BucketsAfter(c, calls);
             key in m ==> m[key].updatedAt <= now && m[key].tokens >= 0.0
    ensures Grants(c, calls, key, from) as real <= Budget(c, then_, now)
  {
    RefilledNotNegative(c, BucketsAfter(c, calls), key, now);
  }

  lemma RefilledNotNegative(c: BucketConfig, m: Buckets, key: Key, now: nat)
    requires c.Valid() && (key in m ==> m[key].updatedAt <= now && m[key].tokens >= 0.0)
    ensures Refilled(c, m, key, now) >= 0.0
  {
    if key in m {
      RefillBetween(c, 0, now - m[key].updatedAt);
    }
  }

  // --- when a token is granted ---------------------------------------------------

  /** What `key` holds at `now` by the stretch from call `i` on: a full bucket, the refill since, less the grants. */
  function HeldBy(c: BucketConfig, calls: seq<Call>, key: Key, i: nat, now: nat): real
    requires c.Valid() && i < |calls|
  {
    Budget(c, calls[i].now, now) - Grants(c, calls, key, i) as real
  }

  /** A bucket is full, or some stretch accounts for exactly what is in it. */
  ghost predicate Accounted(c: BucketConfig, calls: seq<Call>, key: Key, now: nat)
    requires c.Valid()
  {
    var held := Refilled(c, BucketsAfter(c, calls), key, now);
    held == c.capacity || exists i: nat :: i < |calls| && calls[i].key == key && held == HeldBy(c, calls, key, i, now)
  }

  lemma {:induction false} AlwaysAccounted(c: BucketConfig, calls: seq<Call>, key: Key, now: nat)
    requires c.Valid() && Ordered(calls) && NotBefore(calls, now)
    ensures Accounted(c, calls, key, now)
  {
    if calls != [] {
      var init, last := calls[..|calls| - 1], calls[|calls| - 1];
      if last.key == key {
        AlwaysAccounted(c, init, key, last.now);
        OwnCallAccounted(c, calls, now);
      } else {
        AlwaysAccounted(c, init, key, now);
        OtherCallAccounted(c, calls, key, now);
      }
    }
  }

  lemma OtherCallAccounted(c: BucketConfig, calls: seq<Call>, key: Key, now: nat)
    requires c.Valid() && calls != [] && calls[|calls| - 1].key != key
    requires Accounted(c, calls[..|calls| - 1], key, now)
    ensures Accounted(c, calls, key, now)
  {
    var init := calls[..|calls| - 1];
    if i: nat :| i < |init| && init[i].key == key
                 && Refilled(c, BucketsAfter(c, init), key, now) == HeldBy(c, init, key, i, now) {
      assert HeldBy(c, calls, key, i, now) == HeldBy(c, init, key, i, now);
    }
  }

  lemma OwnCallAccounted(c: BucketConfig, calls: seq<Call>, now: nat)
    requires c.Valid() && calls != [] && calls[|calls| - 1].now <= now
    requires forall i :: 0 <= i < |calls| ==> calls[i].now <= calls[|calls| - 1].now
    requires Accounted(c, calls[..|calls| - 1], calls[|calls| - 1].key, calls[|calls| - 1].now)
    ensures Accounted(c, calls, calls[|calls| - 1].key, now)
  {
    var n := |calls| - 1;
    var init, last := calls[..n], calls[n];
    var key := last.key;
    var held := Refilled(c, BucketsAfter(c, init), key, last.now);
    var granted := if Granted(c, calls) then 1.0 else 0.0;
    var left := held - granted + Regained(c, now - last.now);
    assert Refilled(c, BucketsAfter(c, calls), key, now) == MinReal(c.capacity, left);
    if held == c.capacity {
      LastStretch(c, calls, now);
      assert left == HeldBy(c, calls, key, n, now);
    } else {
      var i: nat :| i < |init| && init[i].key == key && held == HeldBy(c, init, key, i, last.now);
      StretchOn(c, calls, i, now);
      assert left == HeldBy(c, calls, key, i, now);
    }
  }

  lemma LastStretch(c: BucketConfig, calls: seq<Call>, now: nat)
    requires c.Valid() && calls != [] && calls[|calls| - 1].now <= now
    ensures var last := calls[|calls| - 1];
            HeldBy(c, calls, last.key, |calls| - 1, now)
            == c.capacity + Regained(c, now - last.now) - (if Granted(c, calls) then 1.0 else 0.0)
  {
    var n := |calls| - 1;
    assert Grants(c, calls[..n], calls[n].key, n) == 0;
  }

  lemma StretchOn(c: BucketConfig, calls: seq<Call>, i: nat, now: nat)
    requires c.Valid() && i < |calls| - 1 && calls[i].now <= calls[|calls| - 1].now <= now
    ensures var init, last := calls[..|calls| - 1], calls[|calls| - 1];
            HeldBy(c, calls, last.key, i, now)
            == HeldBy(c, init, last.key, i, last.now) - (if Granted(c, calls) then 1.0 else 0.0)
               + Regained(c, now - last.now)
  {
    BudgetGrows(c, calls[i].now, calls[|calls| - 1].now, now);
  }

  /** The bucket never holds more than any stretch leaves it. */
  lemma NeverMore(c: BucketConfig, calls: seq<Call>, key: Key, i: nat, now: nat)
    requires c.Valid() && Ordered(calls) && NotBefore(calls, now) && i < |calls|
    ensures Refilled(c, BucketsAfter(c, calls), key, now) <= HeldBy(c, calls, key, i, now)
  {
    GrantsPaidFor(c, calls, key, i, now);
  }

  /** A bucket refills in `refillMs`, evenly. */
  function Refill(c: BucketConfig, ms: int): real
    requires c.Valid()
  {
    ms as real * c.capacity / c.refillMs as real
  }

  /** Whether one more token after the grants since call `i` stays within a full bucket and the refill since. */
  predicate Affords(c: BucketConfig, calls: seq<Call>, i: nat)
    requires c.Valid() && i < |calls|
  {
    var n := |calls| - 1;
    Grants(c, calls[..n], calls[n].key, i) as real + 1.0
    <= c.capacity + Refill(c, calls[n].now - calls[i].now)
  }

  lemma RegainedExactly(c: BucketConfig, ms: int)
    requires c.Valid()
    ensures Regained(c, ms) == Refill(c, ms)
  {
    var r, t := c.refillMs as real, ms as real;
    assert t * c.capacity == (t * c.ratePerMs) * r;
    Cancel(t * c.ratePerMs, r);
  }

  lemma Cancel(x: real, r: real)
    requires r > 0.0
    ensures x * r / r == x
  {}

  lemma AffordsExactly(c: BucketConfig, calls: seq<Call>, i: nat)
    requires c.Valid() && i < |calls|
    ensures var n := |calls| - 1;
            Affords(c, calls, i)
            <==> if i < n then HeldBy(c, calls[..n], calls[n].key, i, calls[n].now) >= 1.0 else c.capacity >= 1.0
  {
    var n := |calls| - 1;
    var grants, regained := Grants(c, calls[..n], calls[n].key, i), Regained(c, calls[n].now - calls[i].now);
    RegainedExactly(c, calls[n].now - calls[i].now);
    assert Affords(c, calls, i) <==> grants as real + 1.0 <= c.capacity + regained;
    if i == n {
      assert grants == 0 && regained == 0.0;
    } else {
      assert calls[..n][i] == calls[i];
    }
  }

  /**
   * Exactly when a call gets a token: one more would break the bound on no
   * stretch that starts at a call of its key, itself included. So a call is
   * refused only if granting it would hand out too many.
   */
  lemma GrantedExactly(c: BucketConfig, calls: seq<Call>)
    requires c.Valid() && Ordered(calls) && calls != []
    ensures Granted(c, calls)
            <==> forall i: nat :: i < |calls| && calls[i].key == calls[|calls| - 1].key ==> Affords(c, calls, i)
  {
    var n := |calls| - 1;
    var init, last := calls[..n], calls[n];
    var held := Refilled(c, BucketsAfter(c, init), last.key, last.now);
    RefilledFull(c, BucketsAfter(c, init), last.key, last.now);
    AffordsExactly(c, calls, n);
    forall i: nat | i < n && calls[i].key == last.key
      ensures held <= HeldBy(c, init, last.key, i, last.now)
      ensures Affords(c, calls, i) <==> HeldBy(c, init, last.key, i, last.now) >= 1.0
    {
      NeverMore(c, init, last.key, i, last.now);
      AffordsExactly(c, calls, i);
    }
    AlwaysAccounted(c, init, last.key, last.now);
    if held < 1.0 && held != c.capacity {
      var i: nat :| i < |init| && init[i].key == last.key && held == HeldBy(c, init, last.key, i, last.now);
      assert !Affords(c, calls, i);
    }
  }
}
