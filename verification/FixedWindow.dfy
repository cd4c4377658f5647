/** The fixed-window counter of src/server/rateLimit.ts and the debouncer of src/server/activity.ts. */
module FixedWindow {
  import opened Bytes
  import opened RateLimit

  datatype Window = Window(count: nat, resetAt: nat)

  type Windows = map<Key, Window>

  datatype Op = IsLimited(key: Key) | Hit(key: Key) | RetryAfterMs(key: Key) | Reset(key: Key)

  datatype Timed = Timed(op: Op, now: nat)

  datatype Answer = Done | Limited(yes: bool) | Wait(ms: nat)

  const WINDOW_PRUNE_ABOVE: nat := 5000

  /** The window of `key` that is open at `now`. */
  function Current(m: Windows, key: Key, now: nat): Option<Window> {
    if key !in m || m[key].resetAt <= now then None else Some(m[key])
  }

  function PrunedWindows(m: Windows, now: nat): Windows {
    map k | k in m && m[k].resetAt > now :: m[k]
  }

  predicate OverLimit(limit: nat, m: Windows, key: Key, now: nat) {
    var entry := Current(m, key, now);
    entry.Some? && entry.value.count > limit
  }

  function Counted(windowMs: nat, m: Windows, key: Key, now: nat): Windows {
    match Current(m, key, now)
    case None => m[key := Window(1, now + windowMs)]
    case Some(w) => m[key := w.(count := w.count + 1)]
  }

  /** One call without pruning. */
  function Apply(limit: nat, windowMs: nat, m: Windows, t: Timed): (Windows, Answer) {
    match t.op
    case IsLimited(key) => (m, Limited(OverLimit(limit, m, key, t.now)))
    case Hit(key) => (Counted(windowMs, m, key, t.now), Done)
    case RetryAfterMs(key) =>
      (m, match Current(m, key, t.now) case None => Wait(0) case Some(w) => Wait(Max(0, w.resetAt - t.now)))
    case Reset(key) => (m - {key}, Done)
  }

  class FixedWindowLimiter {
    const limit: nat
    const windowMs: nat
    var hits: Windows

    constructor (limit: nat, windowMs: nat)
      ensures this.limit == limit && this.windowMs == windowMs && hits == map[]
    {
      this.limit, this.windowMs, hits := limit, windowMs, map[];
    }

    method IsLimited(key: Key, now: nat) returns (yes: bool)
      ensures (hits, Limited(yes)) == Apply(limit, windowMs, hits, Timed(Op.IsLimited(key), now))
    {
      var entry := Current(hits, key, now);
      yes := entry.Some? && entry.value.count > limit;
    }

    method Hit(key: Key, now: nat)
      modifies this
      ensures hits == Apply(limit, windowMs,
                            if |old(hits)| <= WINDOW_PRUNE_ABOVE then old(hits) else PrunedWindows(old(hits), now),
                            Timed(Op.Hit(key), now)).0
    {
      if |hits| > WINDOW_PRUNE_ABOVE {
        hits := PrunedWindows(hits, now);
      }
      var entry := Current(hits, key, now);
      if entry.None? {
        hits := hits[key := Window(1, now + windowMs)];
        return;
      }
      hits := hits[key := Window(entry.value.count + 1, entry.value.resetAt)];
    }

    method RetryAfterMs(key: Key, now: nat) returns (ms: nat)
      ensures (hits, Wait(ms)) == Apply(limit, windowMs, hits, Timed(Op.RetryAfterMs(key), now))
    {
      var entry := Current(hits, key, now);
      ms := if entry.Some? then Max(0, entry.value.resetAt - now) else 0;
    }

    method Reset(key: Key, ghost now: nat)
      modifies this
      ensures hits == Apply(limit, windowMs, old(hits), Timed(Op.Reset(key), now)).0
    {
      hits := hits - {key};
    }
  }

  predicate InOrder(ops: seq<Timed>) {
    forall i, j :: 0 <= i <= j < |ops| ==> ops[i].now <= ops[j].now
  }

  function WindowsAfter(limit: nat, windowMs: nat, ops: seq<Timed>): Windows {
    if ops == [] then map[] else Apply(limit, windowMs, WindowsAfter(limit, windowMs, ops[..|ops| - 1]), ops[|ops| - 1]).0
  }

  /** The map the last call meets when pruning happens before the calls numbered in `prunes`. */
  function PrunedBefore(limit: nat, windowMs: nat, ops: seq<Timed>, prunes: set<nat>): Windows
    requires ops != []
  {
    var init, now := ops[..|ops| - 1], ops[|ops| - 1].now;
    var m := if init == [] then map[]
             else Apply(limit, windowMs, PrunedBefore(limit, windowMs, init, prunes), init[|init| - 1]).0;
    if |ops| in prunes then PrunedWindows(m, now) else m
  }

  ghost predicate SameWindows(pruned: Windows, full: Windows, now: nat) {
    && (forall k :: k in pruned ==> k in full && pruned[k] == full[k])
    && (forall k :: k in full && k !in pruned ==> full[k].resetAt <= now)
  }

  lemma SameApply(limit: nat, windowMs: nat, pruned: Windows, full: Windows, t: Timed)
    requires SameWindows(pruned, full, t.now)
    ensures Apply(limit, windowMs, pruned, t).1 == Apply(limit, windowMs, full, t).1
    ensures SameWindows(Apply(limit, windowMs, pruned, t).0, Apply(limit, windowMs, full, t).0, t.now)
  {
    assert forall k :: Current(pruned, k, t.now) == Current(full, k, t.now);
  }

  /** Pruning, whenever it happens, never changes an answer. */
  lemma {:induction false} WindowPruningInvisible(limit: nat, windowMs: nat, ops: seq<Timed>, prunes: set<nat>)
    requires ops != [] && InOrder(ops)
    ensures var m, full := PrunedBefore(limit, windowMs, ops, prunes), WindowsAfter(limit, windowMs, ops[..|ops| - 1]);
            SameWindows(m, full, ops[|ops| - 1].now)
            && Apply(limit, windowMs, m, ops[|ops| - 1]).1 == Apply(limit, windowMs, full, ops[|ops| - 1]).1
  {
    var init, last := ops[..|ops| - 1], ops[|ops| - 1];
    var m, full := PrunedBefore(limit, windowMs, ops, prunes), WindowsAfter(limit, windowMs, init);
    if init != [] {
      WindowPruningInvisible(limit, windowMs, init, prunes);
      SameApply(limit, windowMs, PrunedBefore(limit, windowMs, init, prunes),
                WindowsAfter(limit, windowMs, init[..|init| - 1]), init[|init| - 1]);
    }
    assert SameWindows(m, full, last.now);
    SameApply(limit, windowMs, m, full, last);
  }

  /** The map after further calls. */
  function AppliedAll(limit: nat, windowMs: nat, m: Windows, ops: seq<Timed>): Windows {
    if ops == [] then m
    else Apply(limit, windowMs, AppliedAll(limit, windowMs, m, ops[..|ops| - 1]), ops[|ops| - 1]).0
  }

  lemma {:induction false} WindowStays(limit: nat, windowMs: nat, m: Windows, key: Key, ops: seq<Timed>)
    requires key in m && forall i :: 0 <= i < |ops| ==> ops[i].now < m[key].resetAt && ops[i].op != Reset(key)
    ensures var m' := AppliedAll(limit, windowMs, m, ops);
            key in m' && m'[key].resetAt == m[key].resetAt && m'[key].count >= m[key].count
  {
    if ops != [] {
      WindowStays(limit, windowMs, m, key, ops[..|ops| - 1]);
    }
  }

  /**
   * The wait a limited key is told is right: whatever calls come meanwhile,
   * unless one resets the key, it is limited up to that moment and not from it on.
   */
  lemma WaitIsExact(limit: nat, windowMs: nat, m: Windows, key: Key, now: nat, ms: nat, ops: seq<Timed>, at: nat)
    requires OverLimit(limit, m, key, now) && at >= now
    requires Apply(limit, windowMs, m, Timed(Op.RetryAfterMs(key), now)).1 == Wait(ms)
    requires forall i :: 0 <= i < |ops| ==> ops[i].now < now + ms && ops[i].op != Reset(key)
    ensures ms > 0 && (OverLimit(limit, AppliedAll(limit, windowMs, m, ops), key, at) <==> at < now + ms)
  {
    WindowStays(limit, windowMs, m, key, ops);
  }

  /** How often `key` was hit from call `i` on. */
  function HitsFrom(ops: seq<Timed>, key: Key, i: nat): nat {
    if |ops| <= i then 0
    else HitsFrom(ops[..|ops| - 1], key, i) + (if ops[|ops| - 1].op == Op.Hit(key) then 1 else 0)
  }

  /** Which call opened the window of `key` that is open at `now`, if one is. */
  function OpenedBy(windowMs: nat, ops: seq<Timed>, key: Key, now: nat): (r: Option<nat>)
    ensures r.Some? ==> r.value < |ops|
  {
    if ops == [] then None
    else
      var init, last := ops[..|ops| - 1], ops[|ops| - 1];
      if last.op == Op.Reset(key) then None
      else if last.op == Op.Hit(key) then
        var i := match OpenedBy(windowMs, init, key, last.now) case Some(i) => i case None => |init|;
        if now < ops[i].now + windowMs then Some(i) else None
      else OpenedBy(windowMs, init, key, now)
  }

  /** Call `i` hit `key` when no window of it was open, less than a window before `now`, with no reset since. */
  predicate Opens(windowMs: nat, ops: seq<Timed>, key: Key, i: nat, now: nat) {
    && i < |ops| && ops[i].op == Op.Hit(key) && now < ops[i].now + windowMs
    && (forall k :: i < k < |ops| ==> ops[k].op != Op.Reset(key))
    && OpenedBy(windowMs, ops[..i], key, ops[i].now) == None
  }

  lemma OpensLonger(windowMs: nat, init: seq<Timed>, last: Timed, key: Key, i: nat, now: nat)
    requires i < |init|
    ensures Opens(windowMs, init + [last], key, i, now)
            <==> Opens(windowMs, init, key, i, now) && last.op != Op.Reset(key)
  {
    var ops := init + [last];
    assert ops[..i] == init[..i] && ops[|init|] == last;
    assert forall k :: 0 <= k < |init| ==> ops[k] == init[k];
    if Opens(windowMs, ops, key, i, now) {
      assert ops[|init|].op != Op.Reset(key);
      forall k | i < k < |init|
        ensures init[k].op != Op.Reset(key)
      {
        assert ops[k].op != Op.Reset(key);
      }
    }
  }

  lemma {:induction false} OpenedByExactly(windowMs: nat, ops: seq<Timed>, key: Key, i: nat, now: nat)
    requires InOrder(ops) && (ops != [] ==> ops[|ops| - 1].now <= now)
    ensures OpenedBy(windowMs, ops, key, now) == Some(i) <==> Opens(windowMs, ops, key, i, now)
    decreases |ops|
  {
    if ops != [] {
      var init, last := ops[..|ops| - 1], ops[|ops| - 1];
      assert init + [last] == ops;
      if i < |init| {
        OpenedByExactly(windowMs, init, key, i, last.now);
        OpenedByExactly(windowMs, init, key, i, now);
        OpensLonger(windowMs, init, last, key, i, now);
        OpenedEarlier(windowMs, init, last, key, i, now);
      } else {
        OpenedLast(windowMs, init, last, key, i, now);
      }
    }
  }

  /** An earlier call's window is open after one more exactly if it was before, and is still. */
  lemma OpenedEarlier(windowMs: nat, init: seq<Timed>, last: Timed, key: Key, i: nat, now: nat)
    requires i < |init| && last.now <= now
    requires OpenedBy(windowMs, init, key, last.now) == Some(i) <==> Opens(windowMs, init, key, i, last.now)
    requires OpenedBy(windowMs, init, key, now) == Some(i) <==> Opens(windowMs, init, key, i, now)
    ensures OpenedBy(windowMs, init + [last], key, now) == Some(i)
            <==> Opens(windowMs, init, key, i, now) && last.op != Op.Reset(key)
  {
    assert (init + [last])[..|init|] == init;
  }

  lemma OpenedLast(windowMs: nat, init: seq<Timed>, last: Timed, key: Key, i: nat, now: nat)
    requires i >= |init|
    ensures OpenedBy(windowMs, init + [last], key, now) == Some(i) <==> Opens(windowMs, init + [last], key, i, now)
  {
    assert (init + [last])[..|init|] == init;
  }

  /** The limiter's open window of a key is the one the calls opened, with as many hits as fell in it. */
  lemma {:induction false} CurrentExactly(limit: nat, windowMs: nat, ops: seq<Timed>, key: Key, now: nat)
    requires InOrder(ops) && (ops != [] ==> ops[|ops| - 1].now <= now)
    ensures Current(WindowsAfter(limit, windowMs, ops), key, now)
         == match OpenedBy(windowMs, ops, key, now)
            case None => None
            case Some(i) => Some(Window(HitsFrom(ops, key, i), ops[i].now + windowMs))
    decreases |ops|
  {
    if ops != [] {
      var init, last := ops[..|ops| - 1], ops[|ops| - 1];
      CurrentExactly(limit, windowMs, init, key, last.now);
      CurrentExactly(limit, windowMs, init, key, now);
      WindowStep(limit, windowMs, WindowsAfter(limit, windowMs, init), last, key, now);
      if last.op == Op.Hit(key) {
        assert HitsFrom(init, key, |init|) == 0;
      }
    }
  }

  /** The open window after one more call. */
  lemma WindowStep(limit: nat, windowMs: nat, m: Windows, t: Timed, key: Key, now: nat)
    requires t.now <= now
    ensures var before, after := Current(m, key, t.now), Current(Apply(limit, windowMs, m, t).0, key, now);
            && (t.op == Op.Reset(key) ==> after == None)
            && (t.op == Op.Hit(key) ==>
                  var w := if before.None? then Window(1, t.now + windowMs)
                           else Window(before.value.count + 1, before.value.resetAt);
                  after == if now < w.resetAt then Some(w) else None)
            && (t.op != Op.Reset(key) && t.op != Op.Hit(key) ==> after == Current(m, key, now))
  {}

  /** A key is limited exactly when more than `limit` hits fell in the window that is open for it. */
  lemma LimitedExactly(limit: nat, windowMs: nat, ops: seq<Timed>, key: Key, now: nat)
    requires InOrder(ops) && (ops != [] ==> ops[|ops| - 1].now <= now)
    ensures OverLimit(limit, WindowsAfter(limit, windowMs, ops), key, now)
            <==> exists i: nat :: Opens(windowMs, ops, key, i, now) && HitsFrom(ops, key, i) > limit
  {
    CurrentExactly(limit, windowMs, ops, key, now);
    if i: nat :| OpenedBy(windowMs, ops, key, now) == Some(i) {
      OpenedByExactly(windowMs, ops, key, i, now);
    }
    if i: nat :| Opens(windowMs, ops, key, i, now) && HitsFrom(ops, key, i) > limit {
      OpenedByExactly(windowMs, ops, key, i, now);
    }
  }

  // --- what the login handler gets from it ---------------------------------------

  /** A failed login: refused when over the limit, recorded otherwise. */
  function Attempted(limit: nat, windowMs: nat, m: Windows, call: Call): (Windows, bool) {
    if OverLimit(limit, m, call.key, call.now) then (m, false)
    else (Counted(windowMs, m, call.key, call.now), true)
  }

  function AttemptsAfter(limit: nat, windowMs: nat, calls: seq<Call>): Windows {
    if calls == [] then map[]
    else Attempted(limit, windowMs, AttemptsAfter(limit, windowMs, calls[..|calls| - 1]), calls[|calls| - 1]).0
  }

  /** The limiter calls the handler makes: a check for each attempt, and a hit if it goes through and fails. */
  function Made(limit: nat, windowMs: nat, calls: seq<Call>): seq<Timed> {
    if calls == [] then []
    else
      var before, last := Made(limit, windowMs, calls[..|calls| - 1]), calls[|calls| - 1];
      var check := Timed(Op.IsLimited(last.key), last.now);
      if Apply(limit, windowMs, WindowsAfter(limit, windowMs, before), check).1 == Limited(true) then before + [check]
      else before + [check] + [Timed(Op.Hit(last.key), last.now)]
  }

  lemma AfterOne(limit: nat, windowMs: nat, ops: seq<Timed>, t: Timed)
    ensures WindowsAfter(limit, windowMs, ops + [t]) == Apply(limit, windowMs, WindowsAfter(limit, windowMs, ops), t).0
  {
    assert (ops + [t])[..|ops|] == ops;
  }

  lemma {:induction false} AttemptsAreCalls(limit: nat, windowMs: nat, calls: seq<Call>)
    ensures AttemptsAfter(limit, windowMs, calls) == WindowsAfter(limit, windowMs, Made(limit, windowMs, calls))
  {
    if calls != [] {
      var init, last := calls[..|calls| - 1], calls[|calls| - 1];
      AttemptsAreCalls(limit, windowMs, init);
      var before, check := Made(limit, windowMs, init), Timed(Op.IsLimited(last.key), last.now);
      AfterOne(limit, windowMs, before, check);
      AfterOne(limit, windowMs, before + [check], Timed(Op.Hit(last.key), last.now));
    }
  }

  lemma {:induction false} MadeInOrder(limit: nat, windowMs: nat, calls: seq<Call>)
    requires Ordered(calls)
    ensures InOrder(Made(limit, windowMs, calls))
    ensures Made(limit, windowMs, calls) != [] ==>
              calls != []
              && Made(limit, windowMs, calls)[|Made(limit, windowMs, calls)| - 1].now <= calls[|calls| - 1].now
  {
    if calls != [] {
      var init, last := calls[..|calls| - 1], calls[|calls| - 1];
      MadeInOrder(limit, windowMs, init);
      var before, check := Made(limit, windowMs, init), Timed(Op.IsLimited(last.key), last.now);
      OneLater(before, check);
      OneLater(before + [check], Timed(Op.Hit(last.key), last.now));
    }
  }

  lemma OneLater(ops: seq<Timed>, t: Timed)
    requires InOrder(ops) && (ops != [] ==> ops[|ops| - 1].now <= t.now)
    ensures InOrder(ops + [t])
  {}

  /** A login attempt goes through exactly unless more than `limit` failures fell in the window open for its key. */
  lemma AttemptedExactly(limit: nat, windowMs: nat, calls: seq<Call>)
    requires Ordered(calls) && calls != []
    ensures var init, last := calls[..|calls| - 1], calls[|calls| - 1];
            var made := Made(limit, windowMs, init);
            Attempted(limit, windowMs, AttemptsAfter(limit, windowMs, init), last).1
            <==> !exists i: nat :: Opens(windowMs, made, last.key, i, last.now) && HitsFrom(made, last.key, i) > limit
  {
    var init, last := calls[..|calls| - 1], calls[|calls| - 1];
    MadeInOrder(limit, windowMs, init);
    AttemptsAreCalls(limit, windowMs, init);
    LimitedExactly(limit, windowMs, Made(limit, windowMs, init), last.key, last.now);
  }

  /** Failures recorded for `key` from the call with index `from` on. */
  function Recorded(limit: nat, windowMs: nat, calls: seq<Call>, key: Key, from: nat): nat {
    if |calls| <= from then 0
    else
      var init, last := calls[..|calls| - 1], calls[|calls| - 1];
      Recorded(limit, windowMs, init, key, from)
      + (if last.key == key && Attempted(limit, windowMs, AttemptsAfter(limit, windowMs, init), last).1 then 1 else 0)
  }

  lemma {:induction false} WindowHoldsLimit(limit: nat, windowMs: nat, calls: seq<Call>)
    requires windowMs > 0 && Ordered(calls)
    ensures forall k :: k in AttemptsAfter(limit, windowMs, calls) ==>
              1 <= AttemptsAfter(limit, windowMs, calls)[k].count <= limit + 1
  {
    if calls != [] {
      WindowHoldsLimit(limit, windowMs, calls[..|calls| - 1]);
    }
  }

  /** What is known of failures recorded since `then_`, while less than a window has passed. */
  ghost predicate RecordedInv(limit: nat, windowMs: nat, m: Windows, key: Key, recorded: nat, then_: nat) {
    if key !in m then recorded == 0
    else
      m[key].count <= limit + 1
      && (recorded <= m[key].count
          || (m[key].resetAt >= then_ + windowMs && recorded <= limit + 1 + m[key].count))
  }

  lemma RecordedStep(limit: nat, windowMs: nat, m: Windows, key: Key, recorded: nat, then_: nat, call: Call)
    requires RecordedInv(limit, windowMs, m, key, recorded, then_)
    requires then_ <= call.now < then_ + windowMs
    ensures var (m', yes) := Attempted(limit, windowMs, m, call);
            RecordedInv(limit, windowMs, m', key, recorded + (if call.key == key && yes then 1 else 0), then_)
  {}

  lemma {:induction false} RecordedSince(limit: nat, windowMs: nat, calls: seq<Call>, key: Key, from: nat)
    requires windowMs > 0 && Ordered(calls) && from < |calls|
    requires calls[|calls| - 1].now < calls[from].now + windowMs
    ensures RecordedInv(limit, windowMs, AttemptsAfter(limit, windowMs, calls), key,
                        Recorded(limit, windowMs, calls, key, from), calls[from].now)
    decreases |calls|
  {
    var init, last := calls[..|calls| - 1], calls[|calls| - 1];
    if from < |init| {
      RecordedSince(limit, windowMs, init, key, from);
    } else {
      WindowHoldsLimit(limit, windowMs, init);
      assert Recorded(limit, windowMs, init, key, from) == 0;
    }
    RecordedStep(limit, windowMs, AttemptsAfter(limit, windowMs, init), key,
                 Recorded(limit, windowMs, init, key, from), calls[from].now, last);
  }

  /** Any stretch shorter than a window records at most two windows' worth of failures for a key. */
  lemma FailuresBounded(limit: nat, windowMs: nat, calls: seq<Call>, key: Key, from: nat)
    requires windowMs > 0 && Ordered(calls) && from < |calls|
    requires calls[|calls| - 1].now < calls[from].now + windowMs
    ensures Recorded(limit, windowMs, calls, key, from) <= 2 * (limit + 1)
  {
    RecordedSince(limit, windowMs, calls, key, from);
  }

  // --- debouncer -----------------------------------------------------------------

  type Seen = map<Key, nat>

  /** One call without pruning. */
  function Debounced(windowMs: nat, m: Seen, call: Call): (Seen, bool) {
    if call.key in m && call.now - m[call.key] < windowMs then (m, false)
    else (m[call.key := call.now], true)
  }

  function PrunedSeen(windowMs: nat, m: Seen, now: nat): Seen {
    map k | k in m && now - m[k] <= windowMs :: m[k]
  }

  const SEEN_PRUNE_ABOVE: nat := 1000

  class Debouncer {
    const windowMs: nat
    var lastSeen: Seen

    constructor (windowMs: nat)
      ensures this.windowMs == windowMs && lastSeen == map[]
    {
      this.windowMs, lastSeen := windowMs, map[];
    }

    method Call(key: Key, now: nat) returns (first: bool)
      modifies this
      ensures var (m, yes) := Debounced(windowMs, old(lastSeen), RateLimit.Call.Call(key, now));
              first == yes
              && lastSeen == if yes && |m| > SEEN_PRUNE_ABOVE then PrunedSeen(windowMs, m, now) else m
    {
      if key in lastSeen && now - lastSeen[key] < windowMs {
        return false;
      }
      lastSeen := lastSeen[key := now];
      if |lastSeen| > SEEN_PRUNE_ABOVE {
        lastSeen := PrunedSeen(windowMs, lastSeen, now);
      }
      return true;
    }
  }

  function SeenAfter(windowMs: nat, calls: seq<Call>): Seen {
    if calls == [] then map[] else Debounced(windowMs, SeenAfter(windowMs, calls[..|calls| - 1]), calls[|calls| - 1]).0
  }

  /** The answers of the unpruned debouncer, call by call. */
  function Answers(windowMs: nat, calls: seq<Call>): (r: seq<bool>)
    ensures |r| == |calls|
  {
    if calls == [] then []
    else
      var init, last := calls[..|calls| - 1], calls[|calls| - 1];
      Answers(windowMs, init) + [Debounced(windowMs, SeenAfter(windowMs, init), last).1]
  }

  /** The same run when the calls numbered in `prunes` end with a cleanup. */
  function PrunedSeenAfter(windowMs: nat, calls: seq<Call>, prunes: set<nat>): Seen {
    if calls == [] then map[]
    else
      var m := Debounced(windowMs, PrunedSeenAfter(windowMs, calls[..|calls| - 1], prunes), calls[|calls| - 1]).0;
      if |calls| in prunes then PrunedSeen(windowMs, m, calls[|calls| - 1].now) else m
  }

  ghost predicate SameSeen(windowMs: nat, pruned: Seen, full: Seen, now: nat) {
    && (forall k :: k in pruned ==> k in full && pruned[k] == full[k])
    && (forall k :: k in full ==> full[k] <= now)
    && (forall k :: k in full && k !in pruned ==> now - full[k] > windowMs)
  }

  lemma {:induction false} SameSeenRun(windowMs: nat, calls: seq<Call>, prunes: set<nat>, now: nat)
    requires Ordered(calls) && NotBefore(calls, now)
    ensures SameSeen(windowMs, PrunedSeenAfter(windowMs, calls, prunes), SeenAfter(windowMs, calls), now)
  {
    if calls != [] {
      SameSeenRun(windowMs, calls[..|calls| - 1], prunes, calls[|calls| - 1].now);
    }
  }

  /** Cleanup, whenever it happens, never changes an answer. */
  lemma SeenPruningInvisible(windowMs: nat, calls: seq<Call>, prunes: set<nat>)
    requires Ordered(calls) && calls != []
    ensures Debounced(windowMs, PrunedSeenAfter(windowMs, calls[..|calls| - 1], prunes), calls[|calls| - 1]).1
         == Answers(windowMs, calls)[|calls| - 1]
  {
    SameSeenRun(windowMs, calls[..|calls| - 1], prunes, calls[|calls| - 1].now);
  }

  ghost predicate AcceptedAt(calls: seq<Call>, answers: seq<bool>, i: nat, key: Key, t: nat)
    requires |answers| == |calls|
  {
    i < |calls| && answers[i] && calls[i].key == key && calls[i].now == t
  }

  /** The map holds, for each key, the time of its latest accepted call. */
  ghost predicate HoldsLatest(calls: seq<Call>, answers: seq<bool>, m: Seen)
    requires |answers| == |calls|
  {
    && (forall i :: 0 <= i < |calls| && answers[i] ==> calls[i].key in m && calls[i].now <= m[calls[i].key])
    && (forall k :: k in m ==> exists i: nat :: AcceptedAt(calls, answers, i, k, m[k]))
  }

  lemma {:induction false} SeenIsLatest(windowMs: nat, calls: seq<Call>)
    requires Ordered(calls)
    ensures HoldsLatest(calls, Answers(windowMs, calls), SeenAfter(windowMs, calls))
  {
    if calls != [] {
      var init, last := calls[..|calls| - 1], calls[|calls| - 1];
      assert init + [last] == calls;
      SeenIsLatest(windowMs, init);
      SeenStep(windowMs, init, Answers(windowMs, init), SeenAfter(windowMs, init), last);
    }
  }

  lemma SeenStep(windowMs: nat, calls: seq<Call>, answers: seq<bool>, m: Seen, last: Call)
    requires |answers| == |calls| && HoldsLatest(calls, answers, m) && NotBefore(calls, last.now)
    ensures var (m', yes) := Debounced(windowMs, m, last);
            HoldsLatest(calls + [last], answers + [yes], m')
  {
    var (m', yes) := Debounced(windowMs, m, last);
    forall k | k in m'
      ensures exists i: nat :: AcceptedAt(calls + [last], answers + [yes], i, k, m'[k])
    {
      if k == last.key && yes {
        assert AcceptedAt(calls + [last], answers + [yes], |calls|, k, m'[k]);
      } else {
        var i: nat :| AcceptedAt(calls, answers, i, k, m[k]);
        assert AcceptedAt(calls + [last], answers + [yes], i, k, m'[k]);
      }
    }
  }

  /** A call passes exactly when no call of its key has passed less than a window before it. */
  lemma AcceptedExactly(windowMs: nat, calls: seq<Call>)
    requires Ordered(calls) && calls != []
    ensures var n, answers := |calls| - 1, Answers(windowMs, calls);
            answers[n]
            <==> forall i :: 0 <= i < n && answers[i] && calls[i].key == calls[n].key
                             ==> calls[n].now - calls[i].now >= windowMs
  {
    var n := |calls| - 1;
    var init, last := calls[..n], calls[n];
    var answers, m := Answers(windowMs, init), SeenAfter(windowMs, init);
    SeenIsLatest(windowMs, init);
    if last.key in m {
      var i: nat :| AcceptedAt(init, answers, i, last.key, m[last.key]);
      assert Answers(windowMs, calls)[i] && calls[i].key == last.key;
    }
  }
}
