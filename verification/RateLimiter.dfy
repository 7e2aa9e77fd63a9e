/** The fixed-window limiter: a hit counter with an expiry and a lockout key with an
    expiry, updated by one atomic script per call. Times are in milliseconds; a key with
    expiry `e` exists at `t` exactly when `t < e`. */
module RateLimiter {
  import opened Prelude

  /** The counter key; a counter written by anyone else may lack an expiry. */
  datatype Hits = Hits(count: nat, expiresAt: Option<int>)

  datatype State = State(hits: Option<Hits>, block: Option<int>)

  datatype Config = Config(ttl: int, limit: nat, blockDuration: int)

  datatype Reply = Reply(totalHits: nat, timeToExpire: nat, isBlocked: bool, timeToBlockExpire: nat)

  predicate Sane(c: Config) {
    c.ttl > 0
  }

  function CeilSeconds(ms: int): nat {
    if ms <= 0 then 0 else (ms + 999) / 1000
  }

  predicate LockedOut(s: State, t: int) {
    s.block.Some? && t < s.block.value
  }

  predicate Counting(s: State, t: int) {
    s.hits.Some? && (s.hits.value.expiresAt.None? || t < s.hits.value.expiresAt.value)
  }

  /** The counter after INCR and the expiries the script sets. */
  function Bump(s: State, t: int, c: Config): Hits {
    var total := if Counting(s, t) then s.hits.value.count + 1 else 1;
    var expiry := if total == 1 then Some(t + c.ttl) else s.hits.value.expiresAt;
    Hits(total, if expiry.None? then Some(t + c.ttl) else expiry)
  }

  function Increment(s: State, t: int, c: Config): (State, Reply) {
    if LockedOut(s, t) then
      var wait := CeilSeconds(s.block.value - t);
      (s, Reply(c.limit + 1, wait, true, wait))
    else
      var hits := Bump(s, t, c);
      var timeToExpire := CeilSeconds(hits.expiresAt.value - t);
      if hits.count > c.limit then
        var lock := c.blockDuration > 0;
        (State(Some(hits), if lock then Some(t + c.blockDuration) else s.block),
         Reply(hits.count, timeToExpire, true, if lock then CeilSeconds(c.blockDuration) else timeToExpire))
      else
        (State(Some(hits), s.block), Reply(hits.count, timeToExpire, false, 0))
  }

  /** The script, command by command. */
  class Throttle {
    var hits: Option<Hits>
    var block: Option<int>

    constructor ()
      ensures hits.None? && block.None?
    {
      hits, block := None, None;
    }

    method RunScript(now: int, ttl: int, limit: nat, blockDuration: int) returns (reply: Reply)
      modifies this
      ensures var (s, r) := Increment(old(State(hits, block)), now, Config(ttl, limit, blockDuration));
              State(hits, block) == s && reply == r
      ensures old(block.Some? && now < block.value) ==>
        && hits == old(hits) && block == old(block)
        && reply.isBlocked && reply.totalHits == limit + 1 && reply.timeToExpire == reply.timeToBlockExpire
        && old(block.value) - now <= 1000 * reply.timeToBlockExpire < old(block.value) - now + 1000
    {
      CeilFacts(if block.Some? then block.value - now else 0);
      var blockTtl := if block.Some? && now < block.value then block.value - now else -2;
      if blockTtl > 0 {
        var blockSec := CeilSeconds(blockTtl);
        return Reply(limit + 1, blockSec, true, blockSec);
      }
      if hits.Some? && hits.value.expiresAt.Some? && hits.value.expiresAt.value <= now {
        hits := None;
      }
      hits := Some(if hits.Some? then hits.value.(count := hits.value.count + 1) else Hits(1, None));
      var totalHits := hits.value.count;
      if totalHits == 1 {
        hits := Some(Hits(totalHits, Some(now + ttl)));
      }
      var pttlHits := if hits.value.expiresAt.Some? then hits.value.expiresAt.value - now else -1;
      if hits.value.expiresAt.None? {
        hits := Some(Hits(totalHits, Some(now + ttl)));
        pttlHits := ttl;
      }
      var timeToExpire := CeilSeconds(pttlHits);
      if totalHits > limit {
        var timeToBlockExpire := timeToExpire;
        if blockDuration > 0 {
          block := Some(now + blockDuration);
          timeToBlockExpire := CeilSeconds(blockDuration);
        }
        return Reply(totalHits, timeToExpire, true, timeToBlockExpire);
      }
      return Reply(totalHits, timeToExpire, false, 0);
    }
  }

  // ---- Traces of calls ----

  ghost predicate InOrder(calls: seq<int>) {
    forall i, j :: 0 <= i <= j < |calls| ==> calls[i] <= calls[j]
  }

  ghost predicate AllFrom(calls: seq<int>, t: int) {
    forall i :: 0 <= i < |calls| ==> t <= calls[i]
  }

  function After(s: State, calls: seq<int>, c: Config): State
    decreases |calls|
  {
    if calls == [] then s else After(Increment(s, calls[0], c).0, calls[1..], c)
  }

  /** How many of the calls made in [from, to) are allowed. */
  function Allowed(s: State, calls: seq<int>, c: Config, from: int, to: int): nat
    decreases |calls|
  {
    if calls == [] then 0
    else
      var (s', reply) := Increment(s, calls[0], c);
      (if !reply.isBlocked && from <= calls[0] < to then 1 else 0) + Allowed(s', calls[1..], c, from, to)
  }

  /** The script always leaves a positive counter with an expiry. */
  predicate HasExpiry(s: State) {
    s.hits.Some? ==> s.hits.value.expiresAt.Some? && s.hits.value.count > 0
  }

  lemma {:induction false} NoneLater(s: State, calls: seq<int>, c: Config, from: int, to: int)
    requires AllFrom(calls, to)
    ensures Allowed(s, calls, c, from, to) == 0
    decreases |calls|
  {
    if calls != [] {
      NoneLater(Increment(s, calls[0], c).0, calls[1..], c, from, to);
    }
  }

  lemma Times(a: int, b: int, j: int)
    ensures a * (j + 1) == a * j + a && b * (j + 1) == b * j + b
  {
  }

  /** From a state whose window ends at `e`, the calls before `e + j * ttl` get what is
      left of this window and at most `limit` for each of the next `j`. */
  lemma {:induction false} CapFromWindow(s: State, calls: seq<int>, c: Config, from: int, to: int, j: nat)
    requires Sane(c) && InOrder(calls)
    requires HasExpiry(s) && s.hits.Some? && to <= s.hits.value.expiresAt.value + c.ttl * j
    ensures Allowed(s, calls, c, from, to) <= Max(0, c.limit - s.hits.value.count) + c.limit * j
    decreases |calls|
  {
    if calls != [] {
      var t := calls[0];
      var (s', reply) := Increment(s, t, c);
      if t >= to {
        NoneLater(s, calls, c, from, to);
      } else if LockedOut(s, t) || Counting(s, t) {
        CapFromWindow(s', calls[1..], c, from, to, j);
      } else {
        assert j > 0;
        Times(c.ttl, c.limit, j - 1);
        CapFromWindow(s', calls[1..], c, from, to, j - 1);
      }
    }
  }

  /** Calls all made from `from` on; `to` and `cap` stand for k windows and k limits. */
  lemma {:induction false} CapFromStart(s: State, calls: seq<int>, c: Config, from: int, k: nat, to: int, cap: int)
    requires Sane(c) && InOrder(calls) && HasExpiry(s) && AllFrom(calls, from)
    requires to == from + c.ttl * k && cap == c.limit * k
    ensures Allowed(s, calls, c, from, to) <= cap + c.limit
    decreases |calls|
  {
    if calls != [] {
      var t := calls[0];
      if t >= to {
        CapIsNatural(c, k);
        NoneLater(s, calls, c, from, to);
      } else if LockedOut(s, t) {
        CapFromStart(Increment(s, t, c).0, calls[1..], c, from, k, to, cap);
      } else if Counting(s, t) {
        CapFromWindow(s, calls, c, from, to, k);
      } else {
        CapWhenOpening(s, calls, c, from, k, to, cap);
      }
    } else {
      CapIsNatural(c, k);
    }
  }

  lemma CapIsNatural(c: Config, k: nat)
    ensures c.limit * k >= 0
  {
  }

  /** The first call opens a window at or after `from`, so k - 1 further windows reach `to`. */
  lemma CapWhenOpening(s: State, calls: seq<int>, c: Config, from: int, k: nat, to: int, cap: int)
    requires Sane(c) && InOrder(calls) && HasExpiry(s) && AllFrom(calls, from) && calls != []
    requires to == from + c.ttl * k && cap == c.limit * k && calls[0] < to
    requires !LockedOut(s, calls[0]) && !Counting(s, calls[0])
    ensures Allowed(s, calls, c, from, to) <= cap + c.limit
  {
    assert k > 0;
    Times(c.ttl, c.limit, k - 1);
    var s' := Increment(s, calls[0], c).0;
    CapFromWindow(s', calls[1..], c, from, to, k - 1);
  }

  /** For a constant ttl and limit, any half-open interval of k windows' length contains at
      most (k + 1) * limit allowed calls, whatever was called before and whenever. */
  lemma {:induction false} AllowedIsBounded(s: State, calls: seq<int>, c: Config, from: int, k: nat)
    requires Sane(c) && InOrder(calls) && HasExpiry(s)
    ensures Allowed(s, calls, c, from, from + c.ttl * k) <= c.limit * (k + 1)
    decreases |calls|
  {
    if calls != [] {
      if calls[0] < from {
        AllowedIsBounded(Increment(s, calls[0], c).0, calls[1..], c, from, k);
      } else {
        CapFromStart(s, calls, c, from, k, from + c.ttl * k, c.limit * k);
        assert c.limit * (k + 1) == c.limit * k + c.limit;
      }
    }
  }

  // ---- Refusals ----

  /** What holds of every state reached under one configuration: the window started at or
      before `t`, and a lockout is from the current overfull window or older than it. */
  ghost predicate Reached(s: State, t: int, c: Config) {
    && HasExpiry(s)
    && (s.hits.Some? ==> s.hits.value.expiresAt.value - c.ttl <= t)
    && (s.block.Some? ==> s.hits.Some? && (s.hits.value.count > c.limit || s.block.value <= s.hits.value.expiresAt.value - c.ttl))
  }

  lemma IncrementReaches(s: State, t: int, t': int, c: Config)
    requires Sane(c) && Reached(s, t, c) && t <= t'
    ensures Reached(Increment(s, t', c).0, t', c)
  {
  }

  lemma {:induction false} TraceReaches(s: State, t: int, calls: seq<int>, c: Config)
    requires Sane(c) && Reached(s, t, c) && InOrder(calls) && AllFrom(calls, t)
    ensures Reached(After(s, calls, c), if calls == [] then t else calls[|calls| - 1], c)
    decreases |calls|
  {
    if calls != [] {
      IncrementReaches(s, t, calls[0], c);
      TraceReaches(Increment(s, calls[0], c).0, calls[0], calls[1..], c);
    }
  }

  function WindowEnd(s: State, t: int): int {
    if s.hits.Some? && s.hits.value.expiresAt.Some? then s.hits.value.expiresAt.value else t
  }

  function LockoutEnd(s: State, t: int): int {
    if s.block.Some? then s.block.value else t
  }

  /** Overfull: no call can be allowed before `until`. */
  ghost predicate Shut(s: State, until: int, c: Config) {
    && s.hits.Some? && s.hits.value.expiresAt.Some? && s.hits.value.count > c.limit
    && until <= Max(s.hits.value.expiresAt.value, LockoutEnd(s, s.hits.value.expiresAt.value))
  }

  lemma {:induction false} ShutAllowsNothing(s: State, calls: seq<int>, c: Config, until: int, from: int)
    requires Sane(c) && InOrder(calls) && Shut(s, until, c)
    ensures Allowed(s, calls, c, from, until) == 0
    decreases |calls|
  {
    if calls != [] {
      if calls[0] >= until {
        NoneLater(s, calls, c, from, until);
      } else {
        ShutAllowsNothing(Increment(s, calls[0], c).0, calls[1..], c, until, from);
      }
    }
  }

  /** Once a call is refused, none is allowed before both the window and the lockout end. */
  lemma RefusedStaysRefused(s: State, t: int, calls: seq<int>, c: Config)
    requires Sane(c) && Reached(s, t, c) && InOrder(calls) && AllFrom(calls, t)
    requires Increment(s, t, c).1.isBlocked
    ensures var s' := Increment(s, t, c).0;
            Allowed(s', calls, c, t, Max(WindowEnd(s', t), LockoutEnd(s', t))) == 0
  {
    var s' := Increment(s, t, c).0;
    IncrementReaches(s, t, t, c);
    ShutAllowsNothing(s', calls, c, Max(WindowEnd(s', t), LockoutEnd(s', t)), t);
  }

  /** A refused call leaves the end of the window where it is, unless it opens the window
      itself, which only a limit of zero allows. */
  lemma RefusedKeepsWindow(s: State, t: int, c: Config)
    requires Sane(c) && HasExpiry(s) && Increment(s, t, c).1.isBlocked
    ensures WindowEnd(Increment(s, t, c).0, t) == WindowEnd(s, t)
            <==> c.limit > 0 || LockedOut(s, t) || Counting(s, t)
  {
  }

  // ---- One window ----

  /** The calls are in order and within one window of the first. */
  ghost predicate InOneWindow(calls: seq<int>, c: Config) {
    InOrder(calls) && forall i :: 0 <= i < |calls| ==> calls[i] < calls[0] + c.ttl
  }

  /** Below the limit every call is counted, the window stays and nothing is locked. */
  lemma {:induction false} CountsUp(calls: seq<int>, c: Config, k: nat, e: int)
    requires Sane(c) && k + |calls| <= c.limit && 0 < k && forall i :: 0 <= i < |calls| ==> calls[i] < e
    ensures After(State(Some(Hits(k, Some(e))), None), calls, c) == State(Some(Hits(k + |calls|, Some(e))), None)
    decreases |calls|
  {
    if calls != [] {
      CountsUp(calls[1..], c, k + 1, e);
    }
  }

  lemma {:induction false} AllowsTheRest(calls: seq<int>, c: Config, k: nat, e: int, from: int)
    requires Sane(c) && 0 < k <= c.limit && InOrder(calls) && forall i :: 0 <= i < |calls| ==> from <= calls[i] < e
    ensures Allowed(State(Some(Hits(k, Some(e))), None), calls, c, from, e) == Min(c.limit - k, |calls|)
    decreases |calls|
  {
    if calls != [] {
      var s' := Increment(State(Some(Hits(k, Some(e))), None), calls[0], c).0;
      if k < c.limit {
        AllowsTheRest(calls[1..], c, k + 1, e, from);
      } else {
        ShutAllowsNothing(s', calls[1..], c, e, from);
      }
    }
  }

  /** Of calls made within one window from an empty state exactly the first `limit` are allowed. */
  lemma WindowAllowsExactly(calls: seq<int>, c: Config)
    requires Sane(c) && calls != [] && InOneWindow(calls, c)
    ensures Allowed(State(None, None), calls, c, calls[0], calls[0] + c.ttl) == Min(c.limit, |calls|)
  {
    var e := calls[0] + c.ttl;
    var s' := Increment(State(None, None), calls[0], c).0;
    assert InOrder(calls[1..]);
    if c.limit == 0 {
      ShutAllowsNothing(s', calls[1..], c, e, calls[0]);
    } else {
      AllowsTheRest(calls[1..], c, 1, e, calls[0]);
    }
  }

  lemma WindowCounts(calls: seq<int>, c: Config)
    requires Sane(c) && calls != [] && InOneWindow(calls, c) && |calls| <= c.limit
    ensures After(State(None, None), calls, c) == State(Some(Hits(|calls|, Some(calls[0] + c.ttl))), None)
  {
    assert Increment(State(None, None), calls[0], c).0 == State(Some(Hits(1, Some(calls[0] + c.ttl))), None);
    CountsUp(calls[1..], c, 1, calls[0] + c.ttl);
  }

  lemma NextReply(k: nat, e: int, t: int, c: Config)
    requires Sane(c) && 0 < k <= c.limit && t < e
    ensures Increment(State(Some(Hits(k, Some(e))), None), t, c).1
         == Reply(k + 1, CeilSeconds(e - t), k == c.limit,
                  if k < c.limit then 0 else if c.blockDuration > 0 then CeilSeconds(c.blockDuration) else CeilSeconds(e - t))
  {
  }

  /** The whole reply to a call of the window, as long as no earlier one was refused: its
      number, the seconds left of the window, and, past the limit, the time it is shut out. */
  lemma WindowReplies(calls: seq<int>, t: int, c: Config)
    requires Sane(c) && InOneWindow(calls + [t], c) && |calls| <= c.limit
    ensures var left := CeilSeconds((calls + [t])[0] + c.ttl - t);
            Increment(After(State(None, None), calls, c), t, c).1
            == Reply(|calls| + 1, left, |calls| == c.limit,
                     if |calls| < c.limit then 0 else if c.blockDuration > 0 then CeilSeconds(c.blockDuration) else left)
  {
    var all := calls + [t];
    assert all[|calls|] == t;
    if calls != [] {
      assert forall i :: 0 <= i < |calls| ==> all[i] == calls[i];
      WindowCounts(calls, c);
      NextReply(|calls|, calls[0] + c.ttl, t, c);
    }
  }

  // ---- The returned waits ----

  lemma CeilFacts(ms: int)
    ensures ms <= 1000 * CeilSeconds(ms)
    ensures ms >= 0 ==> 1000 * CeilSeconds(ms) < ms + 1000
  {
  }

  /** The longer of the two waits a refusal returns. */
  function WaitFor(r: Reply): nat {
    if r.timeToExpire < r.timeToBlockExpire then r.timeToBlockExpire else r.timeToExpire
  }

  /** Waiting it out, with nobody else calling, gets the next call through exactly when the
      window is over by then; only a refusal by the lockout key can return less. */
  lemma WaitIsEnoughExactly(s: State, t: int, c: Config)
    requires Sane(c) && c.limit > 0 && Reached(s, t, c) && Increment(s, t, c).1.isBlocked
    ensures var (s', r) := Increment(s, t, c);
            var again := t + 1000 * WaitFor(r);
            && (!Increment(s', again, c).1.isBlocked <==> WindowEnd(s', t) <= again)
            && (!LockedOut(s, t) ==> !Increment(s', again, c).1.isBlocked)
            && again < Max(WindowEnd(s', t), LockoutEnd(s', t)) + 1000
  {
    var (s', r) := Increment(s, t, c);
    if LockedOut(s, t) {
      CeilFacts(s.block.value - t);
    } else {
      CeilFacts(Bump(s, t, c).expiresAt.value - t);
      CeilFacts(c.blockDuration);
    }
  }

  /** The lockout outlives the window it came from, or is older than the window. */
  ghost predicate Covered(s: State, c: Config) {
    s.block.Some? ==> s.hits.Some? && s.hits.value.expiresAt.Some?
                      && (s.hits.value.expiresAt.value <= s.block.value || s.block.value <= s.hits.value.expiresAt.value - c.ttl)
  }

  lemma LongLockoutCovers(s: State, t: int, t': int, c: Config)
    requires Sane(c) && c.blockDuration >= c.ttl && Reached(s, t, c) && Covered(s, c) && t <= t'
    ensures Covered(Increment(s, t', c).0, c)
  {
  }

  lemma {:induction false} TraceIsCovered(s: State, t: int, calls: seq<int>, c: Config)
    requires Sane(c) && c.blockDuration >= c.ttl && Reached(s, t, c) && Covered(s, c) && InOrder(calls) && AllFrom(calls, t)
    ensures Covered(After(s, calls, c), c)
    decreases |calls|
  {
    if calls != [] {
      IncrementReaches(s, t, calls[0], c);
      LongLockoutCovers(s, t, calls[0], c);
      TraceIsCovered(Increment(s, calls[0], c).0, calls[0], calls[1..], c);
    }
  }

  const EMPTY := State(None, None)

  /** If the call at `t`, made after `calls`, is refused, the wait it returns is enough. */
  predicate WaitIsEnough(calls: seq<int>, t: int, c: Config) {
    var (s', r) := Increment(After(EMPTY, calls, c), t, c);
    r.isBlocked ==> !Increment(s', t + 1000 * WaitFor(r), c).1.isBlocked
  }

  ghost predicate EveryWaitIsEnough(c: Config) {
    forall calls, t :: InOrder(calls + [t]) ==> WaitIsEnough(calls, t, c)
  }

  lemma TraceIsReached(calls: seq<int>, t: int, c: Config)
    requires Sane(c) && InOrder(calls + [t])
    ensures Reached(After(EMPTY, calls, c), t, c)
  {
    var all := calls + [t];
    forall i, j | 0 <= i <= j < |calls| ensures calls[i] <= calls[j] {
      assert all[i] <= all[j];
    }
    assert calls != [] ==> all[|calls| - 1] <= all[|calls|];
    TraceReaches(EMPTY, all[0], calls, c);
  }

  lemma {:induction false} NeverLocked(s: State, calls: seq<int>, c: Config)
    requires c.blockDuration <= 0 && s.block.None?
    ensures After(s, calls, c).block.None?
    decreases |calls|
  {
    if calls != [] {
      NeverLocked(Increment(s, calls[0], c).0, calls[1..], c);
    }
  }

  lemma LongLockoutIsEnough(calls: seq<int>, t: int, c: Config)
    requires Sane(c) && c.limit > 0 && c.blockDuration >= c.ttl && InOrder(calls + [t])
    ensures WaitIsEnough(calls, t, c)
  {
    var s, all := After(EMPTY, calls, c), calls + [t];
    TraceIsReached(calls, t, c);
    forall i, j | 0 <= i <= j < |calls| ensures all[0] <= calls[i] <= calls[j] {
      assert all[0] <= all[i] <= all[j];
    }
    TraceIsCovered(EMPTY, all[0], calls, c);
    if Increment(s, t, c).1.isBlocked {
      WaitIsEnoughExactly(s, t, c);
      if LockedOut(s, t) {
        CeilFacts(s.block.value - t);
      }
    }
  }

  /** A refusal by the lockout returns at least a second, which outlasts a short window. */
  lemma ShortWindowIsEnough(calls: seq<int>, t: int, c: Config)
    requires Sane(c) && c.limit > 0 && c.ttl <= 1000 && InOrder(calls + [t])
    ensures WaitIsEnough(calls, t, c)
  {
    var s := After(EMPTY, calls, c);
    TraceIsReached(calls, t, c);
    if Increment(s, t, c).1.isBlocked {
      WaitIsEnoughExactly(s, t, c);
    }
  }

  lemma NoLockoutIsEnough(calls: seq<int>, t: int, c: Config)
    requires Sane(c) && c.limit > 0 && c.blockDuration <= 0 && InOrder(calls + [t])
    ensures WaitIsEnough(calls, t, c)
  {
    TraceIsReached(calls, t, c);
    NeverLocked(EMPTY, calls, c);
    if Increment(After(EMPTY, calls, c), t, c).1.isBlocked {
      WaitIsEnoughExactly(After(EMPTY, calls, c), t, c);
    }
  }

  // ---- Where a wait is too short ----

  function Zeros(n: nat): (calls: seq<int>)
    ensures |calls| == n && forall i :: 0 <= i < n ==> calls[i] == 0
  {
    seq(n, _ => 0)
  }

  /** Calls at 0 until the limit is exceeded: the last of them sets the lockout. */
  lemma {:induction false} Fill(k: nat, n: nat, c: Config)
    requires Sane(c) && c.blockDuration > 0 && 0 < k && 0 < n && k + n == c.limit + 1
    ensures After(State(Some(Hits(k, Some(c.ttl))), None), Zeros(n), c)
         == State(Some(Hits(c.limit + 1, Some(c.ttl))), Some(c.blockDuration))
    decreases n
  {
    var s := State(Some(Hits(k, Some(c.ttl))), None);
    assert Zeros(n)[1..] == Zeros(n - 1);
    var s' := Increment(s, 0, c).0;
    if n > 1 {
      assert s' == State(Some(Hits(k + 1, Some(c.ttl))), None);
      Fill(k + 1, n - 1, c);
    } else {
      assert s' == State(Some(Hits(c.limit + 1, Some(c.ttl))), Some(c.blockDuration));
    }
  }

  lemma FilledFromEmpty(c: Config)
    requires Sane(c) && c.limit > 0 && c.blockDuration > 0
    ensures After(EMPTY, Zeros(c.limit + 1), c) == State(Some(Hits(c.limit + 1, Some(c.ttl))), Some(c.blockDuration))
  {
    assert Zeros(c.limit + 1)[1..] == Zeros(c.limit);
    assert Increment(EMPTY, 0, c).0 == State(Some(Hits(1, Some(c.ttl))), None);
    Fill(1, c.limit, c);
  }

  /** Fill the window at 0 and call again when a whole number of seconds of the lockout is
      left, or at once if it is under a second: the wait ends with the lockout or after a
      second, and the window is still overfull. */
  lemma ShortLockoutIsNotEnough(c: Config)
    requires Sane(c) && c.limit > 0 && c.blockDuration > 0 && c.ttl > Max(c.blockDuration, 1000)
    ensures var t := if c.blockDuration < 1000 then 0 else c.blockDuration % 1000;
            InOrder(Zeros(c.limit + 1) + [t]) && !WaitIsEnough(Zeros(c.limit + 1), t, c)
  {
    var b := c.blockDuration;
    var t := if b < 1000 then 0 else b % 1000;
    var s := State(Some(Hits(c.limit + 1, Some(c.ttl))), Some(b));
    FilledFromEmpty(c);
    WholeSecondsLeft(b);
    assert LockedOut(s, t) && Increment(s, t, c) == (s, Reply(c.limit + 1, CeilSeconds(b - t), true, CeilSeconds(b - t)));
    var again := t + 1000 * CeilSeconds(b - t);
    assert again == Max(b, 1000);
  }

  lemma WholeSecondsLeft(b: int)
    requires b > 0
    ensures var t := if b < 1000 then 0 else b % 1000;
            0 <= t < b && t + 1000 * CeilSeconds(b - t) == Max(b, 1000)
  {
    if b >= 1000 {
      assert b == 1000 * (b / 1000) + b % 1000;
      assert (1000 * (b / 1000) + 999) / 1000 == b / 1000;
    }
  }

  lemma ZeroLimitIsNotEnough(c: Config)
    requires Sane(c) && c.limit == 0
    ensures InOrder([] + [0]) && !WaitIsEnough([], 0, c)
  {
  }

  /** Every wait returned in every trace of calls is enough exactly when the limit is
      positive and there is no lockout, or the window is no longer than the lockout or than
      a second. */
  lemma EveryWaitIsEnoughExactly(c: Config)
    requires Sane(c)
    ensures EveryWaitIsEnough(c)
            <==> c.limit > 0 && (c.blockDuration <= 0 || c.ttl <= Max(c.blockDuration, 1000))
  {
    if c.limit == 0 {
      ZeroLimitIsNotEnough(c);
    } else if c.blockDuration > 0 && c.ttl > Max(c.blockDuration, 1000) {
      ShortLockoutIsNotEnough(c);
    } else {
      forall calls, t | InOrder(calls + [t]) ensures WaitIsEnough(calls, t, c) {
        if c.blockDuration <= 0 {
          NoLockoutIsEnough(calls, t, c);
        } else if c.ttl <= c.blockDuration {
          LongLockoutIsEnough(calls, t, c);
        } else {
          ShortWindowIsEnough(calls, t, c);
        }
      }
    }
  }
}
