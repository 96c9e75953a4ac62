/** The token bucket that guards ThingsCloud telemetry (main/thingscloud/thingscloud_adapter.c)
    and the bounds it gives over whole histories. Times are milliseconds since boot. */
module RateLimiter {

  const BUCKET_TOKENS := 1
  const REFILL_MS := 30000
  const BLOCK_MS := 60000

  datatype Limiter = Limiter(tokens: int, lastMs: int, blockUntilMs: int, suspended: bool)

  function Refilled(s: Limiter, now: int): Limiter {
    if s.lastMs == 0 then s.(lastMs := now)
    else if now - s.lastMs < REFILL_MS then s
    else
      var add := (now - s.lastMs) / REFILL_MS;
      s.(tokens := if s.tokens + add > BUCKET_TOKENS then BUCKET_TOKENS else s.tokens + add,
         lastMs := s.lastMs + add * REFILL_MS)
  }

  function Allowed(s: Limiter, now: int): (r: (Limiter, bool)) {
    if s.suspended || now < s.blockUntilMs then (s, false)
    else
      var t := Refilled(s, now);
      if t.tokens > 0 then (t.(tokens := t.tokens - 1), true) else (t, false)
  }

  function AfterResponse(s: Limiter, errorCode: int, now: int): Limiter {
    if errorCode == 403 then s.(tokens := 0, blockUntilMs := now + BLOCK_MS)
    else if errorCode == 413 then s.(suspended := true)
    else s
  }

  class PublishGuard {
    var tokens: int
    var lastMs: int
    var blockUntilMs: int
    var suspended: bool

    ghost function Abs(): Limiter
      reads this
    {
      Limiter(tokens, lastMs, blockUntilMs, suspended)
    }

    constructor ()
      ensures Abs() == Limiter(BUCKET_TOKENS, 0, 0, false)
    {
      tokens, lastMs, blockUntilMs, suspended := BUCKET_TOKENS, 0, 0, false;
    }

    method Refill(now: int)
      modifies this
      ensures Abs() == Refilled(old(Abs()), now)
    {
      if lastMs == 0 {
        lastMs := now;
        return;
      }
      var elapsed := now - lastMs;
      if elapsed < REFILL_MS { return; }
      var add := elapsed / REFILL_MS;
      tokens := tokens + add;
      if tokens > BUCKET_TOKENS { tokens := BUCKET_TOKENS; }
      lastMs := lastMs + add * REFILL_MS;
    }

    method Allow(now: int) returns (granted: bool)
      modifies this
      ensures (Abs(), granted) == Allowed(old(Abs()), now)
    {
      if suspended || now < blockUntilMs { return false; }
      Refill(now);
      if tokens > 0 {
        tokens := tokens - 1;
        return true;
      }
      return false;
    }

    method RecordPublishResponse(errorCode: int, now: int)
      modifies this
      ensures Abs() == AfterResponse(old(Abs()), errorCode, now)
    {
      if errorCode == 403 {
        tokens := 0;
        blockUntilMs := now + BLOCK_MS;
      } else if errorCode == 413 {
        suspended := true;
      }
    }

    method ClearPublishGuard(now: int)
      modifies this
      ensures Abs() == Limiter(BUCKET_TOKENS, now, 0, false)
    {
      suspended, blockUntilMs, tokens, lastMs := false, 0, BUCKET_TOKENS, now;
    }

    method OnMqttConnected(now: int)
      modifies this
      ensures Abs() == old(Abs()).(tokens := BUCKET_TOKENS, lastMs := now)
    {
      tokens, lastMs := BUCKET_TOKENS, now;
    }
  }

  // ---- Histories ----

  datatype Event =
    | Attempt(now: int)
    | Response(errorCode: int, now: int)
    | Connected(now: int)
    | Cleared(now: int)

  function Step(s: Limiter, e: Event): Limiter {
    match e
    case Attempt(now) => Allowed(s, now).0
    case Response(code, now) => AfterResponse(s, code, now)
    case Connected(now) => s.(tokens := BUCKET_TOKENS, lastMs := now)
    case Cleared(now) => Limiter(BUCKET_TOKENS, now, 0, false)
  }

  /** The times at which a history grants a publish. */
  function Grants(s: Limiter, es: seq<Event>): seq<int>
    decreases es
  {
    if es == [] then []
    else
      (if es[0].Attempt? && Allowed(s, es[0].now).1 then [es[0].now] else []) + Grants(Step(s, es[0]), es[1..])
  }

  // The clock never runs backwards.
  ghost predicate Timed(from: int, es: seq<Event>)
    decreases es
  {
    es == [] || (from <= es[0].now && Timed(es[0].now, es[1..]))
  }

  // No reconnect and no guard reset.
  ghost predicate Undisturbed(es: seq<Event>) {
    forall e <- es :: e.Attempt? || e.Response?
  }

  lemma {:induction false} GrantsAreLate(s: Limiter, es: seq<Event>, from: int)
    requires Timed(from, es)
    ensures forall i :: 0 <= i < |Grants(s, es)| ==> from <= Grants(s, es)[i]
    decreases es
  {
    if es == [] {
    } else {
      GrantsAreLate(Step(s, es[0]), es[1..], es[0].now);
    }
  }

  // Whole multiples of the refill period only.
  lemma RefillPhase(s: Limiter, now: int)
    requires 0 <= s.lastMs <= now && s.tokens <= 0
    ensures s.lastMs <= Refilled(s, now).lastMs <= now
    ensures now < Refilled(s, now).lastMs + REFILL_MS
    ensures Refilled(s, now).tokens > 0 ==> Refilled(s, now).lastMs >= s.lastMs + REFILL_MS
    ensures Refilled(s, now).tokens <= BUCKET_TOKENS
  {}

  // With the bucket empty, the k-th grant needs k further refill periods.
  lemma {:induction false} EmptyBucket(s: Limiter, es: seq<Event>, from: int)
    requires 0 <= s.lastMs <= from && s.tokens <= 0
    requires Timed(from, es) && Undisturbed(es)
    ensures forall k :: 0 <= k < |Grants(s, es)| ==> Grants(s, es)[k] >= s.lastMs + (k + 1) * REFILL_MS
    decreases es
  {
    if es == [] {
    } else {
      var now := es[0].now;
      RefillPhase(s, now);
      var t := Step(s, es[0]);
      EmptyBucket(t, es[1..], now);
      var rest := Grants(t, es[1..]);
      forall k | 0 <= k < |Grants(s, es)|
        ensures Grants(s, es)[k] >= s.lastMs + (k + 1) * REFILL_MS
      {
        if es[0].Attempt? && Allowed(s, now).1 {
          if k > 0 { assert Grants(s, es)[k] == rest[k - 1]; }
        } else {
          assert Grants(s, es)[k] == rest[k];
        }
      }
    }
  }

  // A grant empties the bucket inside the current refill period.
  lemma StepKeeps(s: Limiter, e: Event)
    requires 0 <= s.lastMs <= e.now && s.tokens <= BUCKET_TOKENS
    requires e.Attempt? || e.Response?
    ensures 0 <= Step(s, e).lastMs <= e.now && Step(s, e).tokens <= BUCKET_TOKENS
    ensures e.Attempt? && Allowed(s, e.now).1 ==>
              Step(s, e).tokens <= 0 && e.now < Step(s, e).lastMs + REFILL_MS
  {}

  /** Two grants with j - i - 1 others between them are more than j - i - 1 refill
      periods apart. */
  lemma {:induction false} GrantSpacing(s: Limiter, es: seq<Event>, from: int, i: nat, j: nat)
    requires 0 <= s.lastMs <= from && s.tokens <= BUCKET_TOKENS
    requires Timed(from, es) && Undisturbed(es)
    requires i < j < |Grants(s, es)|
    ensures Grants(s, es)[j] - Grants(s, es)[i] > (j - i - 1) * REFILL_MS
    decreases es
  {
    var now := es[0].now;
    var t := Step(s, es[0]);
    var rest := Grants(t, es[1..]);
    StepKeeps(s, es[0]);
    if es[0].Attempt? && Allowed(s, now).1 {
      assert Grants(s, es) == [now] + rest;
      if i == 0 {
        EmptyBucket(t, es[1..], now);
        assert Grants(s, es)[j] == rest[j - 1];
      } else {
        GrantSpacing(t, es[1..], now, i - 1, j - 1);
      }
    } else {
      assert Grants(s, es) == rest;
      GrantSpacing(t, es[1..], now, i, j);
    }
  }

  // ---- The rate bound ----

  /** The times that fall into a closed window. */
  function Within(times: seq<int>, lo: int, hi: int): seq<int> {
    if times == [] then [] else (if lo <= times[0] <= hi then [times[0]] else []) + Within(times[1..], lo, hi)
  }

  predicate IsReset(e: Event) { e.Connected? || e.Cleared? }

  /** The reconnects and guard resets of a history that fall into a closed window. */
  function ResetsWithin(es: seq<Event>, lo: int, hi: int): nat
    decreases es
  {
    if es == [] then 0 else (if IsReset(es[0]) && lo <= es[0].now <= hi then 1 else 0) + ResetsWithin(es[1..], lo, hi)
  }

  function CeilDiv(a: nat, b: nat): nat
    requires b > 0
  {
    (a + b - 1) / b
  }

  // What the bucket can still grant up to `hi` without a reset.
  function Left(s: Limiter, hi: int): nat {
    (if s.tokens > 0 then s.tokens else 0) + (if s.lastMs <= hi then (hi - s.lastMs) / REFILL_MS else 0)
  }

  predicate Sane(s: Limiter, from: int) { 0 <= s.lastMs <= from && s.tokens <= BUCKET_TOKENS }

  lemma RefillKeepsLeft(s: Limiter, now: int, hi: int)
    requires Sane(s, now) && now <= hi
    ensures Sane(Refilled(s, now), now) && Left(Refilled(s, now), hi) <= Left(s, hi)
  {
    if s.lastMs != 0 && now - s.lastMs >= REFILL_MS {
      var add := (now - s.lastMs) / REFILL_MS;
      assert s.lastMs + add * REFILL_MS <= now;
      assert (hi - (s.lastMs + add * REFILL_MS)) / REFILL_MS == (hi - s.lastMs) / REFILL_MS - add;
    }
  }

  lemma StepSane(s: Limiter, e: Event, from: int)
    requires Sane(s, from) && from <= e.now
    ensures Sane(Step(s, e), e.now)
  {
    RefillKeepsLeft(s, e.now, e.now);
  }

  lemma StepLeft(s: Limiter, e: Event, hi: int)
    requires Sane(s, e.now) && e.now <= hi
    ensures Left(Step(s, e), hi) + (if e.Attempt? && Allowed(s, e.now).1 then 1 else 0)
            <= Left(s, hi) + (if IsReset(e) then 1 else 0)
  {
    RefillKeepsLeft(s, e.now, hi);
  }

  lemma {:induction false} NoneWithin(times: seq<int>, lo: int, hi: int)
    requires forall i :: 0 <= i < |times| ==> times[i] > hi
    ensures Within(times, lo, hi) == []
  {
    if times == [] {
    } else {
      NoneWithin(times[1..], lo, hi);
    }
  }

  lemma GrantsNext(s: Limiter, es: seq<Event>, lo: int, hi: int)
    requires es != []
    ensures var rest := Within(Grants(Step(s, es[0]), es[1..]), lo, hi);
            Within(Grants(s, es), lo, hi) ==
              if es[0].Attempt? && Allowed(s, es[0].now).1 && lo <= es[0].now <= hi then [es[0].now] + rest else rest
  {
    var rest := Grants(Step(s, es[0]), es[1..]);
    if es[0].Attempt? && Allowed(s, es[0].now).1 {
      assert Grants(s, es) == [es[0].now] + rest && Grants(s, es)[1..] == rest;
    } else {
      assert Grants(s, es) == rest;
    }
  }

  lemma {:induction false} GrantsLeft(s: Limiter, es: seq<Event>, from: int, lo: int, hi: int)
    requires Sane(s, from) && Timed(from, es) && lo <= from
    ensures |Within(Grants(s, es), lo, hi)| <= Left(s, hi) + ResetsWithin(es, lo, hi)
    decreases es
  {
    if es == [] {
    } else if es[0].now > hi {
      GrantsAreLate(s, es, es[0].now);
      NoneWithin(Grants(s, es), lo, hi);
    } else {
      StepSane(s, es[0], from);
      StepLeft(s, es[0], hi);
      GrantsLeft(Step(s, es[0]), es[1..], es[0].now, lo, hi);
      GrantsNext(s, es, lo, hi);
    }
  }

  // After a grant at `now` only whole periods are left.
  lemma LeftAfterGrant(s: Limiter, now: int, lo: int, hi: int)
    requires Sane(s, now) && Allowed(s, now).1 && lo <= now <= hi
    ensures Left(Allowed(s, now).0, hi) <= CeilDiv(hi - lo, REFILL_MS)
  {
    var t := Allowed(s, now).0;
    assert now < t.lastMs + REFILL_MS;
    assert (hi - t.lastMs) / REFILL_MS <= (hi - lo + REFILL_MS - 1) / REFILL_MS;
  }

  /** The rate bound, over any history: a closed window of `length` milliseconds holds at most
      1 + ceil(length / 30000) grants, and one more for each reconnect or guard reset in it. */
  lemma {:induction false} RateBound(s: Limiter, es: seq<Event>, from: int, lo: int, length: nat)
    requires Sane(s, from) && Timed(from, es)
    ensures |Within(Grants(s, es), lo, lo + length)| <= 1 + CeilDiv(length, 30000) + ResetsWithin(es, lo, lo + length)
    decreases es
  {
    var hi := lo + length;
    if es == [] {
    } else {
      var now := es[0].now;
      var t := Step(s, es[0]);
      StepSane(s, es[0], from);
      GrantsNext(s, es, lo, hi);
      if es[0].Attempt? && Allowed(s, now).1 && lo <= now <= hi {
        LeftAfterGrant(s, now, lo, hi);
        GrantsLeft(t, es[1..], now, lo, hi);
      } else {
        RateBound(t, es[1..], now, lo, length);
      }
    }
  }

  /** The bound is met with equality: the bucket refills on a fixed phase, so two publishes
      may be one millisecond apart. */
  lemma SpacingIsNotTheRefillPeriod()
    ensures Grants(Limiter(BUCKET_TOKENS, 1, 0, false), [Attempt(30000), Attempt(30001)]) == [30000, 30001]
  {
    var s := Limiter(BUCKET_TOKENS, 1, 0, false);
    var es := [Attempt(30000), Attempt(30001)];
    var t := Step(s, es[0]);
    assert t == Limiter(0, 1, 0, false);
    assert es[1..] == [Attempt(30001)];
    assert Allowed(t, 30001).1;
    assert es[1..][1..] == [];
    assert Grants(t, es[1..]) == [30001] + Grants(Step(t, es[1]), []);
    assert Grants(s, es) == [30000] + Grants(t, es[1..]);
  }

  // Nothing but an explicit reset lifts a guard.
  ghost predicate NotCleared(es: seq<Event>) {
    forall e <- es :: !e.Cleared?
  }

  /** After a 413 nothing is granted until the guard is cleared. */
  lemma {:induction false} SuspendedGrantsNothing(s: Limiter, es: seq<Event>)
    requires s.suspended && NotCleared(es)
    ensures Grants(s, es) == []
    decreases es
  {
    if es == [] {
    } else {
      SuspendedGrantsNothing(Step(s, es[0]), es[1..]);
    }
  }

  /** A blocked limiter grants nothing before the block ends, reconnects included. */
  lemma {:induction false} BlockedGrantsNothing(s: Limiter, es: seq<Event>, from: int, until: int)
    requires Timed(from, es) && NotCleared(es)
    requires until <= s.blockUntilMs && until <= from + BLOCK_MS
    ensures forall i :: 0 <= i < |Grants(s, es)| ==> Grants(s, es)[i] >= until
    decreases es
  {
    if es == [] {
    } else {
      BlockedGrantsNothing(Step(s, es[0]), es[1..], es[0].now, until);
    }
  }

  /** After a 403 at time `at` nothing is granted for 60 seconds, and after a 413 nothing
      at all, unless the guard is cleared. */
  lemma RejectionBlocks(s: Limiter, es: seq<Event>, at: int)
    requires Timed(at, es) && NotCleared(es)
    ensures forall i :: 0 <= i < |Grants(AfterResponse(s, 403, at), es)| ==>
              Grants(AfterResponse(s, 403, at), es)[i] >= at + 60000
    ensures Grants(AfterResponse(s, 413, at), es) == []
  {
    BlockedGrantsNothing(AfterResponse(s, 403, at), es, at, at + BLOCK_MS);
    SuspendedGrantsNothing(AfterResponse(s, 413, at), es);
  }

  // ---- When the next grant comes ----

  ghost predicate OnlyAttempts(es: seq<Event>) { forall e <- es :: e.Attempt? }

  /** A limiter that is not suspended grants one of the attempts once the last of them comes 30
      seconds after the bucket's phase began and not inside a block. */
  lemma {:induction false} GrantsOneOf(s: Limiter, es: seq<Event>, start: int)
    requires !s.suspended && 0 < s.lastMs <= start && s.tokens >= 0
    requires es != [] && OnlyAttempts(es) && Timed(start, es)
    requires es[|es| - 1].now >= s.lastMs + 30000 && es[|es| - 1].now >= s.blockUntilMs
    ensures |Grants(s, es)| >= 1
    decreases |es|
  {
    var now := es[0].now;
    if !Allowed(s, now).1 {
      assert es[0] in es;
      if |es| == 1 {
        ElapsedGrants(s, now);
      } else {
        RefusedUnchanged(s, now);
        assert es[1..][|es| - 2] == es[|es| - 1];
        GrantsOneOf(s, es[1..], now);
      }
    }
  }

  lemma ElapsedGrants(s: Limiter, now: int)
    requires !s.suspended && s.lastMs > 0 && s.tokens >= 0 && now >= s.lastMs + 30000 && now >= s.blockUntilMs
    ensures Allowed(s, now).1
  {
    assert (now - s.lastMs) / REFILL_MS >= 1;
  }

  lemma RefusedUnchanged(s: Limiter, now: int)
    requires s.lastMs > 0 && s.tokens >= 0 && !Allowed(s, now).1
    ensures Allowed(s, now).0 == s
  {
    if now - s.lastMs >= REFILL_MS { assert (now - s.lastMs) / REFILL_MS >= 1; }
  }

  /** After a grant, the attempts of the next 30 seconds at the latest bring another one. */
  lemma GrantsAgain(s: Limiter, es: seq<Event>, at: int)
    requires Sane(s, at) && at > 0 && Allowed(s, at).1
    requires es != [] && OnlyAttempts(es) && Timed(at, es) && es[|es| - 1].now >= at + 30000
    ensures |Grants(Allowed(s, at).0, es)| >= 1
  {
    RefillStarts(s, at);
    GrantsOneOf(Allowed(s, at).0, es, at);
  }

  lemma RefillStarts(s: Limiter, now: int)
    requires 0 <= s.lastMs <= now && now > 0
    ensures 0 < Refilled(s, now).lastMs <= now
  {
    if s.lastMs != 0 && now - s.lastMs >= REFILL_MS {
      assert (now - s.lastMs) / REFILL_MS * REFILL_MS <= now - s.lastMs;
    }
  }

  /** After a 403 at `at`, the attempts of the next 60 seconds bring one, and no earlier. */
  lemma GrantsAfterBlock(s: Limiter, es: seq<Event>, at: int)
    requires 0 < s.lastMs <= at && !s.suspended
    requires es != [] && OnlyAttempts(es) && Timed(at, es) && es[|es| - 1].now >= at + 60000
    ensures var grants := Grants(AfterResponse(s, 403, at), es); |grants| >= 1 && grants[0] >= at + 60000
  {
    var blocked := AfterResponse(s, 403, at);
    GrantsOneOf(blocked, es, at);
    BlockedGrantsNothing(blocked, es, at, at + 60000);
  }

  /** The bucket refills on a fixed phase: its time advances by whole periods up to the last one
      passed, however late the attempt comes. */
  lemma PhaseKept(s: Limiter, now: int)
    requires 0 < s.lastMs <= now
    ensures var t := Refilled(s, now);
            (t.lastMs - s.lastMs) % 30000 == 0 && t.lastMs <= now < t.lastMs + 30000
  {
    if now - s.lastMs >= REFILL_MS { Multiple((now - s.lastMs) / REFILL_MS); }
  }

  lemma Multiple(k: int)
    ensures k * 30000 % 30000 == 0
  {}

  /** A reconnect fills the bucket: unless blocked or suspended, the next attempt is granted. */
  lemma ReconnectGrants(s: Limiter, now: int, later: int)
    requires 0 < now <= later && !s.suspended && later >= s.blockUntilMs
    ensures Allowed(Step(s, Connected(now)), later).1
    ensures Step(s, Connected(now)).lastMs == now
  {
    if later - now >= REFILL_MS { assert (later - now) / REFILL_MS >= 1; }
  }

  /** Answers other than 403 and 413 change nothing. */
  lemma OtherAnswersIgnored(s: Limiter, errorCode: int, now: int)
    ensures AfterResponse(s, errorCode, now) != s ==> errorCode == 403 || errorCode == 413
  {}
}
