/** When replay sends: over whole runs, how long it waits for an answer (main/uif/uif_persistence.c:97-105)
    and how long it holds back after a timeout, a refused send or a rejection. */
module ReplayTiming {
  import opened Wrappers
  import opened OfflineStore
  import opened UifReplay
  import opened ReplayRuns

  predicate NoBootIn(es: seq<Event>, lo: nat, hi: nat)
    requires hi <= |es|
  {
    forall i :: lo <= i < hi ==> !es[i].Boot?
  }

  // The replays of es[from..to] do not see the clock run backwards.
  predicate Clocked(es: seq<Event>, lo: nat, hi: nat)
    requires hi < |es|
  {
    forall i, j :: lo <= i <= j <= hi && es[i].Replay? && es[j].Replay? ==> es[i].replayEnv.now <= es[j].replayEnv.now
  }

  // The replays of es[from..to) come before `until`.
  predicate Early(es: seq<Event>, lo: nat, hi: nat, until: int)
    requires hi <= |es|
  {
    forall i :: lo <= i < hi && es[i].Replay? ==> es[i].replayEnv.now < until
  }

  // ---- Holding back ----

  /** A replay that finds the outstanding record unanswered for 20 seconds. */
  predicate GivesUp(c: Core, e: Event) {
    e.Replay? && e.replayEnv.connected && c.u.outstanding && e.replayEnv.now - c.u.sentMs >= 20000
  }

  /** A replay whose record the platform client does not take. */
  ghost predicate Refused(c: Core, e: Event) {
    && e.Replay? && e.replayEnv.connected && e.replayEnv.thingscloud
    && !c.u.outstanding && e.replayEnv.now >= c.u.retryAfterMs
    && PeekQ(c.q).Record? && e.replayEnv.parses && e.replayEnv.sent != Done
  }

  /** The platform's rejection of the outstanding record. */
  predicate Rejects(c: Core, e: Event) {
    e.Response? && c.u.outstanding && c.u.gatewayTopic == AnswerFlag(e.answerTopic) && !e.accepted
  }

  /** The platform's acceptance of the outstanding record. */
  predicate Accepts(c: Core, e: Event) {
    e.Response? && c.u.outstanding && c.u.gatewayTopic == AnswerFlag(e.answerTopic) && e.accepted
  }

  /** Until when an event makes replay hold back; an acceptance lets it go on at once. */
  ghost function HoldUntil(c: Core, e: Event): Option<int> {
    if GivesUp(c, e) then Some(e.replayEnv.now + 60000)
    else if Refused(c, e) then Some(e.replayEnv.now + 30000)
    else if Rejects(c, e) then Some(e.now + if e.code == 402 || e.code == 406 || e.code == 413 then 1000 else 60000)
    else if Accepts(c, e) then Some(0)
    else None
  }

  predicate HeldBack(u: Uif, until: int) { !u.outstanding && u.retryAfterMs == until }

  lemma HoldStarts(c: Core, e: Event)
    requires HoldUntil(c, e).Some?
    ensures HeldBack(CoreAfter(c, e).u, HoldUntil(c, e).value) && SentId(c, e).None?
  {}

  lemma StepHeldBack(c: Core, e: Event, until: int)
    requires HeldBack(c.u, until) && !e.Boot? && (e.Replay? ==> e.replayEnv.now < until)
    ensures HeldBack(CoreAfter(c, e).u, until)
  {}

  lemma {:induction false} StaysHeldBack(ss: seq<Sys>, es: seq<Event>, lo: nat, hi: nat, until: int)
    requires Run(ss, es) && lo <= hi <= |es| && HeldBack(ss[lo].core.u, until)
    requires NoBootIn(es, lo, hi) && Early(es, lo, hi, until)
    ensures HeldBack(ss[hi].core.u, until)
    decreases hi
  {
    if lo < hi {
      StaysHeldBack(ss, es, lo, hi - 1, until);
      assert Follows(ss, es, hi - 1);
      StepHeldBack(ss[hi - 1].core, es[hi - 1], until);
    }
  }

  lemma HeldReplay(s: Sys, e: Event, until: int)
    requires HeldBack(s.core.u, until) && e.Replay? && e.replayEnv.now < until
    ensures SentId(s.core, e).None? && Step(s, e) == s
  {}

  /** After a timeout at t nothing is sent before t + 60000, after a refused send before t + 30000,
      after a rejection before t + 60000 (t + 1000 for a final one), whatever else happens short of
      a boot: a replay then changes nothing. */
  lemma NothingSentInHold(ss: seq<Sys>, es: seq<Event>, k: nat, n: nat)
    requires Run(ss, es) && k < n < |es| && HoldUntil(ss[k].core, es[k]).Some?
    requires NoBootIn(es, k + 1, n) && Clocked(es, k + 1, n)
    requires es[n].Replay? && es[n].replayEnv.now < HoldUntil(ss[k].core, es[k]).value
    ensures SentId(ss[k].core, es[k]).None? && SentId(ss[n].core, es[n]).None? && ss[n + 1] == ss[n]
  {
    var until := HoldUntil(ss[k].core, es[k]).value;
    assert Follows(ss, es, k) && Follows(ss, es, n);
    HoldStarts(ss[k].core, es[k]);
    StaysHeldBack(ss, es, k + 1, n, until);
    HeldReplay(ss[n], es[n], until);
  }

  // Whether what a replay calls takes the record.
  predicate Takes(c: Core, env: ReplayEnv) {
    if env.thingscloud then env.parses && env.sent == Done
    else env.msgId >= 0 && exists i :: 0 <= i < |c.slots| && !c.slots[i].active
  }

  lemma ResumedReplay(c: Core, e: Event, until: int)
    requires HeldBack(c.u, until) && e.Replay? && e.replayEnv.now >= until
    ensures SentId(c, e) == if e.replayEnv.connected && PeekQ(c.q).Record? && Takes(c, e.replayEnv) then Some(PeekQ(c.q).id) else None
  {}

  /** And no longer: the first replay after that sends the oldest record exactly when there is a
      connection, the record can be read, and it is taken. */
  lemma SendsAfterHold(ss: seq<Sys>, es: seq<Event>, k: nat, n: nat)
    requires Run(ss, es) && k < n < |es| && HoldUntil(ss[k].core, es[k]).Some?
    requires NoBootIn(es, k + 1, n) && Early(es, k + 1, n, HoldUntil(ss[k].core, es[k]).value)
    requires es[n].Replay? && es[n].replayEnv.now >= HoldUntil(ss[k].core, es[k]).value
    ensures var c, env := ss[n].core, es[n].replayEnv;
            SentId(c, es[n]) == if env.connected && PeekQ(c.q).Record? && Takes(c, env) then Some(PeekQ(c.q).id) else None
  {
    var until := HoldUntil(ss[k].core, es[k]).value;
    assert Follows(ss, es, k);
    HoldStarts(ss[k].core, es[k]);
    StaysHeldBack(ss, es, k + 1, n, until);
    ResumedReplay(ss[n].core, es[n], until);
  }

  // ---- Waiting for an answer ----

  predicate Waiting(u: Uif, id: nat, since: int) { u.outstanding && u.sequence == id && u.sentMs == since }

  /** An event that ends the wait for the answer to `id`: its acknowledgement, an answer on the
      topic awaited, the loss of the connection, a boot. */
  predicate EndsWait(c: Core, e: Event, id: nat) {
    match e
    case PubAck(msgId, _, _) => AckedToken(c.slots, msgId) == Some(id)
    case Response(topic, _, _, _, _, _) => c.u.gatewayTopic == AnswerFlag(topic)
    case Lost => true
    case Boot(_, _) => true
    case _ => false
  }

  ghost predicate Undecided(ss: seq<Sys>, es: seq<Event>, lo: nat, hi: nat, id: nat)
    requires hi <= |es| < |ss|
  {
    forall i :: lo <= i < hi ==> !EndsWait(ss[i].core, es[i], id)
  }

  lemma SendStartsWait(c: Core, e: Event)
    requires SentId(c, e).Some? && e.replayEnv.thingscloud
    ensures Waiting(CoreAfter(c, e).u, SentId(c, e).value, e.replayEnv.now)
  {}

  lemma StepWaiting(c: Core, e: Event, id: nat, since: int)
    requires Waiting(c.u, id, since) && !EndsWait(c, e, id)
    requires e.Replay? ==> e.replayEnv.now < since + 20000
    ensures Waiting(CoreAfter(c, e).u, id, since)
  {}

  lemma {:induction false} StaysWaiting(ss: seq<Sys>, es: seq<Event>, lo: nat, hi: nat, id: nat, since: int)
    requires Run(ss, es) && lo <= hi <= |es| && Waiting(ss[lo].core.u, id, since)
    requires Undecided(ss, es, lo, hi, id) && Early(es, lo, hi, since + 20000)
    ensures Waiting(ss[hi].core.u, id, since)
    decreases hi
  {
    if lo < hi {
      StaysWaiting(ss, es, lo, hi - 1, id, since);
      assert Follows(ss, es, hi - 1);
      StepWaiting(ss[hi - 1].core, es[hi - 1], id, since);
    }
  }

  lemma WaitingReplay(s: Sys, e: Event, id: nat, since: int)
    requires Waiting(s.core.u, id, since) && e.Replay?
    ensures e.replayEnv.now < since + 20000 ==> SentId(s.core, e).None? && Step(s, e) == s
    ensures GivesUp(s.core, e) <==> e.replayEnv.connected && e.replayEnv.now >= since + 20000
  {}

  /** A record sent to the platform at t is the only one on its way until it is answered: a replay
      changes nothing before t + 20000, and the first connected one from then on gives up. */
  lemma WaitsForAnswer(ss: seq<Sys>, es: seq<Event>, k: nat, n: nat)
    requires Run(ss, es) && k < n < |es| && SentId(ss[k].core, es[k]).Some? && es[k].replayEnv.thingscloud
    requires Undecided(ss, es, k + 1, n, SentId(ss[k].core, es[k]).value)
    requires Early(es, k + 1, n, es[k].replayEnv.now + 20000) && es[n].Replay?
    ensures es[n].replayEnv.now < es[k].replayEnv.now + 20000 ==> SentId(ss[n].core, es[n]).None? && ss[n + 1] == ss[n]
    ensures GivesUp(ss[n].core, es[n]) <==> es[n].replayEnv.connected && es[n].replayEnv.now >= es[k].replayEnv.now + 20000
  {
    assert Follows(ss, es, k) && Follows(ss, es, n);
    SendStartsWait(ss[k].core, es[k]);
    StaysWaiting(ss, es, k + 1, n, SentId(ss[k].core, es[k]).value, es[k].replayEnv.now);
    WaitingReplay(ss[n], es[n], SentId(ss[k].core, es[k]).value, es[k].replayEnv.now);
  }

  // ---- What a replay reports ----

  predicate InTime(c: Core, env: ReplayEnv) { c.u.outstanding && env.now - c.u.sentMs < 20000 }

  /** A replay succeeds exactly when it waits for an answer in time, finds nothing to send, or sends
      the oldest record. Each failure has its own status, and none leaves a record on its way. */
  lemma ReplayOutcome(c: Core, env: ReplayEnv)
    ensures var (c', status) := Replayed(c, env);
            var due := !c.u.outstanding && env.now >= c.u.retryAfterMs;
            var peek := PeekQ(c.q);
            && (!env.connected ==> status == InvalidState && c' == c)
            && (env.connected && InTime(c, env) ==> status == Done && c' == c)
            && (env.connected && !InTime(c, env) && !due ==> status == TimedOut && !c'.u.outstanding)
            && (env.connected && due && peek.Absent? ==> status == Done && c' == c)
            && (env.connected && due && peek.Unreadable? ==> status == Failed && c' == c)
            && (env.connected && due && peek.Record? && env.thingscloud ==>
                  if env.parses then status == env.sent && (c'.u.outstanding <==> env.sent == Done)
                  else status == InvalidResponse && c' == c)
            && (env.connected && due && peek.Record? && !env.thingscloud ==>
                  && status == (if env.msgId < 0 then Failed else if Takes(c, env) then Done else NoMem)
                  && (c'.u.outstanding <==> status == Done))
  {}

  /** The table holds 32 publishes: one is taken exactly when fewer are unacknowledged. */
  lemma TakesIff(c: Core, env: ReplayEnv)
    requires |c.slots| == MAX_TRACKED && !env.thingscloud
    ensures Takes(c, env) <==> env.msgId >= 0 && ActiveCount(c.slots) < 32
  {
    AllActiveIff(c.slots);
  }

  lemma {:induction false} AllActiveIff(slots: seq<Tracked>)
    ensures ActiveCount(slots) <= |slots|
    ensures ActiveCount(slots) < |slots| <==> exists i :: 0 <= i < |slots| && !slots[i].active
    decreases |slots|
  {
    if slots != [] {
      var rest := slots[..|slots| - 1];
      AllActiveIff(rest);
      assert forall i :: 0 <= i < |rest| ==> rest[i] == slots[i];
    }
  }
}
