/** Whole runs of the cache and its replay, with restarts: puts, replay attempts, broker
    acknowledgements, platform responses, connection losses and boots in any order. */
module ReplayRuns {
  import opened Wrappers
  import opened OfflineRecord
  import opened OfflineStore
  import opened UifReplay
  import Ids = TcmSequence

  datatype Event =
    | Put(id: nat, topic: string, payload: string, putEnv: PutEnv)
    | Replay(replayEnv: ReplayEnv)
    | PubAck(msgId: int, flashOk: bool, tfOk: bool)
    | Response(answerTopic: CloudTopic, accepted: bool, code: int, now: int, respFlashOk: bool, respTfOk: bool)
    | Lost
    | Boot(tfMounted: bool, unlink: nat -> bool)

  datatype Message = Message(id: nat, content: Content)

  /** The device and what an observer remembers: the newest id put, the ids that replay has
      removed, the message last published under each broker message id, and the losses
      counted before the last boot. */
  datatype Sys = Sys(core: Core, lastPut: int, removed: seq<nat>, published: map<int, Message>, pastLoss: nat)

  // A replay attempt gets as far as the record to send.
  predicate Due(u: Uif, env: ReplayEnv) {
    env.connected && !Awaiting(u, env.now) && env.now >= Expired(u, env.now).retryAfterMs
  }

  // The publish a replay attempt makes over the custom broker.
  ghost function Publication(c: Core, env: ReplayEnv): Option<Message> {
    var peek := PeekQ(c.q);
    if Due(c.u, env) && !env.thingscloud && peek.Record? && env.msgId >= 0
    then Some(Message(peek.id, peek.content))
    else None
  }

  // The id an event asks the store to remove.
  function Target(c: Core, e: Event): Option<nat> {
    match e
    case PubAck(msgId, _, _) => AckedToken(c.slots, msgId)
    case Response(topic, accepted, code, _, _, _) =>
      if Answers(c.u, AnswerFlag(topic)) && (accepted || NonRetryable(code)) then Some(c.u.sequence) else None
    case _ => None
  }

  ghost function CoreAfter(c: Core, e: Event): Core {
    match e
    case Put(id, topic, payload, env) => c.(q := PutQ(c.q, id, topic, payload, env).0)
    case Replay(env) => Replayed(c, env).0
    case PubAck(msgId, flashOk, tfOk) => BrokerAcked(c, msgId, flashOk, tfOk)
    case Response(topic, accepted, code, now, flashOk, tfOk) =>
      Responded(c, AnswerFlag(topic), accepted, code, now, flashOk, tfOk)
    case Lost => c.(u := Idle(c.u))
    case Boot(tfMounted, unlink) =>
      Core(InitQ(c.q.flash, c.q.tf, tfMounted, unlink), Uif(false, 0, false, 0, 0), NoneTracked())
  }

  ghost function RemovedBy(c: Core, e: Event): Option<nat> {
    var target := Target(c, e);
    if target.Some? && Has(c.q, target.value) && !Has(CoreAfter(c, e).q, target.value) then target else None
  }

  ghost function Step(s: Sys, e: Event): Sys {
    var c := s.core;
    Sys(
      CoreAfter(c, e),
      if e.Put? then e.id else s.lastPut,
      match RemovedBy(c, e) { case None => s.removed case Some(id) => s.removed + [id] },
      if e.Replay? && Publication(c, e.replayEnv).Some?
        then s.published[e.replayEnv.msgId := Publication(c, e.replayEnv).value] else s.published,
      if e.Boot? then s.pastLoss + c.q.dataLoss else s.pastLoss)
  }

  ghost predicate Follows(ss: seq<Sys>, es: seq<Event>, k: nat)
    requires k < |es| < |ss|
  {
    ss[k + 1] == Step(ss[k], es[k])
  }

  /** `ss[k]` is the state after the first k events. */
  ghost predicate Run(ss: seq<Sys>, es: seq<Event>) {
    |ss| == |es| + 1 && forall k: nat :: k < |es| ==> Follows(ss, es, k)
  }

  ghost predicate Has(q: Queue, id: nat) { id in q.flash || id in q.tf }

  ghost function TextAt(q: Queue, id: nat): string
    requires Has(q, id)
  {
    if id in q.flash then q.flash[id] else q.tf[id]
  }

  // ---- What one step does to the records ----

  // Every record of `d'`, other than one under `id`, is a record of `d`.
  ghost predicate Grows(d: Dir, d': Dir, id: int) {
    forall x :: x in d' && x != id ==> x in d && d'[x] == d[x]
  }

  ghost predicate NothingGone(d: Dir, d': Dir) { d.Keys <= d'.Keys }

  // `d'` lacks only records of `d` that are older than all it holds.
  ghost predicate OldestGone(d: Dir, d': Dir) {
    forall x, y :: x in d && x !in d' && y in d' ==> x < y
  }

  ghost predicate NewestKey(d: Dir, id: int) { forall x :: x in d ==> x < id }

  lemma CardFacts(tf: Dir, id: nat, text: string, env: PutEnv)
    ensures var (tf', lost, _) := CardQ(tf, id, text, env);
            && Grows(tf, tf', id) && (lost == 0 ==> NothingGone(tf, tf'))
            && (NewestKey(tf, id) ==> OldestGone(tf, tf') && (id in tf' ==> tf'[id] == text))
  {}

  lemma RewriteFacts(flash: Dir, id: nat, text: string, env: PutEnv)
    ensures var (flash', lost, _) := RewriteQ(flash, id, text, env);
            && Grows(flash, flash', id) && (lost == 0 ==> NothingGone(flash, flash'))
            && (NewestKey(flash, id) ==> OldestGone(flash, flash') && (id in flash' ==> flash'[id] == text))
  {}

  lemma PutFacts(q: Queue, id: nat, topic: string, payload: string, env: PutEnv)
    ensures var q' := PutQ(q, id, topic, payload, env).0;
            && Grows(q.flash, q'.flash, id) && Grows(q.tf, q'.tf, id)
            && q'.tfMounted == q.tfMounted
            && (id !in q.flash && id !in q.tf ==> !(id in q'.flash && id in q'.tf))
            && (q'.dataLoss == q.dataLoss ==> NothingGone(q.flash, q'.flash) && NothingGone(q.tf, q'.tf))
  {
    var text := FileText(id, topic, payload);
    CardFacts(q.tf, id, text, env);
    RewriteFacts(q.flash, id, text, env);
  }

  // A put of the newest id evicts oldest records only, and stores its own text.
  lemma NewestPutFacts(q: Queue, id: nat, topic: string, payload: string, env: PutEnv)
    requires NewestKey(q.flash, id) && NewestKey(q.tf, id)
    ensures var q' := PutQ(q, id, topic, payload, env).0;
            && OldestGone(q.flash, q'.flash) && OldestGone(q.tf, q'.tf)
            && (Has(q', id) ==> TextAt(q', id) == FileText(id, topic, payload))
  {
    var text := FileText(id, topic, payload);
    CardFacts(q.tf, id, text, env);
    RewriteFacts(q.flash, id, text, env);
  }

  lemma {:induction false} PrunedFacts(d: Dir, unlink: nat -> bool, k: nat)
    ensures Grows(d, Pruned(d, unlink, k).0, -1)
    ensures Pruned(d, unlink, k).1 == 0 ==> Pruned(d, unlink, k).0 == d
    ensures OldestGone(d, Pruned(d, unlink, k).0)
    decreases |d|
  {
    if |d| > MAX_RECORDS && unlink(k) {
      PrunedFacts(Without(d, Oldest(d)), unlink, k + 1);
    } else {
    }
  }

  // Acknowledgements and responses touch the store only through their target.
  lemma TargetedRemoval(c: Core, e: Event)
    requires e.PubAck? || e.Response?
    ensures var q' := CoreAfter(c, e).q;
            && q'.tfMounted == c.q.tfMounted && q'.dataLoss == c.q.dataLoss
            && match Target(c, e)
               case None => q' == c.q
               case Some(id) => exists flashOk, tfOk :: q' == RemoveQ(c.q, id, flashOk, tfOk).0
  {
    if e.PubAck? && Target(c, e).Some? {
      assert CoreAfter(c, e).q == RemoveQ(c.q, Target(c, e).value, e.flashOk, e.tfOk).0;
    }
    if e.Response? && Target(c, e).Some? {
      assert CoreAfter(c, e).q == RemoveQ(c.q, Target(c, e).value, e.respFlashOk, e.respTfOk).0;
    }
  }

  function NewId(e: Event): int { if e.Put? then e.id else -1 }

  lemma ReplayKeepsQueue(c: Core, env: ReplayEnv)
    ensures Replayed(c, env).0.q == c.q
  {}

  lemma StepGrows(c: Core, e: Event)
    ensures var q' := CoreAfter(c, e).q; Grows(c.q.flash, q'.flash, NewId(e)) && Grows(c.q.tf, q'.tf, NewId(e))
    ensures !e.Boot? ==> CoreAfter(c, e).q.tfMounted == c.q.tfMounted
  {
    match e {
      case Put(id, topic, payload, env) => PutFacts(c.q, id, topic, payload, env);
      case Replay(env) => ReplayKeepsQueue(c, env);
      case Boot(_, unlink) => PrunedFacts(c.q.flash, unlink, 0);
      case Lost =>
      case _ => TargetedRemoval(c, e);
    }
  }

  // ---- What every ordered run keeps ----

  ghost predicate PutAbove(s: Sys, e: Event) { e.Put? ==> e.id > s.lastPut }

  ghost predicate MsgIdFree(s: Sys, e: Event) {
    e.Replay? ==> forall i :: 0 <= i < |s.core.slots| ==> !Carries(s.core.slots[i], e.replayEnv.msgId)
  }

  ghost predicate Ordered(s: Sys, e: Event) { PutAbove(s, e) && MsgIdFree(s, e) }

  /** Ids are put in increasing order. */
  ghost predicate PutsAbove(ss: seq<Sys>, es: seq<Event>)
    requires |ss| > |es|
  {
    forall k :: 0 <= k < |es| ==> PutAbove(ss[k], es[k])
  }

  /** And the broker client does not reuse a message id while a tracked publish under it is
      unacknowledged. */
  ghost predicate OrderedRun(ss: seq<Sys>, es: seq<Event>)
    requires |ss| > |es|
  {
    forall k :: 0 <= k < |es| ==> Ordered(ss[k], es[k])
  }

  ghost predicate AllUpTo(d: Dir, top: int) { forall x :: x in d ==> x <= top }

  ghost predicate Disjoint(q: Queue) { forall x :: x in q.flash ==> x !in q.tf }

  ghost predicate KeysInv(q: Queue, top: int) { AllUpTo(q.flash, top) && AllUpTo(q.tf, top) && Disjoint(q) }

  // A tracked slot names the message published under its id, and that message is the record.
  ghost predicate SlotInv(s: Sys, t: Tracked) {
    t.active ==>
      && t.token <= s.lastPut
      && t.msgId in s.published && s.published[t.msgId].id == t.token
      && (Has(s.core.q, t.token) ==> ReadContent(TextAt(s.core.q, t.token)) == Some(s.published[t.msgId].content))
  }

  ghost predicate SlotsInv(s: Sys) {
    forall i :: 0 <= i < |s.core.slots| ==> SlotInv(s, s.core.slots[i])
  }

  ghost predicate Inv(s: Sys) {
    && KeysInv(s.core.q, s.lastPut) && SlotsInv(s) && |s.core.slots| == MAX_TRACKED
    && (s.core.u.outstanding ==> s.core.u.sequence <= s.lastPut)
  }

  lemma StepKeysInv(s: Sys, e: Event)
    requires KeysInv(s.core.q, s.lastPut) && PutAbove(s, e)
    ensures KeysInv(Step(s, e).core.q, Step(s, e).lastPut)
  {
    StepGrows(s.core, e);
    if e.Put? { PutFacts(s.core.q, e.id, e.topic, e.payload, e.putEnv); }
  }

  // A record older than the event keeps its text.
  lemma TextStays(s: Sys, e: Event, id: nat)
    requires KeysInv(s.core.q, s.lastPut) && PutAbove(s, e) && id <= s.lastPut
    requires Has(Step(s, e).core.q, id)
    ensures Has(s.core.q, id) && TextAt(Step(s, e).core.q, id) == TextAt(s.core.q, id)
  {
    StepGrows(s.core, e);
  }

  lemma PeekedFacts(q: Queue)
    requires PeekQ(q).Record?
    ensures Disjoint(q) ==> Has(q, PeekQ(q).id) && ReadContent(TextAt(q, PeekQ(q).id)) == Some(PeekQ(q).content)
  {}

  // The slots after a step: each was there before, active or not, or carries the publication.
  lemma SlotsAfter(c: Core, e: Event, i: nat)
    requires |c.slots| == MAX_TRACKED && i < MAX_TRACKED
    ensures var slots' := CoreAfter(c, e).slots;
            && |slots'| == MAX_TRACKED
            && (slots'[i].active ==>
                  slots'[i] == c.slots[i]
                  || (e.Replay? && Publication(c, e.replayEnv).Some?
                      && slots'[i] == Tracked(e.replayEnv.msgId, Publication(c, e.replayEnv).value.id, true)))
  {}

  lemma StepSlotInv(s: Sys, e: Event, i: nat)
    requires Inv(s) && Ordered(s, e) && i < MAX_TRACKED
    ensures |Step(s, e).core.slots| == MAX_TRACKED && SlotInv(Step(s, e), Step(s, e).core.slots[i])
  {
    SlotsAfter(s.core, e, i);
    var s' := Step(s, e);
    var t := s'.core.slots[i];
    if t.active {
      if t == s.core.slots[i] {
        assert SlotInv(s, t) && !(e.Replay? && Carries(t, e.replayEnv.msgId));
        if Has(s'.core.q, t.token) { TextStays(s, e, t.token); }
      } else {
        PeekedFacts(s.core.q);
        ReplayKeepsQueue(s.core, e.replayEnv);
      }
    }
  }

  lemma StepOutstanding(s: Sys, e: Event)
    requires Inv(s) && Ordered(s, e)
    ensures Step(s, e).core.u.outstanding ==> Step(s, e).core.u.sequence <= Step(s, e).lastPut
  {
    if e.Replay? && PeekQ(s.core.q).Record? { PeekedFacts(s.core.q); }
  }

  lemma StepInv(s: Sys, e: Event)
    requires Inv(s) && Ordered(s, e)
    ensures Inv(Step(s, e))
  {
    StepKeysInv(s, e);
    StepOutstanding(s, e);
    forall i | 0 <= i < MAX_TRACKED
      ensures |Step(s, e).core.slots| == MAX_TRACKED && SlotInv(Step(s, e), Step(s, e).core.slots[i])
    {
      StepSlotInv(s, e, i);
    }
  }

  lemma NextInv(ss: seq<Sys>, es: seq<Event>, k: nat)
    requires Run(ss, es) && 0 < k <= |es| && Inv(ss[k - 1]) && Ordered(ss[k - 1], es[k - 1])
    ensures Inv(ss[k])
  {
    assert Follows(ss, es, k - 1);
    StepInv(ss[k - 1], es[k - 1]);
  }

  lemma {:induction false} RunInv(ss: seq<Sys>, es: seq<Event>, k: nat)
    requires Run(ss, es) && Inv(ss[0]) && OrderedRun(ss, es) && k <= |es|
    ensures Inv(ss[k])
  {
    if k == 0 {
    } else {
      RunInv(ss, es, k - 1);
      NextInv(ss, es, k);
    }
  }

  lemma NextKeysInv(ss: seq<Sys>, es: seq<Event>, k: nat)
    requires Run(ss, es) && 0 < k <= |es| && PutAbove(ss[k - 1], es[k - 1])
    requires KeysInv(ss[k - 1].core.q, ss[k - 1].lastPut)
    ensures KeysInv(ss[k].core.q, ss[k].lastPut)
  {
    assert Follows(ss, es, k - 1);
    StepKeysInv(ss[k - 1], es[k - 1]);
  }

  lemma {:induction false} RunKeysInv(ss: seq<Sys>, es: seq<Event>, k: nat)
    requires Run(ss, es) && KeysInv(ss[0].core.q, ss[0].lastPut) && PutsAbove(ss, es) && k <= |es|
    ensures KeysInv(ss[k].core.q, ss[k].lastPut)
  {
    if k == 0 {
    } else {
      RunKeysInv(ss, es, k - 1);
      NextKeysInv(ss, es, k);
    }
  }

  /** The index of both media stays exact over every ordered run: no put meets the branch
      that would leave it stale. */
  lemma RunKeepsIndex(ss: seq<Sys>, es: seq<Event>, k: nat)
    requires Run(ss, es) && KeysInv(ss[0].core.q, ss[0].lastPut) && PutsAbove(ss, es) && k < |es|
    ensures es[k].Put? ==>
              PutKeepsIndex(ss[k].core.q, es[k].id, es[k].topic, es[k].payload, es[k].putEnv)
  {
    RunKeysInv(ss, es, k);
    if es[k].Put? {
      var flash1 := Evicted(ss[k].core.q.flash, es[k].putEnv.flashUnlink).0;
      if |flash1| > 0 { assert Oldest(flash1) in flash1; }
    }
  }

  // ---- The peek returns what was put ----

  lemma NextText(ss: seq<Sys>, es: seq<Event>, n: nat, id: nat)
    requires Run(ss, es) && KeysInv(ss[0].core.q, ss[0].lastPut) && PutsAbove(ss, es) && n < |es|
    requires id <= ss[n].lastPut && Has(ss[n + 1].core.q, id)
    ensures Has(ss[n].core.q, id) && TextAt(ss[n + 1].core.q, id) == TextAt(ss[n].core.q, id)
  {
    RunKeysInv(ss, es, n);
    assert Follows(ss, es, n);
    TextStays(ss[n], es[n], id);
  }

  lemma LastPutNext(ss: seq<Sys>, es: seq<Event>, n: nat)
    requires Run(ss, es) && PutsAbove(ss, es) && n < |es|
    ensures ss[n + 1].lastPut >= ss[n].lastPut
    ensures es[n].Put? ==> ss[n + 1].lastPut == es[n].id
  {
    assert Follows(ss, es, n);
  }

  // As long as it is stored, a record keeps the text that its put gave it.
  lemma {:induction false} StoredTextIsPut(ss: seq<Sys>, es: seq<Event>, k: nat, n: nat)
    requires Run(ss, es) && KeysInv(ss[0].core.q, ss[0].lastPut) && PutsAbove(ss, es) && k < n <= |es| && es[k].Put?
    ensures es[k].id <= ss[n].lastPut
    ensures Has(ss[n].core.q, es[k].id) ==>
              TextAt(ss[n].core.q, es[k].id) == FileText(es[k].id, es[k].topic, es[k].payload)
    decreases n
  {
    var id := es[k].id;
    LastPutNext(ss, es, n - 1);
    if n == k + 1 {
      RunKeysInv(ss, es, k);
      assert Follows(ss, es, k);
      NewestPutFacts(ss[k].core.q, id, es[k].topic, es[k].payload, es[k].putEnv);
    } else {
      StoredTextIsPut(ss, es, k, n - 1);
      if Has(ss[n].core.q, id) { NextText(ss, es, n - 1, id); }
    }
  }

  /** Over a run with increasing ids, whatever lies between, a peek that names the id of an
      earlier put returns the topic and payload of that put (of a long payload the part that
      the reader has room for). */
  lemma PeekReturnsThePut(ss: seq<Sys>, es: seq<Event>, k: nat, n: nat)
    requires Run(ss, es) && KeysInv(ss[0].core.q, ss[0].lastPut) && PutsAbove(ss, es) && k < n <= |es| && es[k].Put?
    requires es[k].id < SEQUENCE_LIMIT && OneLine(es[k].topic) && |es[k].topic| <= TOPIC_SIZE - 2
    ensures var peek := PeekQ(ss[n].core.q);
            peek.Record? && peek.id == es[k].id ==> peek.content == Content(es[k].topic, FirstPart(es[k].payload))
  {
    var q := ss[n].core.q;
    if PeekQ(q).Record? && PeekQ(q).id == es[k].id {
      RunKeysInv(ss, es, n);
      PeekedFacts(q);
      StoredTextIsPut(ss, es, k, n);
      ShortTopic(es[k].id, es[k].topic, es[k].payload);
    }
  }

  // ---- Replay safety: why a record can leave the store ----

  // `id` was below everything that its medium still holds.
  ghost predicate WasOldest(q: Queue, q': Queue, id: nat) {
    && (id in q.flash ==> forall x :: x in q'.flash ==> id < x)
    && (id in q.tf ==> forall x :: x in q'.tf ==> id < x)
  }

  /** The only reasons: the broker acknowledged the very message published for the record,
      topic and payload included; the platform, while the record was outstanding, accepted
      it or refused it for good; or it was counted as lost, older than all that its medium kept. */
  ghost predicate Cause(s: Sys, e: Event, id: nat) {
    match e
    case PubAck(msgId, _, _) =>
      && msgId in s.published && s.published[msgId].id == id
      && Has(s.core.q, id) && ReadContent(TextAt(s.core.q, id)) == Some(s.published[msgId].content)
    case Response(topic, accepted, code, _, _, _) =>
      Answers(s.core.u, AnswerFlag(topic)) && s.core.u.sequence == id && (accepted || NonRetryable(code))
    case Put(_, _, _, _) => Step(s, e).core.q.dataLoss > s.core.q.dataLoss && WasOldest(s.core.q, Step(s, e).core.q, id)
    case Boot(_, _) => Step(s, e).core.q.dataLoss > 0 && WasOldest(s.core.q, Step(s, e).core.q, id)
    case Replay(_) => false
    case Lost => false
  }

  lemma StepCause(s: Sys, e: Event, id: nat)
    requires Inv(s) && Ordered(s, e)
    requires Has(s.core.q, id) && !Has(Step(s, e).core.q, id)
    ensures Cause(s, e, id)
  {
    match e {
      case Put(n, topic, payload, env) =>
        PutFacts(s.core.q, n, topic, payload, env);
        NewestPutFacts(s.core.q, n, topic, payload, env);
      case Replay(env) => ReplayKeepsQueue(s.core, env);
      case Boot(_, unlink) => PrunedFacts(s.core.q.flash, unlink, 0);
      case Lost =>
      case PubAck(msgId, _, _) =>
        TargetedRemoval(s.core, e);
        assert SlotInv(s, s.core.slots[FirstCarrying(s.core.slots, msgId)]);
      case Response(_, _, _, _, _, _) => TargetedRemoval(s.core, e);
    }
  }

  ghost predicate LeavesAt(ss: seq<Sys>, es: seq<Event>, k: nat, id: nat)
    requires k < |es| < |ss|
  {
    Has(ss[k].core.q, id) && Cause(ss[k], es[k], id)
  }

  /** A record is still there at the end of a run, or left at some step for one of the causes;
      timeouts, retryable rejections, failed sends and connection losses retain it. */
  lemma {:induction false} RecordLeavesOnlyForCause(ss: seq<Sys>, es: seq<Event>, n: nat, id: nat)
    requires Run(ss, es) && Inv(ss[0]) && OrderedRun(ss, es) && n <= |es|
    ensures Has(ss[0].core.q, id) ==> Has(ss[n].core.q, id) || exists k: nat :: k < n && LeavesAt(ss, es, k, id)
  {
    if Has(ss[0].core.q, id) && !Has(ss[n].core.q, id) {
      var k := LastHeld(ss, es, n, id);
      RunInv(ss, es, k);
      assert Follows(ss, es, k);
      StepCause(ss[k], es[k], id);
      assert LeavesAt(ss, es, k, id);
    }
  }

  lemma {:induction false} LastHeld(ss: seq<Sys>, es: seq<Event>, n: nat, id: nat) returns (k: nat)
    requires Run(ss, es) && n <= |es| && Has(ss[0].core.q, id) && !Has(ss[n].core.q, id)
    ensures k < n && Has(ss[k].core.q, id) && !Has(ss[k + 1].core.q, id)
  {
    k := n - 1;
    if !Has(ss[k].core.q, id) { k := LastHeld(ss, es, k, id); }
  }

  // ---- Ordered release ----

  // At most every id in reach.
  ghost predicate BelowVisible(q: Queue, id: nat) {
    (forall x :: x in q.flash ==> id <= x) && (q.tfMounted ==> forall x :: x in q.tf ==> id <= x)
  }

  ghost predicate BelowHidden(q: Queue, id: nat) { !q.tfMounted ==> forall x :: x in q.tf ==> id < x }

  /** What is released lies below every id on a card out of sight. */
  ghost predicate ReleaseBelowHidden(s: Sys, e: Event) {
    RemovedBy(s.core, e).Some? ==> BelowHidden(s.core.q, RemovedBy(s.core, e).value)
  }

  ghost predicate ReleasesBelowHidden(ss: seq<Sys>, es: seq<Event>)
    requires |ss| > |es|
  {
    forall k :: 0 <= k < |es| ==> ReleaseBelowHidden(ss[k], es[k])
  }

  ghost predicate PendingBelow(s: Sys) {
    && (forall i :: 0 <= i < |s.core.slots| && s.core.slots[i].active ==> BelowVisible(s.core.q, s.core.slots[i].token))
    && (s.core.u.outstanding ==> BelowVisible(s.core.q, s.core.u.sequence))
  }

  ghost predicate Ascending(ids: seq<nat>) { forall i, j :: 0 <= i < j < |ids| ==> ids[i] < ids[j] }

  ghost predicate RemovedBelow(s: Sys) {
    && Ascending(s.removed)
    && (forall i, x :: 0 <= i < |s.removed| && Has(s.core.q, x) ==> s.removed[i] < x)
    && (forall i :: 0 <= i < |s.removed| ==> s.removed[i] <= s.lastPut)
  }

  ghost predicate ReleaseInv(s: Sys) { Inv(s) && PendingBelow(s) && RemovedBelow(s) }

  lemma BelowStays(s: Sys, e: Event, id: nat)
    requires KeysInv(s.core.q, s.lastPut) && PutAbove(s, e) && !e.Boot? && id <= s.lastPut && BelowVisible(s.core.q, id)
    ensures BelowVisible(CoreAfter(s.core, e).q, id)
  {
    StepGrows(s.core, e);
  }

  lemma PeekedBelow(q: Queue)
    requires PeekQ(q).Record?
    ensures BelowVisible(q, PeekQ(q).id)
  {
    SomeKey(q.flash);
    SomeKey(q.tf);
  }

  lemma SlotPending(s: Sys, e: Event, i: nat)
    requires ReleaseInv(s) && Ordered(s, e) && i < MAX_TRACKED
    ensures |CoreAfter(s.core, e).slots| == MAX_TRACKED
    ensures CoreAfter(s.core, e).slots[i].active ==> BelowVisible(CoreAfter(s.core, e).q, CoreAfter(s.core, e).slots[i].token)
  {
    SlotsAfter(s.core, e, i);
    var t := CoreAfter(s.core, e).slots[i];
    if t.active {
      if t == s.core.slots[i] && !e.Boot? {
        assert SlotInv(s, t);
        BelowStays(s, e, t.token);
      } else if !e.Boot? {
        PeekedBelow(s.core.q);
        ReplayKeepsQueue(s.core, e.replayEnv);
      }
    }
  }

  lemma OutstandingPending(s: Sys, e: Event)
    requires ReleaseInv(s) && Ordered(s, e)
    ensures CoreAfter(s.core, e).u.outstanding ==> BelowVisible(CoreAfter(s.core, e).q, CoreAfter(s.core, e).u.sequence)
  {
    if PeekQ(s.core.q).Record? { PeekedBelow(s.core.q); }
    if s.core.u.outstanding && !e.Boot? { BelowStays(s, e, s.core.u.sequence); }
    if e.Replay? { ReplayKeepsQueue(s.core, e.replayEnv); }
  }

  lemma StepPending(s: Sys, e: Event)
    requires ReleaseInv(s) && Ordered(s, e)
    ensures PendingBelow(Step(s, e))
  {
    var s' := Step(s, e);
    forall i | 0 <= i < |s'.core.slots| && s'.core.slots[i].active
      ensures BelowVisible(s'.core.q, s'.core.slots[i].token)
    {
      SlotPending(s, e, i);
    }
    OutstandingPending(s, e);
  }

  // What an event removes was pending, so it lies below everything in reach.
  lemma TargetBelow(s: Sys, e: Event)
    requires ReleaseInv(s) && Ordered(s, e) && Target(s.core, e).Some?
    ensures BelowVisible(s.core.q, Target(s.core, e).value) && Target(s.core, e).value <= s.lastPut
  {
    if e.PubAck? {
      var k := FirstCarrying(s.core.slots, e.msgId);
      assert SlotInv(s, s.core.slots[k]) && s.core.slots[k].active;
    }
  }

  lemma StepRemoved(s: Sys, e: Event)
    requires ReleaseInv(s) && Ordered(s, e) && ReleaseBelowHidden(s, e)
    ensures RemovedBelow(Step(s, e))
  {
    forall x: nat | Has(CoreAfter(s.core, e).q, x)
      ensures Has(s.core.q, x) || (e.Put? && x == e.id && x > s.lastPut)
    {
      NoNewRecord(s, e, x);
    }
    if RemovedBy(s.core, e).Some? {
      TargetBelow(s, e);
      RemovedExtends(s, RemovedBy(s.core, e).value, Step(s, e));
    }
  }

  lemma NoNewRecord(s: Sys, e: Event, x: nat)
    requires PutAbove(s, e) && Has(CoreAfter(s.core, e).q, x)
    ensures Has(s.core.q, x) || (e.Put? && x == e.id && x > s.lastPut)
  {
    StepGrows(s.core, e);
  }

  // Appending an id below everything stored and above everything removed.
  lemma RemovedExtends(s: Sys, id: nat, s': Sys)
    requires RemovedBelow(s) && s'.removed == s.removed + [id] && s'.lastPut == s.lastPut
    requires Has(s.core.q, id) && BelowVisible(s.core.q, id) && BelowHidden(s.core.q, id) && id <= s.lastPut
    requires !Has(s'.core.q, id) && forall x :: Has(s'.core.q, x) ==> Has(s.core.q, x)
    ensures RemovedBelow(s')
  {
    forall x | Has(s'.core.q, x) ensures id < x {
      assert x != id && Has(s.core.q, x);
    }
  }

  lemma StepReleaseInv(s: Sys, e: Event)
    requires ReleaseInv(s) && Ordered(s, e) && ReleaseBelowHidden(s, e)
    ensures ReleaseInv(Step(s, e))
  {
    StepInv(s, e);
    StepPending(s, e);
    StepRemoved(s, e);
  }

  lemma NextReleaseInv(ss: seq<Sys>, es: seq<Event>, k: nat)
    requires Run(ss, es) && 0 < k <= |es| && ReleaseInv(ss[k - 1])
    requires Ordered(ss[k - 1], es[k - 1]) && ReleaseBelowHidden(ss[k - 1], es[k - 1])
    ensures ReleaseInv(ss[k])
  {
    assert Follows(ss, es, k - 1);
    StepReleaseInv(ss[k - 1], es[k - 1]);
  }

  /** The ids that replay removes over a whole run form a strictly increasing sequence, whatever
      timeouts, retransmissions, late acknowledgements, evictions, reconnects and restarts lie
      between, if each lies below what is out of sight when it is released. */
  lemma {:induction false} ReleasedInOrder(ss: seq<Sys>, es: seq<Event>, k: nat)
    requires Run(ss, es) && ReleaseInv(ss[0]) && OrderedRun(ss, es) && ReleasesBelowHidden(ss, es) && k <= |es|
    ensures ReleaseInv(ss[k]) && Ascending(ss[k].removed)
  {
    if k == 0 {
    } else {
      ReleasedInOrder(ss, es, k - 1);
      NextReleaseInv(ss, es, k);
    }
  }

  // A boot that sees the card, one publish and its acknowledgement release the smallest id.
  lemma SmallestReleased(s: Sys, x: nat)
    requires Disjoint(s.core.q) && x in s.core.q.tf
    ensures var booted := Step(s, Boot(true, _ => false));
            PeekQ(booted.core.q).Record? ==>
              var y := PeekQ(booted.core.q).id;
              y <= x && Step(Step(booted, ToBroker(0)), AckedByBroker()).removed == s.removed + [y]
  {
    var booted := Step(s, Boot(true, _ => false));
    assert booted.core.q == Queue(s.core.q.flash, s.core.q.tf, true, 0) && booted.removed == s.removed;
    if PeekQ(booted.core.q).Record? {
      PeekedBelow(booted.core.q);
      PublishAndAck(booted, 0);
    }
  }

  lemma HiddenUntouched(s: Sys, e: Event)
    requires Disjoint(s.core.q) && RemovedBy(s.core, e).Some? && !s.core.q.tfMounted
    ensures Step(s, e).core.q.tf == s.core.q.tf && Disjoint(Step(s, e).core.q)
    ensures Step(s, e).removed == s.removed + [RemovedBy(s.core, e).value]
  {
    TargetedRemoval(s.core, e);
  }

  lemma NotAscending(ids: seq<nat>, r: nat, y: nat)
    requires y <= r
    ensures !Ascending(ids + [r, y])
  {
    var all := ids + [r, y];
    assert all[|ids|] == r && all[|ids| + 1] == y;
  }

  /** And only then: a release above an id on a hidden card can be followed by a boot that sees
      the card, one publish over the custom broker and its acknowledgement, and these release a
      smaller id after it. (If the oldest record cannot be read, nothing is released any more.) */
  lemma ReleaseAboveHiddenBreaks(s: Sys, e: Event)
    requires Disjoint(s.core.q) && !ReleaseBelowHidden(s, e)
    ensures var booted := Step(Step(s, e), Boot(true, _ => false));
            PeekQ(booted.core.q).Record? ==> !Ascending(Step(Step(booted, ToBroker(0)), AckedByBroker()).removed)
  {
    var r := RemovedBy(s.core, e).value;
    var x :| x in s.core.q.tf && x <= r;
    HiddenUntouched(s, e);
    SmallestReleased(Step(s, e), x);
    var booted := Step(Step(s, e), Boot(true, _ => false));
    if PeekQ(booted.core.q).Record? {
      var y := PeekQ(booted.core.q).id;
      NotAscending(s.removed, r, y);
      assert s.removed + [r] + [y] == s.removed + [r, y];
    }
  }

  // The device of the examples: a record published over the custom broker, and its acknowledgement.
  function ToBroker(now: int): Event { Replay(ReplayEnv(true, now, false, false, false, true, Done, 0)) }

  function AckedByBroker(): Event { PubAck(0, true, true) }

  function NoneTracked(): seq<Tracked> { seq(MAX_TRACKED, _ => Tracked(0, 0, false)) }

  ghost function Device(q: Queue, lastPut: int): Sys {
    Sys(Core(q, Uif(false, 0, false, 0, 0), NoneTracked()), lastPut, [], map[], 0)
  }

  lemma OnlyRecord(d: Dir, id: nat, text: string)
    requires d == map[id := text]
    ensures |d| == 1 && Oldest(d) == id && Without(d, id) == map[]
  {
    assert id in d && d.Keys == {id};
  }

  /** With no publish under way, the custom broker's acknowledgement of a record just published
      removes that record. */
  lemma PublishAndAck(s: Sys, now: int)
    requires PeekQ(s.core.q).Record? && !s.core.u.outstanding && now >= s.core.u.retryAfterMs
    requires |s.core.slots| == MAX_TRACKED && forall i :: 0 <= i < MAX_TRACKED ==> !s.core.slots[i].active
    ensures var id := PeekQ(s.core.q).id;
            var s' := Step(Step(s, ToBroker(now)), AckedByBroker());
            && s'.core.q == RemoveQ(s.core.q, id, true, true).0
            && (Disjoint(s.core.q) ==> s'.removed == s.removed + [id])
  {
    var id := PeekQ(s.core.q).id;
    var s1 := Step(s, ToBroker(now));
    PeekedFacts(s.core.q);
    assert FirstFree(s.core.slots) == 0;
    assert s1.core.q == s.core.q && s1.removed == s.removed;
    assert s1.core.slots == s.core.slots[0 := Tracked(0, id, true)];
    assert Carries(s1.core.slots[0], 0) && FirstCarrying(s1.core.slots, 0) == 0;
    assert Target(s1.core, AckedByBroker()) == Some(id);
  }

  // Record 2 in flash, record 1 on a card that the boot did not see.
  ghost function HiddenCard(text1: string, text2: string): Sys {
    Device(Queue(map[2 := text2], map[1 := text1], false, 0), 2)
  }

  lemma HiddenCardInv(text1: string, text2: string)
    ensures Inv(HiddenCard(text1, text2))
  {
    OnlyRecord(map[2 := text2], 2, text2);
    OnlyRecord(map[1 := text1], 1, text1);
  }

  lemma SecondReleased(text1: string, text2: string)
    requires ReadContent(text2).Some?
    ensures var after := Step(Step(HiddenCard(text1, text2), ToBroker(0)), AckedByBroker());
            after.core.q == Queue(map[], map[1 := text1], false, 0) && after.removed == [2]
  {
    OnlyRecord(map[2 := text2], 2, text2);
    HiddenCardInv(text1, text2);
    PublishAndAck(HiddenCard(text1, text2), 0);
  }

  /** Why ReleaseBelowHidden is needed: a boot that does not see the card releases record 2 before
      record 1, which the next boot finds again. */
  lemma HiddenCardBreaksOrder(text1: string, text2: string)
    requires ReadContent(text1).Some? && ReadContent(text2).Some?
    ensures var s := HiddenCard(text1, text2);
            var booted := Step(Step(Step(s, ToBroker(0)), AckedByBroker()), Boot(true, _ => false));
            Inv(s) && Step(Step(booted, ToBroker(0)), AckedByBroker()).removed == [2, 1]
  {
    HiddenCardInv(text1, text2);
    SecondReleased(text1, text2);
    FoundAgain(Step(Step(HiddenCard(text1, text2), ToBroker(0)), AckedByBroker()), text1);
  }

  lemma FoundAgain(s: Sys, text: string)
    requires ReadContent(text).Some? && s.core.q == Queue(map[], map[1 := text], false, 0)
    ensures var booted := Step(s, Boot(true, _ => false));
            Step(Step(booted, ToBroker(0)), AckedByBroker()).removed == s.removed + [1]
  {
    OnlyRecord(map[1 := text], 1, text);
    var booted := Step(s, Boot(true, _ => false));
    assert booted.core.q == Queue(map[], map[1 := text], true, 0);
    PublishAndAck(booted, 0);
  }

  // ---- Platform answers: which take effect, and on which record ----

  // The id that a replay attempt puts on its way.
  ghost function SentId(c: Core, e: Event): Option<nat> {
    if e.Replay? && Due(c.u, e.replayEnv) && PeekQ(c.q).Record? && Sent(c, PeekQ(c.q), e.replayEnv).1 == Done
    then Some(PeekQ(c.q).id)
    else None
  }

  /** What each event of a run sends. */
  ghost function Sends(ss: seq<Sys>, es: seq<Event>): (r: seq<Option<nat>>)
    requires |ss| > |es|
    ensures |r| == |es|
  {
    seq(|es|, k requires 0 <= k < |es| => SentId(ss[k].core, es[k]))
  }

  /** The last send before n. */
  function LastSend(sends: seq<Option<nat>>, n: nat): (k: Option<nat>)
    requires n <= |sends|
    ensures k.Some? ==> k.value < n && sends[k.value].Some?
  {
    if n == 0 then None else if sends[n - 1].Some? then Some(n - 1) else LastSend(sends, n - 1)
  }

  lemma StepSent(c: Core, e: Event)
    ensures CoreAfter(c, e).u.outstanding ==>
              var u, u' := c.u, CoreAfter(c, e).u;
              if SentId(c, e).Some? then
                SentId(c, e) == Some(u'.sequence)
                && (e.replayEnv.thingscloud ==> u'.gatewayTopic == e.replayEnv.gatewayMode)
              else u.outstanding && u'.sequence == u.sequence && u'.gatewayTopic == u.gatewayTopic
  {}

  // The outstanding record is that of the last send, awaited on the topic noted then.
  ghost predicate FromSend(u: Uif, sends: seq<Option<nat>>, es: seq<Event>, n: nat)
    requires n <= |sends| == |es|
  {
    u.outstanding ==>
      var k := LastSend(sends, n);
      && k.Some? && sends[k.value] == Some(u.sequence)
      && es[k.value].Replay?
      && (es[k.value].replayEnv.thingscloud ==> u.gatewayTopic == es[k.value].replayEnv.gatewayMode)
  }

  lemma NextFromSend(ss: seq<Sys>, es: seq<Event>, k: nat)
    requires Run(ss, es) && k < |es| && FromSend(ss[k].core.u, Sends(ss, es), es, k)
    ensures FromSend(ss[k + 1].core.u, Sends(ss, es), es, k + 1)
  {
    assert Follows(ss, es, k);
    StepSent(ss[k].core, es[k]);
  }

  lemma {:induction false} OutstandingIsLastSent(ss: seq<Sys>, es: seq<Event>, n: nat)
    requires Run(ss, es) && !ss[0].core.u.outstanding && n <= |es|
    ensures FromSend(ss[n].core.u, Sends(ss, es), es, n)
  {
    if n == 0 {
    } else {
      OutstandingIsLastSent(ss, es, n - 1);
      NextFromSend(ss, es, n - 1);
    }
  }

  /** Over whole runs: while a record is outstanding, the platform's answer to its own publish
      takes effect if and only if the report mode changed between the replay's read of it and
      the platform client's. */
  lemma OwnAnswerTakesEffectIff(ss: seq<Sys>, es: seq<Event>, n: nat, topic: CloudTopic)
    requires Run(ss, es) && !ss[0].core.u.outstanding && n <= |es| && ss[n].core.u.outstanding
    ensures var k := LastSend(Sends(ss, es), n);
            && k.Some? && es[k.value].Replay? && Sends(ss, es)[k.value] == Some(ss[n].core.u.sequence)
            && var env := es[k.value].replayEnv;
               env.thingscloud && topic == PublishTopic(env.gatewayModeAtSend) ==>
                 (Answers(ss[n].core.u, AnswerFlag(topic)) <==> env.gatewayMode != env.gatewayModeAtSend)
  {
    OutstandingIsLastSent(ss, es, n);
  }

  // An answer that asks for a removal, with a store able to carry it out.
  ghost predicate CanRemove(c: Core, e: Event) {
    && e.Response? && (e.accepted || NonRetryable(e.code))
    && Disjoint(c.q) && (c.q.tfMounted || |c.q.tf| == 0) && Has(c.q, c.u.sequence)
    && e.respFlashOk && e.respTfOk
  }

  ghost predicate RemovesOnly(c: Core, e: Event, r: nat) {
    forall x: nat :: Has(c.q, x) && !Has(CoreAfter(c, e).q, x) ==> x == r
  }

  /** An answer to r removes r or nothing exactly when it takes no effect or r is outstanding. */
  lemma AnswerHitsIff(c: Core, e: Event, r: nat)
    requires CanRemove(c, e)
    ensures RemovesOnly(c, e, r) <==> !Answers(c.u, AnswerFlag(e.answerTopic)) || r == c.u.sequence
  {
    SomeKey(c.q.tf);
    if Answers(c.u, AnswerFlag(e.answerTopic)) {
      var q' := CoreAfter(c, e).q;
      assert q' == RemoveQ(c.q, c.u.sequence, true, true).0;
      assert Has(c.q, c.u.sequence) && !Has(q', c.u.sequence);
    }
  }

  // `j` is the last send of r before n.
  predicate LastSendOf(sends: seq<Option<nat>>, j: nat, n: nat, r: nat) {
    j < n <= |sends| && sends[j] == Some(r) && forall k: nat :: j < k < n ==> sends[k] != Some(r)
  }

  predicate NothingSentBetween(sends: seq<Option<nat>>, j: nat, n: nat)
    requires n <= |sends|
  {
    forall k: nat :: j < k < n ==> sends[k].None?
  }

  lemma {:induction false} LastSendIff(sends: seq<Option<nat>>, j: nat, n: nat, r: nat)
    requires LastSendOf(sends, j, n, r)
    ensures LastSend(sends, n).Some? && LastSend(sends, n).value >= j
    ensures sends[LastSend(sends, n).value] == Some(r) <==> NothingSentBetween(sends, j, n)
    decreases n
  {
    if n == j + 1 {
    } else if sends[n - 1].None? {
      LastSendIff(sends, j, n - 1, r);
    }
  }

  /** Over whole runs: the platform's answer to the last publish of r (made at j) removes r or
      nothing if and only if nothing was sent since, or the mode r was published in is the one
      that the last send (at k) was noted in. */
  lemma AnswerHitsOwnIff(ss: seq<Sys>, es: seq<Event>, j: nat, n: nat, r: nat)
    requires Run(ss, es) && !ss[0].core.u.outstanding && n < |es|
    requires LastSendOf(Sends(ss, es), j, n, r) && ss[n].core.u.outstanding && CanRemove(ss[n].core, es[n])
    requires es[j].Replay? && es[n].answerTopic == PublishTopic(es[j].replayEnv.gatewayModeAtSend)
    ensures var k := LastSend(Sends(ss, es), n);
            && k.Some? && es[k.value].Replay?
            && (es[k.value].replayEnv.thingscloud ==>
                  (RemovesOnly(ss[n].core, es[n], r) <==>
                     || NothingSentBetween(Sends(ss, es), j, n)
                     || es[j].replayEnv.gatewayModeAtSend == es[k.value].replayEnv.gatewayMode))
  {
    OutstandingIsLastSent(ss, es, n);
    LastSendIff(Sends(ss, es), j, n, r);
    AnswerHitsIff(ss[n].core, es[n], r);
  }

  /** Every replay goes to the platform, in one report mode. */
  ghost predicate FixedMode(es: seq<Event>, gatewayMode: bool) {
    forall e <- es :: e.Replay? ==>
      e.replayEnv.thingscloud && e.replayEnv.gatewayMode == gatewayMode && e.replayEnv.gatewayModeAtSend == gatewayMode
  }

  ghost predicate AwaitsIn(u: Uif, gatewayMode: bool) { u.outstanding ==> u.gatewayTopic == gatewayMode }

  lemma StepAwaits(c: Core, e: Event, gatewayMode: bool)
    requires AwaitsIn(c.u, gatewayMode)
    requires e.Replay? ==> e.replayEnv.thingscloud && e.replayEnv.gatewayMode == gatewayMode
    ensures AwaitsIn(CoreAfter(c, e).u, gatewayMode)
  {}

  lemma {:induction false} RunAwaits(ss: seq<Sys>, es: seq<Event>, gatewayMode: bool, n: nat)
    requires Run(ss, es) && FixedMode(es, gatewayMode) && AwaitsIn(ss[0].core.u, gatewayMode) && n <= |es|
    ensures AwaitsIn(ss[n].core.u, gatewayMode)
  {
    if n == 0 {
    } else {
      RunAwaits(ss, es, gatewayMode, n - 1);
      assert Follows(ss, es, n - 1);
      StepAwaits(ss[n - 1].core, es[n - 1], gatewayMode);
    }
  }

  lemma IgnoredAnswer(s: Sys, e: Event)
    requires e.Response? && !Answers(s.core.u, AnswerFlag(e.answerTopic))
    ensures Step(s, e) == s
  {}

  /** In a fixed report mode the answer to a replayed record, which comes on the topic the
      record was published on, never has any effect: the record is sent again and again. */
  lemma OwnAnswersIgnored(ss: seq<Sys>, es: seq<Event>, gatewayMode: bool, n: nat)
    requires Run(ss, es) && FixedMode(es, gatewayMode) && AwaitsIn(ss[0].core.u, gatewayMode)
    requires n < |es| && es[n].Response? && es[n].answerTopic == PublishTopic(gatewayMode)
    ensures ss[n + 1] == ss[n]
  {
    RunAwaits(ss, es, gatewayMode, n);
    assert Follows(ss, es, n);
    IgnoredAnswer(ss[n], es[n]);
  }

  ghost predicate NothingTracked(slots: seq<Tracked>) { forall i :: 0 <= i < |slots| ==> !slots[i].active }

  lemma StepReleasesNothing(s: Sys, e: Event)
    requires NothingTracked(s.core.slots) && AwaitsIn(s.core.u, true)
    requires e.Replay? ==> e.replayEnv.thingscloud
    requires e.Response? ==> Subscribed(true, e.answerTopic)
    ensures Step(s, e).removed == s.removed && NothingTracked(Step(s, e).core.slots)
  {}

  /** So in gateway mode, where only that topic is subscribed, replay releases no record at all,
      whatever the platform answers, over any run with restarts. */
  lemma {:induction false} GatewayModeReleasesNothing(ss: seq<Sys>, es: seq<Event>, n: nat)
    requires Run(ss, es) && FixedMode(es, true) && AwaitsIn(ss[0].core.u, true) && NothingTracked(ss[0].core.slots)
    requires forall e <- es :: e.Response? ==> Subscribed(true, e.answerTopic)
    requires n <= |es|
    ensures ss[n].removed == ss[0].removed && NothingTracked(ss[n].core.slots)
  {
    if n == 0 {
    } else {
      GatewayModeReleasesNothing(ss, es, n - 1);
      RunAwaits(ss, es, true, n - 1);
      assert Follows(ss, es, n - 1);
      StepReleasesNothing(ss[n - 1], es[n - 1]);
    }
  }

  /** In sub-device mode an answer takes effect if and only if a record is outstanding and the
      answer is to something else: it comes on the topic of the gateway's own status messages. */
  lemma SubdeviceModeAnswersIff(ss: seq<Sys>, es: seq<Event>, n: nat, topic: CloudTopic)
    requires Run(ss, es) && FixedMode(es, false) && AwaitsIn(ss[0].core.u, false) && n <= |es|
    ensures Answers(ss[n].core.u, AnswerFlag(topic)) <==> ss[n].core.u.outstanding && topic != PublishTopic(false)
  {
    RunAwaits(ss, es, false, n);
  }

  // A record sent to the platform in sub-device mode, and an accepted status message.
  function ToPlatform(now: int): Event { Replay(ReplayEnv(true, now, true, false, false, true, Done, 0)) }

  function StatusAccepted(now: int): Event { Response(Attributes, true, 0, now, true, true) }

  /** There, the answer to any status message removes the record just sent, which the platform
      may never have seen, and no loss is counted. */
  lemma StatusAnswerReleases(s: Sys, now: int, later: int)
    requires PeekQ(s.core.q).Record? && Disjoint(s.core.q) && !s.core.u.outstanding && now >= s.core.u.retryAfterMs
    ensures var id := PeekQ(s.core.q).id;
            var s' := Step(Step(s, ToPlatform(now)), StatusAccepted(later));
            s'.removed == s.removed + [id] && !Has(s'.core.q, id) && s'.core.q.dataLoss == s.core.q.dataLoss
  {
    PeekedFacts(s.core.q);
    var s1 := Step(s, ToPlatform(now));
    assert s1.core.q == s.core.q && s1.removed == s.removed;
    assert s1.core.u == Uif(true, PeekQ(s.core.q).id, false, now, s.core.u.retryAfterMs);
    assert Target(s1.core, StatusAccepted(later)) == Some(PeekQ(s.core.q).id);
  }

  // ---- Conservation over whole runs ----

  ghost predicate FreshPuts(ss: seq<Sys>, es: seq<Event>)
    requires |ss| > |es|
  {
    forall k :: 0 <= k < |es| && es[k].Put? ==> FreshId(ss[k].core.q, es[k].id)
  }

  /** Increasing ids are fresh. */
  lemma IncreasingPutsFresh(ss: seq<Sys>, es: seq<Event>)
    requires Run(ss, es) && KeysInv(ss[0].core.q, ss[0].lastPut) && PutsAbove(ss, es)
    ensures FreshPuts(ss, es)
  {
    forall k | 0 <= k < |es| && es[k].Put? ensures FreshId(ss[k].core.q, es[k].id) {
      RunKeysInv(ss, es, k);
    }
  }

  /** The ids of the first k events that are puts. */
  function PutIds(es: seq<Event>, k: nat): seq<nat>
    requires k <= |es|
  {
    if k == 0 then [] else PutIds(es, k - 1) + (if es[k - 1].Put? then [es[k - 1].id] else [])
  }

  lemma {:induction false} PutIdsPrefix(es: seq<Event>, k: nat, n: nat)
    requires k <= n <= |es|
    ensures PutIds(es, k) <= PutIds(es, n)
    decreases n
  {
    if k == n {
    } else {
      PutIdsPrefix(es, k, n - 1);
    }
  }

  lemma {:induction false} LastPutIs(ss: seq<Sys>, es: seq<Event>, k: nat)
    requires Run(ss, es) && k <= |es|
    ensures ss[k].lastPut == if |PutIds(es, k)| == 0 then ss[0].lastPut else PutIds(es, k)[|PutIds(es, k)| - 1]
  {
    if k == 0 {
    } else {
      LastPutIs(ss, es, k - 1);
      assert Follows(ss, es, k - 1);
    }
  }

  // A put finds its id next in the list of all.
  lemma NextPutAbove(ss: seq<Sys>, es: seq<Event>, k: nat)
    requires Run(ss, es) && k < |es| && Ascending(PutIds(es, |es|)) && forall i :: 0 <= i < |PutIds(es, |es|)| ==> PutIds(es, |es|)[i] > ss[0].lastPut
    ensures PutAbove(ss[k], es[k])
  {
    LastPutIs(ss, es, k);
    PutIdsPrefix(es, k + 1, |es|);
    if es[k].Put? {
      var before, all := PutIds(es, k), PutIds(es, |es|);
      assert PutIds(es, k + 1) == before + [es[k].id];
      assert all[|before|] == es[k].id;
      if |before| > 0 { assert all[|before| - 1] == before[|before| - 1]; }
    }
  }

  // `ids` are values of the counter at increasing positions: not every number reaches the cache.
  ghost predicate DrawnFrom(ids: seq<nat>, values: seq<nat>, at: seq<nat>) {
    && |at| == |ids| && Ascending(at)
    && forall i :: 0 <= i < |ids| ==> at[i] < |values| && ids[i] == values[at[i]]
  }

  /** Records numbered by the sequence counter, over any history of it with restarts and power
      cuts, are put in increasing order and under fresh ids, whichever of them are put at all. */
  lemma CounterPutsFresh(ss: seq<Sys>, es: seq<Event>, counter: Ids.Ids, history: seq<Ids.Event>, at: seq<nat>)
    requires Run(ss, es) && KeysInv(ss[0].core.q, ss[0].lastPut) && ss[0].lastPut <= counter.counter
    requires Ids.Covered(counter) && Ids.NvsAlwaysWorks(history)
    requires DrawnFrom(PutIds(es, |es|), Ids.Values(counter, history), at)
    ensures PutsAbove(ss, es) && FreshPuts(ss, es)
  {
    var ids := PutIds(es, |es|);
    Ids.ValuesAbove(counter, history);
    forall i, j | 0 <= i < j < |ids| ensures ids[i] < ids[j] { Ids.StrictlyIncreasing(counter, history, at[i], at[j]); }
    forall k | 0 <= k < |es| ensures PutAbove(ss[k], es[k]) { NextPutAbove(ss, es, k); }
    IncreasingPutsFresh(ss, es);
  }

  /** Stored, removed or counted as lost, now or before an earlier boot. */
  ghost function Accounted(s: Sys): nat {
    Stored(s.core.q) + |s.removed| + s.core.q.dataLoss + s.pastLoss
  }

  function PutCount(es: seq<Event>, k: nat): nat
    requires k <= |es|
  {
    if k == 0 then 0 else PutCount(es, k - 1) + (if es[k - 1].Put? then 1 else 0)
  }

  lemma StepAccounted(s: Sys, e: Event)
    requires Disjoint(s.core.q) && (e.Put? ==> FreshId(s.core.q, e.id))
    ensures Disjoint(Step(s, e).core.q)
    ensures Accounted(Step(s, e)) == Accounted(s) + (if e.Put? then 1 else 0)
  {
    StepGrows(s.core, e);
    match e {
      case Put(id, topic, payload, env) =>
        PutFacts(s.core.q, id, topic, payload, env);
        PutConserves(s.core.q, id, topic, payload, env);
      case Replay(env) => ReplayKeepsQueue(s.core, env);
      case Boot(tfMounted, unlink) => InitConserves(s.core.q.flash, s.core.q.tf, tfMounted, unlink);
      case Lost =>
      case _ => RemovalAccounted(s, e);
    }
  }

  // A removal deletes at most one file, and does so exactly when the record is gone.
  lemma RemovedOnce(q: Queue, id: nat, flashOk: bool, tfOk: bool)
    requires Disjoint(q)
    ensures var q' := RemoveQ(q, id, flashOk, tfOk).0;
            Stored(q) == Stored(q') + (if Has(q, id) && !Has(q', id) then 1 else 0)
  {
    WithoutSize(q.flash, id);
    WithoutSize(q.tf, id);
  }

  lemma RemovalAccounted(s: Sys, e: Event)
    requires Disjoint(s.core.q) && (e.PubAck? || e.Response?)
    ensures Accounted(Step(s, e)) == Accounted(s)
  {
    TargetedRemoval(s.core, e);
    if Target(s.core, e).Some? {
      var id := Target(s.core, e).value;
      var flashOk, tfOk :| CoreAfter(s.core, e).q == RemoveQ(s.core.q, id, flashOk, tfOk).0;
      RemovedOnce(s.core.q, id, flashOk, tfOk);
    }
  }

  /** Conservation over a whole run, boots included: what is accounted for grows by exactly
      one for each put, whichever branch the put takes. */
  lemma {:induction false} RunConserves(ss: seq<Sys>, es: seq<Event>, k: nat)
    requires Run(ss, es) && Disjoint(ss[0].core.q) && FreshPuts(ss, es) && k <= |es|
    ensures Disjoint(ss[k].core.q)
    ensures Accounted(ss[k]) == Accounted(ss[0]) + PutCount(es, k)
  {
    if k == 0 {
    } else {
      RunConserves(ss, es, k - 1);
      assert Follows(ss, es, k - 1);
      StepAccounted(ss[k - 1], es[k - 1]);
    }
  }

  // ---- The limits of the tracking table and of the custom-broker timeout ----

  /** A publish over the custom broker leads to a release exactly when a slot was free. */
  lemma ReleaseNeedsFreeSlot(c: Core, env: ReplayEnv)
    requires Publication(c, env).Some? && Disjoint(c.q)
    requires forall i :: 0 <= i < |c.slots| ==> !Carries(c.slots[i], env.msgId)
    ensures var id := Publication(c, env).value.id;
            var acked := BrokerAcked(Replayed(c, env).0, env.msgId, true, true);
            Has(c.q, id) && (!Has(acked.q, id) <==> exists i :: 0 <= i < |c.slots| && !c.slots[i].active)
  {
    PeekedFacts(c.q);
    var c1 := Replayed(c, env).0;
    var id := PeekQ(c.q).id;
    var k := FirstFree(c.slots);
    if k < |c.slots| {
      assert c1.slots == c.slots[k := Tracked(env.msgId, id, true)];
      assert Carries(c1.slots[k], env.msgId);
      assert AckedToken(c1.slots, env.msgId) == Some(id);
    } else {
      assert AckedToken(c1.slots, env.msgId) == None;
    }
  }

  function ActiveCount(slots: seq<Tracked>): (n: nat)
    ensures n <= |slots|
  {
    if |slots| == 0 then 0 else ActiveCount(slots[..|slots| - 1]) + (if slots[|slots| - 1].active then 1 else 0)
  }

  function One(b: bool): nat { if b then 1 else 0 }

  lemma {:induction false} ActiveUpdate(slots: seq<Tracked>, i: nat, t: Tracked)
    requires i < |slots|
    ensures ActiveCount(slots[i := t]) + One(slots[i].active) == ActiveCount(slots) + One(t.active)
    decreases |slots|
  {
    var n := |slots| - 1;
    if i == n {
      assert slots[i := t][..n] == slots[..n];
    } else {
      assert slots[i := t][..n] == slots[..n][i := t];
      ActiveUpdate(slots[..n], i, t);
    }
  }

  // An acknowledgement that finds its slot, and a publish that gets one.
  ghost predicate Acks(c: Core, e: Event) { e.PubAck? && AckedToken(c.slots, e.msgId).Some? }

  ghost predicate Claims(c: Core, e: Event) {
    e.Replay? && Publication(c, e.replayEnv).Some? && FirstFree(c.slots) < |c.slots|
  }

  lemma StepSlots(c: Core, e: Event)
    requires !e.Boot?
    ensures |CoreAfter(c, e).slots| == |c.slots|
    ensures ActiveCount(CoreAfter(c, e).slots) + One(Acks(c, e)) == ActiveCount(c.slots) + One(Claims(c, e))
  {
    if Acks(c, e) {
      var k := FirstCarrying(c.slots, e.msgId);
      ActiveUpdate(c.slots, k, c.slots[k].(active := false));
    } else if Claims(c, e) {
      var k := FirstFree(c.slots);
      ActiveUpdate(c.slots, k, Tracked(e.replayEnv.msgId, PeekQ(c.q).id, true));
    }
  }

  ghost predicate TakesAnswer(c: Core, e: Event) { e.Response? && Target(c, e).Some? }

  ghost function Counted(ss: seq<Sys>, es: seq<Event>, k: nat, what: (Core, Event) -> bool): nat
    requires k <= |es| < |ss|
  {
    if k == 0 then 0 else Counted(ss, es, k - 1, what) + One(what(ss[k - 1].core, es[k - 1]))
  }

  ghost predicate NoBoot(es: seq<Event>) { forall e <- es :: !e.Boot? }

  /** Slots are conserved over a run without a boot: those taken are those taken before, plus
      the publishes that got one, less the acknowledgements that found theirs. */
  lemma {:induction false} SlotsConserved(ss: seq<Sys>, es: seq<Event>, k: nat)
    requires Run(ss, es) && NoBoot(es) && k <= |es|
    ensures |ss[k].core.slots| == |ss[0].core.slots|
    ensures ActiveCount(ss[k].core.slots) + Counted(ss, es, k, Acks) == ActiveCount(ss[0].core.slots) + Counted(ss, es, k, Claims)
  {
    if k == 0 {
    } else {
      SlotsConserved(ss, es, k - 1);
      assert Follows(ss, es, k - 1);
      StepSlots(ss[k - 1].core, es[k - 1]);
    }
  }

  lemma StepReleases(s: Sys, e: Event)
    ensures |Step(s, e).removed| <= |s.removed| + One(Acks(s.core, e)) + One(TakesAnswer(s.core, e))
  {}

  lemma {:induction false} ReleasesBounded(ss: seq<Sys>, es: seq<Event>, k: nat)
    requires Run(ss, es) && k <= |es|
    ensures |ss[k].removed| <= |ss[0].removed| + Counted(ss, es, k, Acks) + Counted(ss, es, k, TakesAnswer)
  {
    if k == 0 {
    } else {
      ReleasesBounded(ss, es, k - 1);
      assert Follows(ss, es, k - 1);
      StepReleases(ss[k - 1], es[k - 1]);
    }
  }

  /** From a full table, over any run without a boot, a publish gets a slot only for an earlier
      acknowledgement: connection losses, timeouts and retries free nothing. */
  lemma FullTableWaitsForAcks(ss: seq<Sys>, es: seq<Event>, k: nat)
    requires Run(ss, es) && NoBoot(es) && k <= |es| && ActiveCount(ss[0].core.slots) == |ss[0].core.slots|
    ensures Counted(ss, es, k, Claims) <= Counted(ss, es, k, Acks)
  {
    SlotsConserved(ss, es, k);
  }

  /** And the custom broker releases no more records than slots were taken for. */
  lemma ReleasesWereClaimed(ss: seq<Sys>, es: seq<Event>, k: nat)
    requires Run(ss, es) && NoBoot(es) && k <= |es|
    ensures |ss[k].removed| <=
              |ss[0].removed| + ActiveCount(ss[0].core.slots) + Counted(ss, es, k, Claims) + Counted(ss, es, k, TakesAnswer)
  {
    SlotsConserved(ss, es, k);
    ReleasesBounded(ss, es, k);
  }

  /** A custom-broker publish never stamps its time. Whether the next attempt waits for the
      acknowledgement or gives it up as timed out is decided by the stamp left before. */
  lemma BrokerWaitIff(c: Core, env: ReplayEnv, again: ReplayEnv)
    requires Publication(c, env).Some? && FirstFree(c.slots) < |c.slots|
    requires again.connected && !again.thingscloud && again.msgId >= 0
    ensures var c1 := Replayed(c, env).0;
            && c1.u.sentMs == c.u.sentMs
            && (Replayed(c1, again) == (c1, Done) <==> again.now < c.u.sentMs + RESPONSE_TIMEOUT_MS)
  {}
}
