/** Replay of cached records and the release of acknowledged ones
    (main/uif/uif_persistence.c), with the table that ties a broker message id to the record
    it carried (main/mqtt_comm/mqtt_handler.c). Every critical section is one step. */
module UifReplay {
  import opened Wrappers
  import opened OfflineRecord
  import opened OfflineStore

  const MAX_TRACKED := 32
  const RESPONSE_TIMEOUT_MS := 20000
  const REJECT_RETRY_MS := 60000
  const PACING_RETRY_MS := 30000
  const POISON_RETRY_MS := 1000

  datatype Status = Done | InvalidState | TimedOut | InvalidResponse | Failed | NoMem

  // ---- The table of tracked publishes ----

  datatype Tracked = Tracked(msgId: int, token: nat, active: bool)

  function FirstFree(slots: seq<Tracked>): (k: nat)
    ensures k <= |slots| && forall i :: 0 <= i < k ==> slots[i].active
    ensures k < |slots| ==> !slots[k].active
  {
    FirstWhere(slots, (t: Tracked) => !t.active, 0)
  }

  predicate Carries(t: Tracked, msgId: int) { t.active && t.msgId == msgId }

  function FirstCarrying(slots: seq<Tracked>, msgId: int): (k: nat)
    ensures k <= |slots| && forall i :: 0 <= i < k ==> !Carries(slots[i], msgId)
    ensures k < |slots| ==> Carries(slots[k], msgId)
  {
    FirstWhere(slots, (t: Tracked) => Carries(t, msgId), 0)
  }

  // What a publish leaves; a negative id means that the client refused it.
  function TrackedAfterPublish(slots: seq<Tracked>, msgId: int, token: nat): seq<Tracked> {
    if msgId < 0 || FirstFree(slots) == |slots| then slots
    else slots[FirstFree(slots) := Tracked(msgId, token, true)]
  }

  function PublishStatus(slots: seq<Tracked>, msgId: int): Status {
    if msgId < 0 then Failed else if FirstFree(slots) == |slots| then NoMem else Done
  }

  function AckedToken(slots: seq<Tracked>, msgId: int): Option<nat> {
    var k := FirstCarrying(slots, msgId);
    if k < |slots| then Some(slots[k].token) else None
  }

  function TrackedAfterAck(slots: seq<Tracked>, msgId: int): seq<Tracked> {
    var k := FirstCarrying(slots, msgId);
    if k < |slots| then slots[k := slots[k].(active := false)] else slots
  }

  class MqttTracker {
    const slots: array<Tracked>

    constructor ()
      ensures fresh(slots) && slots.Length == MAX_TRACKED
      ensures forall i :: 0 <= i < MAX_TRACKED ==> !slots[i].active
    {
      slots := new Tracked[MAX_TRACKED](_ => Tracked(0, 0, false));
    }

    /** `msgId` is the client's answer to the publish, which has already been made when the
        table turns out to be full. */
    method PublishTracked(msgId: int, token: nat) returns (status: Status)
      modifies slots
      ensures slots[..] == TrackedAfterPublish(old(slots[..]), msgId, token)
      ensures status == PublishStatus(old(slots[..]), msgId)
    {
      if msgId < 0 { return Failed; }
      var i := 0;
      while i < slots.Length && slots[i].active
        invariant 0 <= i <= slots.Length
        invariant forall j :: 0 <= j < i ==> slots[j].active
      {
        i := i + 1;
      }
      ghost var before := slots[..];
      assert i == FirstFree(before);
      if i == slots.Length { return NoMem; }
      slots[i] := Tracked(msgId, token, true);
      return Done;
    }

    /** MQTT_EVENT_PUBLISHED: the token of the acknowledged message, for the callback. */
    method OnPublished(msgId: int) returns (token: Option<nat>)
      modifies slots
      ensures slots[..] == TrackedAfterAck(old(slots[..]), msgId)
      ensures token == AckedToken(old(slots[..]), msgId)
    {
      var i := 0;
      while i < slots.Length && !(slots[i].active && slots[i].msgId == msgId)
        invariant 0 <= i <= slots.Length
        invariant forall j :: 0 <= j < i ==> !Carries(slots[j], msgId)
      {
        i := i + 1;
      }
      ghost var before := slots[..];
      assert i == FirstCarrying(before, msgId);
      token := None;
      if i < slots.Length {
        token := Some(slots[i].token);
        slots[i] := slots[i].(active := false);
      }
    }
  }

  // ---- The replay state machine ----

  datatype Uif = Uif(outstanding: bool, sequence: nat, gatewayTopic: bool, sentMs: int, retryAfterMs: int)

  datatype Core = Core(q: Queue, u: Uif, slots: seq<Tracked>)

  /** What one replay attempt meets: the connection, the clock, the configured platform, the
      report mode as read by the replay and again by the platform client, whether the payload
      parses, the platform client's answer and the broker client's message id. */
  datatype ReplayEnv = ReplayEnv(
    connected: bool, now: int, thingscloud: bool, gatewayMode: bool, gatewayModeAtSend: bool,
    parses: bool, sent: Status, msgId: int)

  /** The two topics of platform telemetry; the answer to a publish comes on the same topic
      with a suffix. */
  datatype CloudTopic = Attributes | GatewayAttributes

  /** Where the platform client publishes in a report mode: in gateway mode as attributes of
      the gateway itself, else on behalf of sub-devices. */
  function PublishTopic(gatewayMode: bool): CloudTopic { if gatewayMode then Attributes else GatewayAttributes }

  /** What the handler of an answer topic tells the replay. */
  function AnswerFlag(topic: CloudTopic): bool { topic.GatewayAttributes? }

  /** Which answers a connection made in a report mode can receive. */
  predicate Subscribed(gatewayMode: bool, topic: CloudTopic) { topic.Attributes? || !gatewayMode }

  function Idle(u: Uif): Uif { u.(outstanding := false, sequence := 0, sentMs := 0) }

  function Awaiting(u: Uif, now: int): bool {
    u.outstanding && now - u.sentMs < RESPONSE_TIMEOUT_MS
  }

  function Expired(u: Uif, now: int): Uif {
    if u.outstanding then u.(outstanding := false, retryAfterMs := now + REJECT_RETRY_MS) else u
  }

  function CloudSent(c: Core, id: nat, env: ReplayEnv): (Core, Status) {
    if !env.parses then (c, InvalidResponse)
    else
      var u := c.u.(sequence := id, gatewayTopic := env.gatewayMode, sentMs := env.now, outstanding := true);
      if env.sent == Done then (c.(u := u), Done)
      else (c.(u := u.(outstanding := false, retryAfterMs := env.now + PACING_RETRY_MS)), env.sent)
  }

  function BrokerSent(c: Core, id: nat, env: ReplayEnv): (Core, Status) {
    var status := PublishStatus(c.slots, env.msgId);
    (c.(u := c.u.(sequence := id, outstanding := status == Done),
        slots := TrackedAfterPublish(c.slots, env.msgId, id)), status)
  }

  function Sent(c: Core, peek: Peek, env: ReplayEnv): (Core, Status) {
    match peek
    case Absent => (c, Done)
    case Unreadable => (c, Failed)
    case Record(id, _, _) => if env.thingscloud then CloudSent(c, id, env) else BrokerSent(c, id, env)
  }

  ghost function Replayed(c: Core, env: ReplayEnv): (Core, Status) {
    if !env.connected then (c, InvalidState)
    else if Awaiting(c.u, env.now) then (c, Done)
    else
      var c1 := c.(u := Expired(c.u, env.now));
      if env.now < c1.u.retryAfterMs then (c1, TimedOut) else Sent(c1, PeekQ(c.q), env)
  }

  ghost function Acknowledged(c: Core, id: nat, flashOk: bool, tfOk: bool): Core {
    c.(q := RemoveQ(c.q, id, flashOk, tfOk).0, u := if c.u.sequence == id then Idle(c.u) else c.u)
  }

  predicate NonRetryable(code: int) { code == 402 || code == 406 || code == 413 }

  predicate Answers(u: Uif, gatewayTopic: bool) { u.outstanding && gatewayTopic == u.gatewayTopic }

  ghost function Responded(c: Core, gatewayTopic: bool, accepted: bool, code: int, now: int, flashOk: bool, tfOk: bool): Core {
    if !Answers(c.u, gatewayTopic) then c
    else if accepted then
      var c1 := Acknowledged(c, c.u.sequence, flashOk, tfOk);
      c1.(u := c1.u.(retryAfterMs := 0))
    else if NonRetryable(code) then
      c.(q := RemoveQ(c.q, c.u.sequence, flashOk, tfOk).0, u := Idle(c.u).(retryAfterMs := now + POISON_RETRY_MS))
    else c.(u := Idle(c.u).(retryAfterMs := now + REJECT_RETRY_MS))
  }

  ghost function BrokerAcked(c: Core, msgId: int, flashOk: bool, tfOk: bool): Core {
    var c1 := c.(slots := TrackedAfterAck(c.slots, msgId));
    match AckedToken(c.slots, msgId)
    case None => c1
    case Some(token) => Acknowledged(c1, token, flashOk, tfOk)
  }

  class Replayer {
    const store: Store
    const tracker: MqttTracker
    var outstanding: bool
    var sequence: nat
    var gatewayTopic: bool
    var sentMs: int
    var retryAfterMs: int

    ghost predicate Valid()
      reads this, store, store.flash, store.tf
    {
      store.Valid()
    }

    ghost function U(): Uif
      reads this
    {
      Uif(outstanding, sequence, gatewayTopic, sentMs, retryAfterMs)
    }

    ghost function Abs(): Core
      reads this, store, store.flash, store.tf, tracker.slots
    {
      Core(store.Abs(), U(), tracker.slots[..])
    }

    constructor (store: Store, tracker: MqttTracker)
      requires store.Valid()
      ensures Valid() && this.store == store && this.tracker == tracker
      ensures U() == Uif(false, 0, false, 0, 0)
    {
      this.store, this.tracker := store, tracker;
      outstanding, sequence, gatewayTopic, sentMs, retryAfterMs := false, 0, false, 0, 0;
    }

    /** uif_replay_all: at most one record is on its way. */
    method ReplayAll(env: ReplayEnv) returns (status: Status)
      requires Valid()
      modifies this, store.flash, store.tf, tracker.slots
      ensures Valid()
      ensures var (c, st) := Replayed(old(Abs()), env);
              store.Abs() == c.q && U() == c.u && tracker.slots[..] == c.slots && status == st
    {
      if !env.connected { return InvalidState; }
      if outstanding {
        if env.now - sentMs < RESPONSE_TIMEOUT_MS { return Done; }
        outstanding, retryAfterMs := false, env.now + REJECT_RETRY_MS;
      }
      if env.now < retryAfterMs { return TimedOut; }
      var peek := store.PeekOldest();
      status := Send(peek, env);
    }

    // The attempt once a record has been peeked.
    method Send(peek: Peek, env: ReplayEnv) returns (status: Status)
      modifies this, tracker.slots
      ensures var (c, st) := Sent(old(Abs()), peek, env);
              U() == c.u && tracker.slots[..] == c.slots && status == st
    {
      match peek {
        case Absent => return Done;
        case Unreadable => return Failed;
        case Record(id, _, _) =>
          if env.thingscloud {
            if !env.parses { return InvalidResponse; }
            sequence, gatewayTopic, sentMs, outstanding := id, env.gatewayMode, env.now, true;
            if env.sent != Done {
              outstanding, retryAfterMs := false, env.now + PACING_RETRY_MS;
            }
            return env.sent;
          }
          sequence, outstanding := id, true;
          status := tracker.PublishTracked(env.msgId, id);
          if status != Done { outstanding := false; }
      }
    }

    /** replay_acknowledged. */
    method ReplayAcknowledged(id: nat, flashOk: bool, tfOk: bool)
      requires Valid()
      modifies this, store, store.flash, store.tf
      ensures Valid()
      ensures var c := Acknowledged(old(Abs()), id, flashOk, tfOk);
              store.Abs() == c.q && U() == c.u && tracker.slots[..] == c.slots
    {
      var removed := store.Remove(id, flashOk, tfOk);
      if sequence == id {
        outstanding, sequence, sentMs := false, 0, 0;
      }
    }

    /** MQTT_EVENT_PUBLISHED with the acknowledgement callback. */
    method BrokerAck(msgId: int, flashOk: bool, tfOk: bool)
      requires Valid()
      modifies this, store, store.flash, store.tf, tracker.slots
      ensures Valid()
      ensures var c := BrokerAcked(old(Abs()), msgId, flashOk, tfOk);
              store.Abs() == c.q && U() == c.u && tracker.slots[..] == c.slots
    {
      var token := tracker.OnPublished(msgId);
      if token.Some? { ReplayAcknowledged(token.value, flashOk, tfOk); }
    }

    /** uif_replay_cloud_response. */
    method CloudResponse(gateway: bool, accepted: bool, code: int, now: int, flashOk: bool, tfOk: bool)
      requires Valid()
      modifies this, store, store.flash, store.tf
      ensures Valid()
      ensures var c := Responded(old(Abs()), gateway, accepted, code, now, flashOk, tfOk);
              store.Abs() == c.q && U() == c.u && tracker.slots[..] == c.slots
    {
      if !outstanding || gateway != gatewayTopic { return; }
      var id := sequence;
      if accepted {
        ReplayAcknowledged(id, flashOk, tfOk);
        retryAfterMs := 0;
        return;
      }
      Rejected(code, now, flashOk, tfOk);
    }

    // The platform refused the outstanding record.
    method Rejected(code: int, now: int, flashOk: bool, tfOk: bool)
      requires Valid() && outstanding
      modifies this, store, store.flash, store.tf
      ensures Valid()
      ensures U() == Idle(old(U())).(retryAfterMs := now + if NonRetryable(code) then POISON_RETRY_MS else REJECT_RETRY_MS)
      ensures store.Abs() == if NonRetryable(code) then RemoveQ(old(store.Abs()), old(sequence), flashOk, tfOk).0
                             else old(store.Abs())
    {
      var id := sequence;
      outstanding, sequence, sentMs := false, 0, 0;
      var nonRetryable := code == 402 || code == 406 || code == 413;
      if nonRetryable {
        var removed := store.Remove(id, flashOk, tfOk);
      }
      retryAfterMs := now + (if nonRetryable then POISON_RETRY_MS else REJECT_RETRY_MS);
    }

    method ConnectionLost()
      modifies this
      ensures U() == Idle(old(U()))
    {
      outstanding, sequence, sentMs := false, 0, 0;
    }
  }
}
