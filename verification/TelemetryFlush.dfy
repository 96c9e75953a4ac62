/** A flush (main/thingscloud/thingscloud_adapter.c) sends its packets through the token bucket,
    one after the other, and keeps its buffer unless all were taken. */
module TelemetryFlush {
  import opened GreedyCut
  import opened PacketBuilder
  import opened RateLimiter
  import Sub = SubdevicePackets

  /** The bucket after `k` attempts made at `times`. */
  function BucketAfter(s: Limiter, times: seq<int>, k: nat): Limiter
    requires k <= |times|
  {
    if k == 0 then s else Allowed(BucketAfter(s, times, k - 1), times[k - 1]).0
  }

  // Every packet passes the bucket before it can be taken; later packets go later.
  ghost predicate Throttled<P(!new)>(publish: Publish<P>, s: Limiter, times: seq<int>) {
    forall attempts: seq<P>, packet: P ::
      |attempts| < |times| && publish(attempts, packet) ==> Allowed(BucketAfter(s, times, |attempts|), times[|attempts|]).1
  }

  /** Within one refill period the bucket lets one packet through. */
  lemma SecondPacketThrottled(s: Limiter, first: int, second: int)
    requires 0 <= s.lastMs <= first <= second && s.tokens <= BUCKET_TOKENS
    requires Allowed(s, first).1 && second < Refilled(s, first).lastMs + REFILL_MS
    ensures !Allowed(Allowed(s, first).0, second).1
  {}

  /** The call attempts at most one packet exactly when the whole buffer fits one object. */
  lemma OnePacketIff(ps: seq<Property>)
    requires ClashFree(ps) && forall p <- ps :: ObjectLength([p]) <= 1024
    ensures |Packets(ps)| <= 1 <==> ObjectLength(Keyed(ps)) <= 1024
  {
    PacketsCutInput(ps);
    if ObjectLength(Keyed(ps)) <= 1024 {
      var whole := if Keyed(ps) == [] then [] else [Keyed(ps)];
      assert Flatten(whole) == Keyed(ps) by {
        if Keyed(ps) != [] { assert whole[1..] == []; assert Keyed(ps) + [] == Keyed(ps); }
      }
      FewestPackets(ps, whole);
    }
    if |Packets(ps)| == 1 {
      var only := Packets(ps)[0];
      assert Packets(ps)[1..] == [] && only + [] == only;
      assert Keyed(ps) == only && only in Packets(ps);
    }
  }

  /** A buffer too large for one object is never reported delivered by a flush that runs inside
      a refill period: the second packet is always throttled, so the buffer is kept. */
  lemma LargeBufferNeverDelivered(ps: seq<Property>, publish: Publish<seq<Property>>, s: Limiter, times: seq<int>)
    requires ClashFree(ps) && (forall p <- ps :: ObjectLength([p]) <= 1024)
    requires ObjectLength(Keyed(ps)) > 1024
    requires Throttled(publish, s, times) && |times| >= 2
    requires 0 <= s.lastMs <= times[0] <= times[1] && s.tokens <= BUCKET_TOKENS
    requires times[1] < Refilled(s, times[0]).lastMs + REFILL_MS
    ensures !AllTaken(publish, Packets(ps))
  {
    OnePacketIff(ps);
    if AllTaken(publish, Packets(ps)) { TwoNotTaken(Packets(ps), publish, s, times); }
  }

  // Two packets of one refill period are not both taken.
  lemma TwoNotTaken<P(!new)>(packets: seq<P>, publish: Publish<P>, s: Limiter, times: seq<int>)
    requires |packets| >= 2 && Throttled(publish, s, times) && |times| >= 2
    requires 0 <= s.lastMs <= times[0] <= times[1] && s.tokens <= BUCKET_TOKENS
    requires times[1] < Refilled(s, times[0]).lastMs + REFILL_MS
    ensures !AllTaken(publish, packets)
  {
    if AllTaken(publish, packets) {
      assert publish(packets[..0], packets[0]) && publish(packets[..1], packets[1]);
      assert BucketAfter(s, times, 0) == s;
      assert BucketAfter(s, times, 1) == Allowed(s, times[0]).0;
      SecondPacketThrottled(s, times[0], times[1]);
    }
  }

  // ---- Sub-device mode ----

  /** A sub-device buffer too large for one object is never reported delivered by a flush that
      runs inside a refill period. */
  lemma LargeSubdeviceNeverDelivered(ps: seq<Property>, publish: Publish<Sub.Root>, s: Limiter, times: seq<int>)
    requires Sub.ClashFree(ps, publish) && Sub.RootLength(Sub.Grouped(ps)) > 1024
    requires Throttled(publish, s, times) && |times| >= 2
    requires 0 <= s.lastMs <= times[0] <= times[1] && s.tokens <= BUCKET_TOKENS
    requires times[1] < Refilled(s, times[0]).lastMs + REFILL_MS
    ensures !Sub.Finish(Sub.Loop(ps, publish), publish).1.Delivered?
  {
    if Sub.Finish(Sub.Loop(ps, publish), publish).1.Delivered? {
      Sub.LargeTakesTwo(ps, publish);
      Sub.DeliveredTaken(ps, publish);
      TwoNotTaken(Sub.Finish(Sub.Loop(ps, publish), publish).0, publish, s, times);
    }
  }

  /** One that fits is delivered exactly when the bucket grants its packet, the broker being
      willing. */
  lemma SmallSubdeviceDeliveredIff(ps: seq<Property>, publish: Publish<Sub.Root>, s: Limiter, now: int)
    requires ps != [] && Sub.RootLength(Sub.Grouped(ps)) <= 1024
    requires forall packet: Sub.Root :: publish([], packet) <==> Allowed(s, now).1
    ensures Sub.Finish(Sub.Loop(ps, publish), publish) ==
              ([Sub.Grouped(ps)], if Allowed(s, now).1 then Sub.Delivered else Sub.PublishFailed)
  {
    Sub.LoopOfOne(ps, publish);
    assert [] + [Sub.Grouped(ps)] == [Sub.Grouped(ps)];
  }

  // Equal until the first packet, which is the same.
  ghost predicate Alike(s: Sub.State, t: Sub.State) {
    if s.attempts == [] && t.attempts == [] then s == t
    else s.attempts != [] && t.attempts != [] && s.attempts[0] == t.attempts[0]
  }

  ghost function Next(s: Sub.State, x: Property, publish: Publish<Sub.Root>): Sub.State {
    if s.status.Running? then Sub.Step(s, x, publish) else s
  }

  lemma StepSame(s: Sub.State, x: Property, p: Publish<Sub.Root>, q: Publish<Sub.Root>)
    requires s.attempts == []
    ensures Alike(Sub.Step(s, x, p), Sub.Step(s, x, q))
  {
    var reduced := Sub.TakeOut(Sub.AddTo(s.root, x), x);
    assert (s.attempts + [reduced])[0] == reduced;
  }

  lemma NextAlike(s: Sub.State, t: Sub.State, x: Property, p: Publish<Sub.Root>, q: Publish<Sub.Root>)
    requires Alike(s, t)
    ensures Alike(Next(s, x, p), Next(t, x, q))
  {
    Sub.StepGrows(s, x, p);
    Sub.StepGrows(t, x, q);
    if s == t && s.attempts == [] { StepSame(s, x, p, q); }
  }

  lemma {:induction false} LoopsAlike(ps: seq<Property>, p: Publish<Sub.Root>, q: Publish<Sub.Root>)
    ensures Alike(Sub.Loop(ps, p), Sub.Loop(ps, q))
    decreases |ps|
  {
    if ps == [] {
    } else {
      var rest, x := ps[..|ps| - 1], ps[|ps| - 1];
      LoopsAlike(rest, p, q);
      Sub.LoopLast(ps, p);
      Sub.LoopLast(ps, q);
      NextAlike(Sub.Loop(rest, p), Sub.Loop(rest, q), x, p, q);
    }
  }

  /** Whatever becomes of them, two flushes of one buffer send the same first packet. In gateway
      mode they attempt the same packets altogether (Packets). */
  lemma FlushesStartAlike(ps: seq<Property>, p: Publish<Sub.Root>, q: Publish<Sub.Root>)
    ensures var (a, b) := (Sub.Finish(Sub.Loop(ps, p), p).0, Sub.Finish(Sub.Loop(ps, q), q).0);
            (a == [] <==> b == []) && (a != [] ==> a[0] == b[0])
  {
    LoopsAlike(ps, p, q);
  }

  // ---- Gateway mode, one packet ----

  /** A buffer that fits one object is delivered exactly when the bucket grants that packet,
      the broker being willing. */
  lemma SmallBufferDeliveredIff(ps: seq<Property>, publish: Publish<seq<Property>>, s: Limiter, now: int)
    requires ClashFree(ps) && (forall p <- ps :: ObjectLength([p]) <= 1024)
    requires ObjectLength(Keyed(ps)) <= 1024 && Keyed(ps) != []
    requires forall packet: seq<Property> :: publish([], packet) <==> Allowed(s, now).1
    ensures AllTaken(publish, Packets(ps)) <==> Allowed(s, now).1
  {
    OnePacketIff(ps);
    PacketsCutInput(ps);
    var packets := Packets(ps);
    assert packets != [];
    assert packets[..0] == [];
    assert publish(packets[..0], packets[0]) <==> Allowed(s, now).1;
  }
}
