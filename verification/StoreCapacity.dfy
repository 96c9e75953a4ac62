/** How full the store gets (main/storage/offline_store.c:231-306): where a put lands, that flash
    keeps to 512 records, and the one way in which the card does not. */
module StoreCapacity {
  import opened Wrappers
  import opened OfflineRecord
  import opened OfflineStore
  import opened UifReplay
  import opened ReplayRuns

  function Max(a: nat, b: nat): nat { if a < b then b else a }

  /** Flash has a free slot, 64 KiB and the record's own size to spare, and takes the write. */
  ghost predicate FlashTakes(q: Queue, topic: string, payload: string, env: PutEnv) {
    |q.flash| < 512 && env.free.Some? && env.free.value > 65600 + |payload| + |topic| && env.flashWrite
  }

  /** A card at capacity whose oldest record cannot be deleted takes the new one all the same. */
  ghost predicate Overfills(q: Queue, id: nat, topic: string, payload: string, env: PutEnv) {
    && !FlashTakes(q, topic, payload, env) && q.tfMounted
    && |q.tf| >= 512 && !env.tfUnlink1 && env.tfWrite1 && id !in q.tf
  }

  lemma WriteSize(d: Dir, id: nat, text: string)
    ensures |d[id := text]| == |d| + if id in d then 0 else 1
  {
    if id in d {
      assert d[id := text].Keys == d.Keys;
      assert |d[id := text]| == |d[id := text].Keys| && |d| == |d.Keys|;
    } else {
      AddedSize(d, id, text);
    }
  }

  lemma CardSize(tf: Dir, id: nat, text: string, env: PutEnv)
    ensures var tf' := CardQ(tf, id, text, env).0;
            |tf'| > Max(|tf|, 512) <==> |tf| >= 512 && !env.tfUnlink1 && env.tfWrite1 && id !in tf
  {
    var (tf1, e1) := Evicted(tf, |tf| >= MAX_RECORDS && env.tfUnlink1);
    var (tf2, e2) := Evicted(tf1, env.tfUnlink2);
    EvictedSize(tf, |tf| >= MAX_RECORDS && env.tfUnlink1);
    EvictedSize(tf1, env.tfUnlink2);
    WriteSize(tf1, id, text);
    WriteSize(tf2, id, text);
  }

  lemma RewriteSize(flash: Dir, id: nat, text: string, env: PutEnv)
    ensures |RewriteQ(flash, id, text, env).0| <= |flash|
  {
    EvictedSize(flash, env.flashUnlink);
    WriteSize(Evicted(flash, env.flashUnlink).0, id, text);
  }

  /** No put takes flash above 512 records, and it takes the card above 512 exactly when the card
      is full, its eviction fails and its write does not. */
  lemma PutWithinCapacity(q: Queue, id: nat, topic: string, payload: string, env: PutEnv)
    ensures var q' := PutQ(q, id, topic, payload, env).0;
            && |q'.flash| <= Max(|q.flash|, 512)
            && (|q'.tf| > Max(|q.tf|, 512) <==> Overfills(q, id, topic, payload, env))
            && |q'.tf| <= Max(|q.tf|, 512) + 1
  {
    var text := FileText(id, topic, payload);
    WriteSize(q.flash, id, text);
    RewriteSize(q.flash, id, text, env);
    CardSize(q.tf, id, text, env);
    CardGrowth(q.tf, id, text, env);
  }

  lemma CardGrowth(tf: Dir, id: nat, text: string, env: PutEnv)
    ensures |CardQ(tf, id, text, env).0| <= |tf| + 1
  {
    var (tf1, e1) := Evicted(tf, |tf| >= MAX_RECORDS && env.tfUnlink1);
    var (tf2, e2) := Evicted(tf1, env.tfUnlink2);
    EvictedSize(tf, |tf| >= MAX_RECORDS && env.tfUnlink1);
    EvictedSize(tf1, env.tfUnlink2);
    WriteSize(tf1, id, text);
    WriteSize(tf2, id, text);
  }

  /** Where a new record lands, and when nothing is lost for it: flash if it takes the record, else
      the card, at once or after an eviction; without a card flash in place of its oldest. */
  lemma PutLandsIff(q: Queue, id: nat, topic: string, payload: string, env: PutEnv)
    requires FreshId(q, id)
    ensures var q' := PutQ(q, id, topic, payload, env).0;
            var flashTakes, evicts := FlashTakes(q, topic, payload, env), |q.tf| >= 512 && env.tfUnlink1;
            && (id in q'.flash <==>
                  flashTakes || (!q.tfMounted && |q.flash| > 0 && env.flashUnlink && env.flashRewrite))
            && (id in q'.tf <==>
                  !flashTakes && q.tfMounted && (env.tfWrite1 || (|q.tf| > 0 && env.tfUnlink2 && env.tfWrite2)))
            && (PutQ(q, id, topic, payload, env).1 <==> Has(q', id))
            && (q'.dataLoss == q.dataLoss <==> flashTakes || (q.tfMounted && env.tfWrite1 && !evicts))
  {
    var text := FileText(id, topic, payload);
    EvictedSize(q.tf, |q.tf| >= MAX_RECORDS && env.tfUnlink1);
    EvictedSize(q.flash, env.flashUnlink);
    CardLands(q.tf, id, text, env);
  }

  lemma CardLands(tf: Dir, id: nat, text: string, env: PutEnv)
    requires id !in tf
    ensures var (tf', lost, ok) := CardQ(tf, id, text, env);
            && (id in tf' <==> env.tfWrite1 || (|tf| > 0 && env.tfUnlink2 && env.tfWrite2))
            && (ok <==> id in tf')
            && (lost + Loss(!ok) == 0 <==> env.tfWrite1 && !(|tf| >= 512 && env.tfUnlink1))
  {
    EvictedSize(tf, |tf| >= MAX_RECORDS && env.tfUnlink1);
    EvictedSize(Evicted(tf, |tf| >= MAX_RECORDS && env.tfUnlink1).0, env.tfUnlink2);
  }

  // ---- The peek ----

  ghost predicate InReach(q: Queue, id: nat) { id in q.flash || (q.tfMounted && id in q.tf) }

  /** The peek names the least id in reach, from flash if it is there, with what its file says; it
      fails if that file cannot be read, and finds nothing exactly when nothing is in reach. */
  lemma PeekIs(q: Queue, least: nat)
    requires InReach(q, least) && forall id: nat :: InReach(q, id) ==> least <= id
    ensures PeekQ(q) == var text := if least in q.flash then q.flash[least] else q.tf[least];
                        match ReadContent(text)
                        case None => Unreadable
                        case Some(content) => Record(least, if least in q.flash then Flash else Tf, content)
  {
    SomeKey(q.flash);
    SomeKey(q.tf);
    if |q.flash| > 0 { assert InReach(q, Oldest(q.flash)); }
    if q.tfMounted && |q.tf| > 0 { assert InReach(q, Oldest(q.tf)); }
  }

  lemma PeekAbsentIff(q: Queue)
    ensures PeekQ(q).Absent? <==> forall id: nat :: !InReach(q, id)
  {
    SomeKey(q.flash);
    SomeKey(q.tf);
    if |q.flash| > 0 { assert InReach(q, Oldest(q.flash)); }
    if q.tfMounted && |q.tf| > 0 { assert InReach(q, Oldest(q.tf)); }
  }

  // ---- Boot ----

  /** Boot brings flash down to 512 records exactly when every unlink that takes succeeds. */
  lemma {:induction false} PrunedIff(d: Dir, unlink: nat -> bool, k: nat)
    ensures |Pruned(d, unlink, k).0| <= 512 <==> forall i: nat :: k <= i < k + |d| - 512 ==> unlink(i)
    ensures |Pruned(d, unlink, k).0| >= 512 || Pruned(d, unlink, k).0 == d
    decreases |d|
  {
    if |d| > MAX_RECORDS {
      PrunedStep(d, unlink, k);
      EvictedSize(d, unlink(k));
      if unlink(k) { PrunedIff(Evicted(d, true).0, unlink, k + 1); }
    }
  }

  // ---- Whole runs ----

  ghost predicate OverfillsAt(s: Sys, e: Event) { e.Put? && Overfills(s.core.q, e.id, e.topic, e.payload, e.putEnv) }

  /** The puts among the first k events that overfill the card. */
  ghost function Overfilled(ss: seq<Sys>, es: seq<Event>, k: nat): nat
    requires k <= |es| < |ss|
  {
    if k == 0 then 0 else Overfilled(ss, es, k - 1) + if OverfillsAt(ss[k - 1], es[k - 1]) then 1 else 0
  }

  lemma StepWithinCapacity(c: Core, e: Event)
    ensures |CoreAfter(c, e).q.flash| <= Max(|c.q.flash|, 512)
    ensures |CoreAfter(c, e).q.tf| <= Max(|c.q.tf|, 512) + if e.Put? && Overfills(c.q, e.id, e.topic, e.payload, e.putEnv) then 1 else 0
  {
    match e {
      case Put(id, topic, payload, env) => PutWithinCapacity(c.q, id, topic, payload, env);
      case Replay(env) => ReplayKeepsQueue(c, env);
      case Boot(_, unlink) => PrunedSize(c.q.flash, unlink, 0);
      case Lost =>
      case _ => TargetedRemoval(c, e);
    }
  }

  /** Over every run with boots flash stays within 512 records, or what it began with, and the card
      exceeds that by at most one record for each put that overfilled it. */
  lemma {:induction false} RunWithinCapacity(ss: seq<Sys>, es: seq<Event>, k: nat)
    requires Run(ss, es) && k <= |es|
    ensures |ss[k].core.q.flash| <= Max(|ss[0].core.q.flash|, 512)
    ensures |ss[k].core.q.tf| <= Max(|ss[0].core.q.tf|, 512) + Overfilled(ss, es, k)
  {
    if k > 0 {
      RunWithinCapacity(ss, es, k - 1);
      assert Follows(ss, es, k - 1);
      StepWithinCapacity(ss[k - 1].core, es[k - 1]);
    }
  }
}
