/** The oldest-first selector of modbus_poll_task (main/scheduler/scheduler.c): one
    pass over the plan picks the next mapping to poll, and no due mapping starves. */
module PollScheduler {

  /** What the selector reads of a mapping; an interval of 0 means the gateway default. */
  datatype Mapping = Mapping(pollIntervalMs: nat, priority: nat)

  function Interval(m: Mapping, defaultMs: nat): nat {
    if m.pollIntervalMs == 0 then defaultMs else m.pollIntervalMs
  }

  predicate Due(plan: seq<Mapping>, defaultMs: nat, last: seq<int>, now: int, i: nat)
    requires i < |plan| <= |last|
  {
    now - last[i] >= Interval(plan[i], defaultMs)
  }

  // The strict order the poll loop wants: polled longest ago, then priority, then position.
  ghost predicate Before(plan: seq<Mapping>, last: seq<int>, i: nat, j: nat)
    requires i < |plan| <= |last| && j < |plan|
  {
    || last[i] < last[j]
    || (last[i] == last[j] && plan[i].priority > plan[j].priority)
    || (last[i] == last[j] && plan[i].priority == plan[j].priority && i < j)
  }

  ghost predicate IsNext(plan: seq<Mapping>, defaultMs: nat, last: seq<int>, now: int, i: nat)
    requires |plan| <= |last|
  {
    && i < |plan| && Due(plan, defaultMs, last, now, i)
    && forall j: nat :: j < |plan| && j != i && Due(plan, defaultMs, last, now, j) ==> Before(plan, last, i, j)
  }

  lemma NextIsUnique(plan: seq<Mapping>, defaultMs: nat, last: seq<int>, now: int, i: nat, j: nat)
    requires |plan| <= |last|
    requires IsNext(plan, defaultMs, last, now, i) && IsNext(plan, defaultMs, last, now, j)
    ensures i == j
  {}

  class PollTask {
    const capacity: nat
    const lastPollMs: array<int>
    var observedModelVersion: nat

    ghost predicate Valid()
      reads this
    {
      lastPollMs.Length == capacity
    }

    constructor (capacity: nat)
      ensures Valid() && this.capacity == capacity && fresh(lastPollMs)
      ensures forall i :: 0 <= i < capacity ==> lastPollMs[i] == 0
      ensures observedModelVersion == 0
    {
      this.capacity := capacity;
      lastPollMs := new int[capacity](_ => 0);
      observedModelVersion := 0;
    }

    /** One turn of the poll loop: forget the poll times when the model changed, pick
        the next mapping and stamp it. -1 when nothing is due. */
    method PollOnce(plan: seq<Mapping>, modelVersion: nat, defaultMs: nat, now: int) returns (selected: int)
      requires Valid() && |plan| <= capacity
      modifies this, lastPollMs
      ensures Valid() && observedModelVersion == modelVersion
      ensures var last := LastSeen(old(lastPollMs[..]), old(observedModelVersion), modelVersion);
              && (selected == -1 ==>
                    && lastPollMs[..] == last
                    && forall i: nat :: i < |plan| ==> !Due(plan, defaultMs, last, now, i))
              && (selected != -1 ==>
                    && 0 <= selected < |plan|
                    && IsNext(plan, defaultMs, last, now, selected)
                    && lastPollMs[..] == last[selected := now])
    {
      if modelVersion != observedModelVersion {
        var k := 0;
        while k < capacity
          invariant 0 <= k <= capacity
          invariant forall i :: 0 <= i < k ==> lastPollMs[i] == 0
        {
          lastPollMs[k] := 0;
          k := k + 1;
        }
        observedModelVersion := modelVersion;
      }
      ghost var last := lastPollMs[..];
      assert last == LastSeen(old(lastPollMs[..]), old(observedModelVersion), modelVersion);
      selected := -1;
      var i := 0;
      while i < |plan|
        invariant 0 <= i <= |plan| && -1 <= selected < i
        invariant lastPollMs[..] == last
        invariant selected == -1 ==> forall j: nat :: j < i ==> !Due(plan, defaultMs, last, now, j)
        invariant selected != -1 ==>
                    && Due(plan, defaultMs, last, now, selected)
                    && forall j: nat :: j < i && j != selected && Due(plan, defaultMs, last, now, j) ==>
                         Before(plan, last, selected, j)
      {
        if now - lastPollMs[i] >= Interval(plan[i], defaultMs) {
          if selected < 0 || lastPollMs[i] < lastPollMs[selected] ||
             (lastPollMs[i] == lastPollMs[selected] && plan[i].priority > plan[selected].priority)
          {
            selected := i;
          }
        }
        i := i + 1;
      }
      if selected != -1 {
        lastPollMs[selected] := now;
      }
    }
  }

  ghost function LastSeen(last: seq<int>, observed: nat, modelVersion: nat): seq<int> {
    if modelVersion == observed then last else seq(|last|, _ => 0)
  }

  /** A change of the model makes everything due whose interval has passed since boot; without one
      the poll times stand. */
  lemma ModelChangeForgets(plan: seq<Mapping>, defaultMs: nat, last: seq<int>, observed: nat, version: nat, now: int, i: nat)
    requires i < |plan| <= |last|
    ensures observed != version ==>
              (Due(plan, defaultMs, LastSeen(last, observed, version), now, i) <==>
                 now >= if plan[i].pollIntervalMs > 0 then plan[i].pollIntervalMs else defaultMs)
    ensures observed == version ==> LastSeen(last, observed, version) == last
  {}

  // ---- Bounded waiting ----

  /** A stretch of the poll loop with an unchanged plan: `lasts[k]` are the poll times
      before the k-th selection, made at `nows[k]` and choosing `picks[k]`. */
  ghost predicate Run(plan: seq<Mapping>, defaultMs: nat, lasts: seq<seq<int>>, nows: seq<int>, picks: seq<nat>)
  {
    && |lasts| == |nows| + 1 && |picks| == |nows|
    && (forall k: nat :: k < |lasts| ==> |plan| <= |lasts[k]|)
    && (forall k: nat :: k < |nows| ==>
          IsNext(plan, defaultMs, lasts[k], nows[k], picks[k]) && lasts[k + 1] == lasts[k][picks[k] := nows[k]])
    && (forall k: nat, j: nat :: k <= j < |nows| ==> nows[k] <= nows[j])
  }

  // The other mappings that have not been polled since `m` was.
  ghost function Ahead(plan: seq<Mapping>, last: seq<int>, m: nat): set<nat>
    requires m < |plan| <= |last|
  {
    set j: nat | j < |plan| && j != m && last[j] <= last[m]
  }

  ghost function Range(n: nat): (r: set<nat>)
    ensures |r| == n
    ensures forall j: nat :: j in r <==> j < n
  {
    if n == 0 then {} else Range(n - 1) + {n - 1}
  }

  lemma AheadIsFewer(n: nat, s: set<nat>, m: nat)
    requires m < n && m !in s && forall j <- s :: j < n
    ensures |s| <= n - 1
  {
    Smaller(s, Range(n) - {m});
  }

  lemma {:induction false} Smaller(a: set<nat>, b: set<nat>)
    requires a <= b
    ensures |a| <= |b|
    decreases a
  {
    if a != {} {
      var x :| x in a;
      Smaller(a - {x}, b - {x});
    }
  }

  // Choosing another mapping takes it out of the set ahead of a waiting one.
  lemma OtherPickLeaves(plan: seq<Mapping>, defaultMs: nat, last: seq<int>, now: int, pick: nat, m: nat)
    requires |plan| <= |last| && m < |plan| && m != pick
    requires defaultMs > 0
    requires IsNext(plan, defaultMs, last, now, pick) && Due(plan, defaultMs, last, now, m)
    ensures pick in Ahead(plan, last, m)
    ensures Ahead(plan, last[pick := now], m) == Ahead(plan, last, m) - {pick}
  {
    assert Before(plan, last, pick, m);
    assert now > last[m];
  }

  /** A due mapping is chosen within |Ahead| + 1 selections. */
  lemma {:induction false} Waits(plan: seq<Mapping>, defaultMs: nat, lasts: seq<seq<int>>, nows: seq<int>, picks: seq<nat>, m: nat)
    requires Run(plan, defaultMs, lasts, nows, picks)
    requires m < |plan| && defaultMs > 0
    requires |nows| > |Ahead(plan, lasts[0], m)|
    requires Due(plan, defaultMs, lasts[0], nows[0], m)
    ensures exists k: nat :: k <= |Ahead(plan, lasts[0], m)| && picks[k] == m
    decreases |nows|
  {
    if picks[0] != m {
      var ahead := Ahead(plan, lasts[0], m);
      OtherPickLeaves(plan, defaultMs, lasts[0], nows[0], picks[0], m);
      assert |Ahead(plan, lasts[1], m)| == |ahead| - 1;
      var l', n', p' := lasts[1..], nows[1..], picks[1..];
      forall k: nat | k < |n'|
        ensures IsNext(plan, defaultMs, l'[k], n'[k], p'[k]) && l'[k + 1] == l'[k][p'[k] := n'[k]]
      {
        assert IsNext(plan, defaultMs, lasts[k + 1], nows[k + 1], picks[k + 1]);
        assert lasts[k + 1 + 1] == lasts[k + 1][picks[k + 1] := nows[k + 1]];
      }
      Waits(plan, defaultMs, l', n', p', m);
      var k: nat :| k <= |Ahead(plan, l'[0], m)| && p'[k] == m;
      assert picks[k + 1] == m;
    }
  }

  /** Bounded waiting: with the plan unchanged, a mapping whose interval has passed, its own or
      the default if it has none, is polled after at most |plan| - 1 other polls, whatever the
      priorities and the intervals. */
  lemma BoundedWaiting(plan: seq<Mapping>, defaultMs: nat, lasts: seq<seq<int>>, nows: seq<int>, picks: seq<nat>, m: nat)
    requires Run(plan, defaultMs, lasts, nows, picks)
    requires m < |plan| && defaultMs > 0
    requires |nows| >= |plan|
    requires nows[0] - lasts[0][m] >= if plan[m].pollIntervalMs > 0 then plan[m].pollIntervalMs else defaultMs
    ensures m in picks[..|plan|]
  {
    var ahead := Ahead(plan, lasts[0], m);
    AheadIsFewer(|plan|, ahead, m);
    Waits(plan, defaultMs, lasts, nows, picks, m);
    var k: nat :| k <= |ahead| && picks[k] == m;
    assert picks[..|plan|][k] == m;
  }

  /** And no sooner: two polls of a mapping are at least its interval apart. */
  lemma IntervalKept(plan: seq<Mapping>, defaultMs: nat, lasts: seq<seq<int>>, nows: seq<int>, picks: seq<nat>, a: nat, b: nat)
    requires Run(plan, defaultMs, lasts, nows, picks) && a < b < |nows| && picks[a] == picks[b]
    ensures picks[b] < |plan|
    ensures nows[b] - nows[a] >= if plan[picks[b]].pollIntervalMs > 0 then plan[picks[b]].pollIntervalMs else defaultMs
  {
    PolledLater(plan, defaultMs, lasts, nows, picks, a, b);
    assert IsNext(plan, defaultMs, lasts[b], nows[b], picks[b]);
  }

  /** Of the mappings whose interval has passed, the pick is one polled longest ago; among those,
      one of the highest priority; and among those, the first. */
  lemma PickIsFirst(plan: seq<Mapping>, defaultMs: nat, last: seq<int>, now: int, pick: nat, j: nat)
    requires |plan| <= |last| && IsNext(plan, defaultMs, last, now, pick) && j < |plan|
    requires now - last[j] >= if plan[j].pollIntervalMs > 0 then plan[j].pollIntervalMs else defaultMs
    ensures last[pick] <= last[j]
    ensures last[pick] == last[j] ==> plan[pick].priority >= plan[j].priority
    ensures last[pick] == last[j] && plan[pick].priority == plan[j].priority ==> pick <= j
  {
    assert Due(plan, defaultMs, last, now, j);
  }

  /** Between two polls of a mapping that stays due, every other mapping is polled at
      most once: nobody is served twice while somebody waits. */
  lemma {:induction false} NobodyTwice(plan: seq<Mapping>, defaultMs: nat, lasts: seq<seq<int>>, nows: seq<int>, picks: seq<nat>,
                    m: nat, a: nat, b: nat)
    requires Run(plan, defaultMs, lasts, nows, picks)
    requires m < |plan| && defaultMs > 0
    requires |nows| > 0 && Due(plan, defaultMs, lasts[0], nows[0], m)
    requires a < b < |nows| && m !in picks[..b + 1]
    ensures picks[a] != picks[b]
  {
    WaitKeepsStamp(plan, defaultMs, lasts, nows, picks, m, b);
    PolledLater(plan, defaultMs, lasts, nows, picks, a, b);
    assert picks[..b + 1][b] == picks[b] && picks[..b + 1][a] == picks[a];
    assert IsNext(plan, defaultMs, lasts[a], nows[a], picks[a]);
    assert IsNext(plan, defaultMs, lasts[b], nows[b], picks[b]);
    assert nows[0] <= nows[a] && nows[0] <= nows[b];
    assert m != picks[b] && Due(plan, defaultMs, lasts[b], nows[b], m);
    assert Before(plan, lasts[b], picks[b], m);
  }

  lemma {:induction false} WaitKeepsStamp(plan: seq<Mapping>, defaultMs: nat, lasts: seq<seq<int>>, nows: seq<int>, picks: seq<nat>,
                       m: nat, b: nat)
    requires Run(plan, defaultMs, lasts, nows, picks)
    requires m < |plan| && b < |nows| && m !in picks[..b + 1]
    ensures lasts[b][m] == lasts[0][m]
  {
    if b == 0 {
    } else {
      assert picks[..b + 1][..b] == picks[..b];
      WaitKeepsStamp(plan, defaultMs, lasts, nows, picks, m, b - 1);
      assert picks[..b + 1][b - 1] == picks[b - 1];
      assert lasts[b - 1 + 1] == lasts[b - 1][picks[b - 1] := nows[b - 1]];
    }
  }

  lemma {:induction false} PolledLater(plan: seq<Mapping>, defaultMs: nat, lasts: seq<seq<int>>, nows: seq<int>, picks: seq<nat>,
                    a: nat, b: nat)
    requires Run(plan, defaultMs, lasts, nows, picks)
    requires a < b < |nows|
    ensures picks[a] < |plan| && lasts[b][picks[a]] >= nows[a]
  {
    assert IsNext(plan, defaultMs, lasts[a], nows[a], picks[a]);
    assert lasts[b - 1 + 1] == lasts[b - 1][picks[b - 1] := nows[b - 1]];
    assert IsNext(plan, defaultMs, lasts[b - 1], nows[b - 1], picks[b - 1]);
    if a + 1 < b {
      PolledLater(plan, defaultMs, lasts, nows, picks, a, b - 1);
    }
  }
}
