/** What becomes of an entry over runs with reboots: what spares it, the repairs that leave it
    alone, the versions it is stamped with. */
module AmmLife {
  import opened Wrappers
  import opened AmmEntry
  import opened AmmMapping
  import opened AmmImport
  import opened AmmContents
  import opened AmmRuns

  // ---- Entries that no operation is about ----

  /** The operation is not about the entry under k: it may be a reload. */
  ghost predicate Spares(m: Model, op: Op, k: Key) {
    match op
    case Add(e) => e.key != k
    case Remove(p) => FindPoint(m.ram.slots, p) < |m.ram.slots| && m.ram.slots[FindPoint(m.ram.slots, p)].key != k
    case Import(es, replace) => (forall e <- es :: e.key != k) && !(replace && NamesDevice(es, k))
    case Reload => true
    case _ => false
  }

  lemma FixedUpLookup(slots: seq<Entry>, pollMs: nat, k: Key)
    ensures var e := Lookup(slots, k);
            Lookup(FixedUp(slots, pollMs), k) == if e.Some? then Some(FixUp(e.value, pollMs)) else None
  {
    var loaded := FixedUp(slots, pollMs);
    FixedUpShape(slots, pollMs);
    var i, j := Find(slots, k), Find(loaded, k);
    assert j < |slots| ==> Holds(slots[j], k);
    assert i < |slots| ==> Holds(loaded[i], k);
  }

  lemma ImportSpares(ram: Ram, es: seq<Entry>, replace: bool, k: Key)
    requires Distinct(ram.slots) && (forall e <- es :: e.key != k) && !(replace && NamesDevice(es, k))
    ensures Lookup(ImportedRam(ram, es, replace).slots, k) == Lookup(ram.slots, k)
  {
    ImportContents(ram, es, replace, k);
    LastForIs(es, |es|, k);
  }

  lemma SparedStays(m: Model, op: Op, k: Key, capacity: nat)
    requires Inv(m, capacity) && CanDo(m, op, capacity) && Spares(m, op, k) && Lookup(m.ram.slots, k).Some?
    ensures var e := Lookup(m.ram.slots, k).value;
            Lookup(After(m, op, capacity).ram.slots, k) == Some(if op.Reload? then FixUp(e, m.ram.pollMs) else e)
  {
    match op {
      case Add(x) => AddContents(m.ram, x, k);
      case Remove(p) => RemoveContents(m.ram, p, k);
      case Import(es, replace) => ImportSpares(m.ram, es, replace, k);
      case Reload =>
        LoadRebuilds(m, capacity, 1000);
        FixedUpLookup(m.ram.slots, m.ram.pollMs, k);
    }
  }

  lemma NextSpared(ms: seq<Model>, ops: seq<Op>, capacity: nat, k: Key, n: nat)
    requires Run(ms, ops, capacity) && Inv(ms[0], capacity) && n < |ops|
    requires Spares(ms[n], ops[n], k) && Lookup(ms[n].ram.slots, k).Some?
    ensures Repaired(ms, n, k)
  {
    RunKeepsInv(ms, ops, capacity, n);
    assert Follows(ms, ops, n, capacity);
    SparedStays(ms[n], ops[n], k, capacity);
  }

  // The entry of the next state is the same, or what a load makes of it.
  ghost predicate Repaired(ms: seq<Model>, n: nat, k: Key)
    requires n + 1 < |ms|
  {
    var e, next := Lookup(ms[n].ram.slots, k), Lookup(ms[n + 1].ram.slots, k);
    e.Some? && next.Some? && (next == e || next.value == FixUp(e.value, ms[n].ram.pollMs))
  }

  ghost predicate SparesAll(ms: seq<Model>, ops: seq<Op>, k: Key, i: nat)
    requires |ops| < |ms|
  {
    forall j :: i <= j < |ops| ==> Spares(ms[j], ops[j], k)
  }

  /** A legal entry that no operation is about is found as it was after any number of reboots. */
  lemma {:induction false} LegalEntryStays(ms: seq<Model>, ops: seq<Op>, capacity: nat, k: Key, i: nat, n: nat)
    requires Run(ms, ops, capacity) && Inv(ms[0], capacity) && i <= n <= |ops| && SparesAll(ms, ops, k, i)
    requires Lookup(ms[i].ram.slots, k).Some? && Legal(Lookup(ms[i].ram.slots, k).value)
    ensures Lookup(ms[n].ram.slots, k) == Lookup(ms[i].ram.slots, k)
    decreases n
  {
    if i < n {
      LegalEntryStays(ms, ops, capacity, k, i, n - 1);
      NextSpared(ms, ops, capacity, k, n - 1);
      LegalUntouched(Lookup(ms[i].ram.slots, k).value, 0, ms[n - 1].ram.pollMs);
    }
  }

  /** And any entry keeps a poll interval of its own, whatever else a load repairs in it. */
  lemma {:induction false} OwnIntervalStays(ms: seq<Model>, ops: seq<Op>, capacity: nat, k: Key, i: nat, n: nat)
    requires Run(ms, ops, capacity) && Inv(ms[0], capacity) && i <= n <= |ops| && SparesAll(ms, ops, k, i)
    requires Lookup(ms[i].ram.slots, k).Some? && Lookup(ms[i].ram.slots, k).value.sem.pollMs > 0
    ensures Lookup(ms[n].ram.slots, k).Some?
    ensures Lookup(ms[n].ram.slots, k).value.sem.pollMs == Lookup(ms[i].ram.slots, k).value.sem.pollMs
    decreases n
  {
    if i < n {
      OwnIntervalStays(ms, ops, capacity, k, i, n - 1);
      NextSpared(ms, ops, capacity, k, n - 1);
      RepairedFields(Lookup(ms[n - 1].ram.slots, k).value, ms[n - 1].ram.pollMs);
    }
  }

  /** So a legal mapping, once added, is what every later state holds under its key, but for the
      version it was given. */
  lemma AddedStays(ms: seq<Model>, ops: seq<Op>, capacity: nat, i: nat, n: nat)
    requires Run(ms, ops, capacity) && Inv(ms[0], capacity) && i < n <= |ops|
    requires ops[i].Add? && Legal(ops[i].entry) && SparesAll(ms, ops, ops[i].entry.key, i + 1)
    ensures var e := ops[i].entry;
            Lookup(ms[n].ram.slots, e.key) == Some(e.(active := true, version := ms[i].ram.version + 1))
  {
    var e := ops[i].entry;
    assert Follows(ms, ops, i, capacity);
    RunKeepsInv(ms, ops, capacity, i);
    AddContents(ms[i].ram, e, e.key);
    LegalUntouched(e, ms[i].ram.version + 1, ms[i].ram.pollMs);
    LegalEntryStays(ms, ops, capacity, e.key, i + 1, n);
  }

  // ---- Model versions ----

  ghost predicate UpTo(slots: seq<Entry>, version: nat) {
    forall i :: 0 <= i < |slots| ==> slots[i].version <= version
  }

  lemma {:induction false} HighestIs(slots: seq<Entry>)
    ensures UpTo(slots, HighestVersion(slots)) && HighestVersion(slots) >= 1
    ensures HighestVersion(slots) == 1 || exists i :: 0 <= i < |slots| && slots[i].version == HighestVersion(slots)
    decreases |slots|
  {
    if |slots| > 0 {
      var rest := slots[..|slots| - 1];
      HighestIs(rest);
      assert forall i :: 0 <= i < |rest| ==> rest[i] == slots[i];
      if exists i :: 0 <= i < |rest| && rest[i].version == HighestVersion(rest) {
        var i :| 0 <= i < |rest| && rest[i].version == HighestVersion(rest);
        assert slots[i].version == HighestVersion(rest);
      }
    }
  }

  lemma {:induction false} StagingUpTo(kept: seq<Entry>, batch: seq<Entry>, n: nat, version: nat)
    requires n <= |batch| && UpTo(kept, version) && UpTo(batch, version)
    ensures UpTo(Staging(kept, batch, n), version)
  {
    if n > 0 { StagingUpTo(kept, batch, n - 1, version); }
  }

  lemma KeptUpTo(slots: seq<Entry>, es: seq<Entry>, replace: bool, version: nat)
    requires UpTo(slots, version)
    ensures UpTo(Kept(slots, es, replace), version)
  {
    var r := Kept(slots, es, replace);
    forall i | 0 <= i < |r| ensures r[i].version <= version {
      KeptIn(slots, es, replace, r[i]);
    }
  }

  lemma ImportUpTo(ram: Ram, es: seq<Entry>, replace: bool)
    requires UpTo(ram.slots, ram.version)
    ensures UpTo(ImportedRam(ram, es, replace).slots, ram.version + |es|)
  {
    BatchKeys(ram, es);
    KeptUpTo(ram.slots, es, replace, ram.version);
    StagingUpTo(Kept(ram.slots, es, replace), Batch(ram, es), |es|, ram.version + |es|);
  }

  lemma OpUpTo(m: Model, op: Op, capacity: nat)
    requires CanDo(m, op, capacity) && UpTo(m.ram.slots, m.ram.version)
    ensures UpTo(After(m, op, capacity).ram.slots, After(m, op, capacity).ram.version)
  {
    match op {
      case Import(es, replace) => ImportUpTo(m.ram, es, replace);
      case Reload => HighestIs(LoadedRam(m.nvs, capacity, 1000).slots);
      case Add(e) => NormalizedSettles(e.(active := true, version := m.ram.version + 1, sem := e.sem.(pollMs := PollOr(e.sem.pollMs, m.ram.pollMs))));
      case _ =>
    }
  }

  /** The model version is never behind the version of an entry, over every run with reboots. */
  lemma {:induction false} RunVersions(ms: seq<Model>, ops: seq<Op>, capacity: nat, n: nat)
    requires Run(ms, ops, capacity) && UpTo(ms[0].ram.slots, ms[0].ram.version) && n <= |ops|
    ensures UpTo(ms[n].ram.slots, ms[n].ram.version)
  {
    if n > 0 {
      RunVersions(ms, ops, capacity, n - 1);
      assert Follows(ms, ops, n - 1, capacity);
      OpUpTo(ms[n - 1], ops[n - 1], capacity);
    }
  }

  // ---- Single operations, by key ----

  /** An add needs room for a key only when the table does not hold it; it then takes the place of a
      removed entry before the table grows. */
  lemma AddFitsIff(m: Model, e: Entry, capacity: nat)
    requires Distinct(m.ram.slots) && |m.ram.slots| <= capacity
    ensures var slots := m.ram.slots;
            var grows := Lookup(slots, e.key).None? && forall i :: 0 <= i < |slots| ==> slots[i].active;
            && (CanDo(m, Add(e), capacity) <==> !grows || |slots| < capacity)
            && |AddedRam(m.ram, e).slots| == |slots| + if grows then 1 else 0
  {}

  /** A new interval for all reaches every entry, under one new version, and the default. */
  lemma SetPollContents(m: Model, pollMs: nat, k: Key)
    ensures var after, e := SetPollDone(m, pollMs).ram, Lookup(m.ram.slots, k);
            && after.pollMs == pollMs && after.version == m.ram.version + 1
            && (forall i :: 0 <= i < |m.ram.slots| && !m.ram.slots[i].active ==> after.slots[i] == m.ram.slots[i])
            && Lookup(after.slots, k) ==
               if e.Some? then Some(e.value.(version := m.ram.version + 1, sem := e.value.sem.(pollMs := pollMs))) else None
  {
    var slots, after := m.ram.slots, SetPollDone(m, pollMs).ram.slots;
    RepolledShape(m.ram, pollMs);
    var i, j := Find(slots, k), Find(after, k);
    assert j < |slots| ==> Holds(slots[j], k);
    assert i < |slots| ==> Holds(after[i], k);
  }

  // On the same device and register, whatever its function code.
  predicate IsAt(e: Entry, p: Key) { e.active && e.key == p.(functionCode := e.key.functionCode) }

  /** A removal is possible exactly when an active entry is at the point, and it is the first of those
      that goes. */
  lemma RemoveIff(m: Model, p: Key, capacity: nat)
    ensures CanDo(m, Remove(p), capacity) <==>
              exists i :: 0 <= i < |m.ram.slots| && IsAt(m.ram.slots[i], p)
    ensures var i := FindPoint(m.ram.slots, p);
            CanDo(m, Remove(p), capacity) ==>
              && IsAt(m.ram.slots[i], p)
              && After(m, Remove(p), capacity).ram.slots == m.ram.slots[i := m.ram.slots[i].(active := false)]
              && forall j :: 0 <= j < i ==> !IsAt(m.ram.slots[j], p)
  {
    forall i | 0 <= i < |m.ram.slots| ensures AtPoint(m.ram.slots[i], p) <==> IsAt(m.ram.slots[i], p) {}
  }

  /** An import leaves no blob of the slots that the table has lost. */
  lemma ImportErases(m: Model, es: seq<Entry>, replace: bool, i: nat)
    requires |ImportDone(m, es, replace).ram.slots| <= i < |m.ram.slots|
    ensures i !in ImportDone(m, es, replace).nvs.blobs
  {
    var slots := ImportDone(m, es, replace).ram.slots;
    ErasedAt(Written(Snapshot(m.nvs, m.ram.slots).blobs, slots), |slots|, |m.ram.slots|, i);
  }

  /** A rollback restores as many slots as its image was counted to have, blank where it has fewer. */
  lemma RollbackCounts(m: Model, capacity: nat)
    requires CanRollBack(m.nvs, capacity)
    ensures var slots, image := RollbackDone(m).ram.slots, m.nvs.rollbackImage.value;
            && |slots| == m.nvs.rollbackCount.value && RollbackDone(m).nvs.count == m.nvs.rollbackCount
            && forall i :: |image| <= i < |slots| ==> !slots[i].active
  {}

  // ---- Names ----

  /** The rule for a batch: two entries read the same register of the same device in the same way
      exactly when they bear the same two names. */
  lemma ConsistentIff(es: seq<Entry>)
    ensures Consistent(es) <==> forall i, j :: 0 <= i < j < |es| ==>
              var a, b := es[i], es[j];
              a.key == b.key <==>
                a.sem.names.deviceId == b.sem.names.deviceId && a.sem.names.pointId == b.sem.names.pointId
  {}

  lemma EmptyImport(ram: Ram, es: seq<Entry>, replace: bool, k: Key)
    requires ram.slots == [] && Lookup(ImportedRam(ram, es, replace).slots, k).Some?
    ensures exists i :: 0 <= i < |es| && es[i].key == k &&
              Lookup(ImportedRam(ram, es, replace).slots, k).value.sem.names == es[i].sem.names
  {
    ImportContents(ram, es, replace, k);
    LastForIs(es, |es|, k);
    BatchEntry(ram, es, LastFor(es, |es|, k).value);
    RepairedFields(es[LastFor(es, |es|, k).value], ram.pollMs);
  }

  /** After a consistent import into an empty table a name leads to one entry only. */
  lemma ImportedNamesDistinct(ram: Ram, es: seq<Entry>, replace: bool, a: Key, b: Key)
    requires ram.slots == [] && Consistent(es) && a != b
    requires Lookup(ImportedRam(ram, es, replace).slots, a).Some? && Lookup(ImportedRam(ram, es, replace).slots, b).Some?
    ensures var x, y := Lookup(ImportedRam(ram, es, replace).slots, a).value, Lookup(ImportedRam(ram, es, replace).slots, b).value;
            x.sem.names.deviceId != y.sem.names.deviceId || x.sem.names.pointId != y.sem.names.pointId
  {
    EmptyImport(ram, es, replace, a);
    EmptyImport(ram, es, replace, b);
  }
}
