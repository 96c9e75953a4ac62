/** Runs of successful registry operations with reboots between them: what NVS holds, what a
    load rebuilds, and what a rollback restores. */
module AmmRuns {
  import opened Wrappers
  import opened AmmEntry
  import opened AmmMapping
  import opened AmmImport
  import opened AmmContents

  datatype Op =
    | Add(entry: Entry)
    | Remove(point: Key)
    | Clear
    | Import(entries: seq<Entry>, replace: bool)
    | SetPoll(ms: nat)
    | Rollback
    | Reload

  predicate Mutates(op: Op) { !op.Rollback? && !op.Reload? }

  /** The guards of a successful operation. */
  ghost predicate CanDo(m: Model, op: Op, capacity: nat) {
    match op
    case Add(e) => AddTarget(m.ram.slots, e.key) < capacity
    case Remove(k) => FindPoint(m.ram.slots, k) < |m.ram.slots|
    case Clear => true
    case Import(es, replace) => |es| > 0 && Consistent(es) && ImportStatus(m.ram, es, replace, capacity) == Done
    case SetPoll(ms) => 100 <= ms <= 3600000
    case Rollback => CanRollBack(m.nvs, capacity)
    case Reload => Loadable(m.nvs, capacity)
  }

  ghost function After(m: Model, op: Op, capacity: nat): Model
    requires CanDo(m, op, capacity)
  {
    match op
    case Add(e) => AddDone(m, e)
    case Remove(k) => RemoveDone(m, k)
    case Clear => ClearDone(m)
    case Import(es, replace) => ImportDone(m, es, replace)
    case SetPoll(ms) => SetPollDone(m, ms)
    case Rollback => RollbackDone(m)
    case Reload => Model(LoadedRam(m.nvs, capacity, 1000), m.nvs)
  }

  // ---- What NVS holds ----

  ghost predicate Header(m: Model) {
    m.nvs.count == Some(|m.ram.slots|) && m.nvs.schema == Some(SCHEMA_VERSION) && m.nvs.pollMs == Some(m.ram.pollMs)
  }

  /** Blob i is slot i. */
  ghost predicate Mirrored(m: Model) {
    Header(m) && forall i: nat :: i < |m.ram.slots| ==> i in m.nvs.blobs && m.nvs.blobs[i] == m.ram.slots[i]
  }

  function Repair(pollMs: nat): Entry -> Entry { e => FixUp(e, pollMs) }

  ghost predicate Agree(blobs: map<nat, Entry>, slots: seq<Entry>, repair: Entry -> Entry) {
    forall i: nat :: i < |slots| ==> i in blobs && repair(blobs[i]) == repair(slots[i])
  }

  /** Blob i is slot i up to the repairs of a load. */
  ghost predicate Recoverable(m: Model) {
    Header(m) && Agree(m.nvs.blobs, m.ram.slots, Repair(m.ram.pollMs))
  }

  // `after` differs from `before` only in slot i, existing or appended.
  ghost predicate Changed(before: seq<Entry>, after: seq<Entry>, i: nat) {
    && i < |after| && |before| <= |after|
    && forall j: nat :: j < |after| && j != i ==> j < |before| && after[j] == before[j]
  }

  lemma SlotSavedAgrees(blobs: map<nat, Entry>, before: seq<Entry>, after: seq<Entry>, i: nat, repair: Entry -> Entry)
    requires Agree(blobs, before, repair) && Changed(before, after, i)
    ensures Agree(blobs[i := after[i]], after, repair)
  {
    var saved := blobs[i := after[i]];
    forall j: nat | j < |after| ensures j in saved && repair(saved[j]) == repair(after[j]) {
      if j != i {
        var e := after[j];
        assert e == before[j] && j in blobs;
      }
    }
  }

  lemma SlotSavedKeeps(m: Model, m': Model, nvs: Nvs, i: nat)
    requires Changed(m.ram.slots, m'.ram.slots, i) && m'.ram.pollMs == m.ram.pollMs
    requires nvs.blobs == m.nvs.blobs && nvs.pollMs == m.nvs.pollMs
    requires m'.nvs == SlotSaved(nvs, m'.ram.slots, i)
    ensures Mirrored(m) ==> Mirrored(m')
    ensures Recoverable(m) ==> Recoverable(m')
  {
    if Recoverable(m) { SlotSavedAgrees(m.nvs.blobs, m.ram.slots, m'.ram.slots, i, Repair(m.ram.pollMs)); }
  }

  lemma TableSavedMirrors(m: Model, nvs: Nvs, before: nat)
    requires m.nvs == TableSaved(nvs, m.ram.slots, before, m.ram.pollMs)
    ensures Mirrored(m)
  {
    var n := |m.ram.slots|;
    forall i: nat | i < n ensures i in m.nvs.blobs && m.nvs.blobs[i] == m.ram.slots[i] {
      WrittenAt(nvs.blobs, m.ram.slots, i);
      ErasedAt(Written(nvs.blobs, m.ram.slots), n, before, i);
    }
  }

  lemma MirroredRecovers(m: Model)
    requires Mirrored(m)
    ensures Recoverable(m)
  {}

  lemma SnapshotKeepsTable(nvs: Nvs, slots: seq<Entry>)
    ensures var s := Snapshot(nvs, slots);
            s.blobs == nvs.blobs && s.pollMs == nvs.pollMs && s.count == nvs.count && s.schema == nvs.schema
  {}

  /** Each operation keeps NVS and RAM in step: saving one slot, or the table, is as good as
      saving everything. */
  lemma OpMirrors(m: Model, op: Op, capacity: nat)
    requires CanDo(m, op, capacity) && !op.Reload?
    ensures Mirrored(m) ==> Mirrored(After(m, op, capacity))
    ensures Recoverable(m) ==> Recoverable(After(m, op, capacity))
  {
    var m' := After(m, op, capacity);
    SnapshotKeepsTable(m.nvs, m.ram.slots);
    match op {
      case Add(e) => SlotSavedKeeps(m, m', Snapshot(m.nvs, m.ram.slots), AddTarget(m.ram.slots, e.key));
      case Remove(k) => SlotSavedKeeps(m, m', Snapshot(m.nvs, m.ram.slots), FindPoint(m.ram.slots, k));
      case Clear =>
      case Import(_, _) => TableSavedMirrors(m', Snapshot(m.nvs, m.ram.slots), |m.ram.slots|); MirroredRecovers(m');
      case SetPoll(_) => TableSavedMirrors(m', Snapshot(m.nvs, m.ram.slots), |m'.ram.slots|); MirroredRecovers(m');
      case Rollback => TableSavedMirrors(m', m.nvs, |m'.ram.slots|); MirroredRecovers(m');
    }
  }

  /** A load rebuilds the table, each entry repaired. It loses only the model version, which
      becomes the highest entry version. */
  lemma LoadRebuilds(m: Model, capacity: nat, pollMs: nat)
    requires Recoverable(m) && |m.ram.slots| <= capacity && 100 <= m.ram.pollMs <= 3600000
    ensures Loadable(m.nvs, capacity)
    ensures var ram := LoadedRam(m.nvs, capacity, pollMs);
            ram.slots == FixedUp(m.ram.slots, m.ram.pollMs) && ram.pollMs == m.ram.pollMs
            && Recoverable(Model(ram, m.nvs))
  {
    var ram := LoadedRam(m.nvs, capacity, pollMs);
    var repair := Repair(m.ram.pollMs);
    forall i: nat | i < |m.ram.slots|
      ensures ram.slots[i] == FixUp(m.ram.slots[i], m.ram.pollMs) && repair(ram.slots[i]) == repair(m.nvs.blobs[i])
    {
      assert repair(m.nvs.blobs[i]) == repair(m.ram.slots[i]);
      FixUpSettles(m.nvs.blobs[i], m.ram.pollMs);
    }
    assert ram.slots == FixedUp(m.ram.slots, m.ram.pollMs);
  }

  // ---- What every run keeps ----

  ghost predicate Inv(m: Model, capacity: nat) {
    && |m.ram.slots| <= capacity && 100 <= m.ram.pollMs <= 3600000
    && Distinct(m.ram.slots) && Distinct(Image(m.nvs)) && Recoverable(m)
  }

  ghost predicate Follows(ms: seq<Model>, ops: seq<Op>, k: nat, capacity: nat)
    requires k < |ops| < |ms|
  {
    CanDo(ms[k], ops[k], capacity) && ms[k + 1] == After(ms[k], ops[k], capacity)
  }

  /** `ms[k]` is the state after the first k operations. */
  ghost predicate Run(ms: seq<Model>, ops: seq<Op>, capacity: nat) {
    |ms| == |ops| + 1 && forall k: nat :: k < |ops| ==> Follows(ms, ops, k, capacity)
  }

  lemma OpDistinct(m: Model, op: Op, capacity: nat)
    requires Inv(m, capacity) && CanDo(m, op, capacity)
    ensures Distinct(After(m, op, capacity).ram.slots)
  {
    match op {
      case Add(e) => AddContents(m.ram, e, e.key);
      case Remove(k) => RemoveContents(m.ram, k, k);
      case Clear =>
      case Import(es, replace) => ImportContents(m.ram, es, replace, es[0].key);
      case SetPoll(ms) =>
        RepolledShape(m.ram, ms);
        ShapeDistinct(RepolledRam(m.ram, ms).slots, m.ram.slots);
      case Rollback =>
        StampedShape(Image(m.nvs), m.ram.version + 1);
        ShapeDistinct(Stamped(Image(m.nvs), m.ram.version + 1), Image(m.nvs));
      case Reload =>
        LoadRebuilds(m, capacity, 1000);
        FixedUpShape(m.ram.slots, m.ram.pollMs);
        ShapeDistinct(FixedUp(m.ram.slots, m.ram.pollMs), m.ram.slots);
    }
  }

  lemma SnapshotImage(nvs: Nvs, slots: seq<Entry>)
    ensures Image(Snapshot(nvs, slots)) == if |slots| == 0 then Image(nvs) else if |slots| > ROLLBACK_MAX then [] else slots
  {
    assert slots + seq(0, _ => BLANK) == slots;
  }

  // A mutation leaves as rollback image what the snapshot took.
  lemma OpImage(m: Model, op: Op, capacity: nat)
    requires CanDo(m, op, capacity)
    ensures Image(After(m, op, capacity).nvs) == if Mutates(op) then Image(Snapshot(m.nvs, m.ram.slots)) else Image(m.nvs)
  {
    SnapshotImage(m.nvs, m.ram.slots);
  }

  lemma OpSize(m: Model, op: Op, capacity: nat)
    requires Inv(m, capacity) && CanDo(m, op, capacity)
    ensures |After(m, op, capacity).ram.slots| <= capacity
  {
    match op {
      case Import(es, replace) => ImportSize(m.ram, es, replace, capacity);
      case Reload => LoadRebuilds(m, capacity, 1000);
      case _ =>
    }
  }

  lemma ImportSize(ram: Ram, es: seq<Entry>, replace: bool, capacity: nat)
    requires |ram.slots| <= capacity && ImportStatus(ram, es, replace, capacity) == Done
    ensures |ImportedRam(ram, es, replace).slots| <= capacity
  {
    StagingSize(es, Kept(ram.slots, es, replace), Batch(ram, es), capacity, |es|);
  }

  lemma {:induction false} StagingSize(es: seq<Entry>, kept: seq<Entry>, batch: seq<Entry>, capacity: nat, n: nat)
    requires n <= |es| == |batch| && |kept| <= capacity && StagingStatus(es, kept, batch, capacity, n) == Done
    requires forall i :: 0 <= i < |es| ==> batch[i].key == es[i].key
    ensures |Staging(kept, batch, n)| <= capacity
  {
    if n == 0 {
    } else {
      StagingSize(es, kept, batch, capacity, n - 1);
    }
  }

  lemma OpKeepsInv(m: Model, op: Op, capacity: nat)
    requires Inv(m, capacity) && CanDo(m, op, capacity)
    ensures Inv(After(m, op, capacity), capacity)
  {
    OpDistinct(m, op, capacity);
    OpImage(m, op, capacity);
    SnapshotImage(m.nvs, m.ram.slots);
    OpSize(m, op, capacity);
    if op.Reload? { LoadRebuilds(m, capacity, 1000); } else { OpMirrors(m, op, capacity); }
  }

  /** Over every run with reboots anywhere, active keys stay pairwise distinct and NVS stays
      in step with the table, under schema 7. */
  lemma {:induction false} RunKeepsInv(ms: seq<Model>, ops: seq<Op>, capacity: nat, k: nat)
    requires Run(ms, ops, capacity) && k <= |ops| && Inv(ms[0], capacity)
    ensures Inv(ms[k], capacity) && ms[k].nvs.schema == Some(7) && ms[k].nvs.count == Some(|ms[k].ram.slots|)
  {
    if k == 0 {
    } else {
      RunKeepsInv(ms, ops, capacity, k - 1);
      assert Follows(ms, ops, k - 1, capacity);
      OpKeepsInv(ms[k - 1], ops[k - 1], capacity);
    }
  }

  /** A reboot at any point of a run rebuilds the table of that point, each entry repaired. */
  lemma RunReloads(ms: seq<Model>, ops: seq<Op>, capacity: nat, k: nat)
    requires Run(ms, ops, capacity) && k <= |ops| && Inv(ms[0], capacity)
    ensures CanDo(ms[k], Reload, capacity)
    ensures var ram := After(ms[k], Reload, capacity).ram;
            ram.slots == FixedUp(ms[k].ram.slots, ms[k].ram.pollMs) && ram.pollMs == ms[k].ram.pollMs
  {
    RunKeepsInv(ms, ops, capacity, k);
    LoadRebuilds(ms[k], capacity, 1000);
  }

  /** Without a reload in the run the agreement is exact: blob i is slot i throughout. */
  lemma {:induction false} RunMirrors(ms: seq<Model>, ops: seq<Op>, capacity: nat, k: nat)
    requires Run(ms, ops, capacity) && k <= |ops| && Mirrored(ms[0])
    requires forall i :: 0 <= i < |ops| ==> !ops[i].Reload?
    ensures Mirrored(ms[k])
  {
    if k == 0 {
    } else {
      RunMirrors(ms, ops, capacity, k - 1);
      assert Follows(ms, ops, k - 1, capacity);
      OpMirrors(ms[k - 1], ops[k - 1], capacity);
    }
  }

  /** The table and NVS that a first boot starts from. */
  lemma FirstBootInv(nvs: Nvs, capacity: nat)
    ensures var m := Model(Ram([], 0, 1000), TableSaved(Nvs(None, None, None, map[], None, None), [], 0, 1000));
            Inv(m, capacity) && Mirrored(m)
  {}

  // ---- Rollback ----

  /** A rollback after a mutation of a table of 1 to 256 slots restores every slot, stamped
      with a model version above all before. The default poll interval is not restored. */
  lemma RollbackUndoes(m: Model, op: Op, capacity: nat)
    requires CanDo(m, op, capacity) && Mutates(op) && 1 <= |m.ram.slots| <= 256 && |m.ram.slots| <= capacity
    ensures var done := After(m, op, capacity);
            && CanDo(done, Rollback, capacity)
            && var back := After(done, Rollback, capacity);
               && |back.ram.slots| == |m.ram.slots|
               && (forall i :: 0 <= i < |m.ram.slots| ==> back.ram.slots[i] == m.ram.slots[i].(version := back.ram.version))
               && m.ram.version < done.ram.version < back.ram.version
               && back.ram.pollMs == (if op.SetPoll? then op.ms else m.ram.pollMs)
  {
    OpImage(m, op, capacity);
    SnapshotImage(m.nvs, m.ram.slots);
    OpRollbackCount(m, op, capacity);
  }

  // The rollback keys after a mutation of a table that is not empty.
  lemma OpRollbackCount(m: Model, op: Op, capacity: nat)
    requires CanDo(m, op, capacity) && Mutates(op)
    ensures var nvs := After(m, op, capacity).nvs;
            var s := Snapshot(m.nvs, m.ram.slots);
            nvs.rollbackCount == s.rollbackCount && nvs.rollbackImage == s.rollbackImage
  {}

  /** After a mutation a rollback is possible exactly when the table it changed had 1 to 256
      slots, or was empty and an older image was there. */
  lemma RollbackAvailableIff(m: Model, op: Op, capacity: nat)
    requires CanDo(m, op, capacity) && Mutates(op) && |m.ram.slots| <= capacity
    ensures CanRollBack(After(m, op, capacity).nvs, capacity) <==>
            if |m.ram.slots| == 0 then CanRollBack(m.nvs, capacity) else |m.ram.slots| <= 256
  {
    OpRollbackCount(m, op, capacity);
  }

  /** A rollback is not itself undone by a rollback: the second restores the same slots. */
  lemma RollbackTwice(m: Model, capacity: nat)
    requires CanRollBack(m.nvs, capacity)
    ensures var once := RollbackDone(m);
            CanRollBack(once.nvs, capacity)
            && RollbackDone(once).ram.slots == Stamped(once.ram.slots, once.ram.version + 1)
  {
    assert Image(RollbackDone(m).nvs) == Image(m.nvs);
  }
}
