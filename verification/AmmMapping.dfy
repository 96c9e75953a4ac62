/** The mapping registry (main/amm/amm_mapping.c): a table with tombstones, kept in RAM and
    mirrored entry by entry in NVS, with a one-step rollback image. */
module AmmMapping {
  import opened Wrappers
  import opened AmmEntry

  const SCHEMA_VERSION := 7
  const ROLLBACK_MAX := 256

  datatype Status = Done | InvalidArg | Conflict | NotFound | NoMem | InvalidSize | NotSupported | Failed

  datatype Nvs = Nvs(
    count: Option<int>, schema: Option<nat>, pollMs: Option<nat>, blobs: map<nat, Entry>,
    rollbackCount: Option<int>, rollbackImage: Option<seq<Entry>>)

  datatype Ram = Ram(slots: seq<Entry>, version: nat, pollMs: nat)

  datatype Model = Model(ram: Ram, nvs: Nvs)

  // ---- Lookups: the first match, or the length ----

  predicate Holds(e: Entry, k: Key) { e.active && e.key == k }

  function Find(slots: seq<Entry>, k: Key): (i: nat)
    ensures i <= |slots| && forall j :: 0 <= j < i ==> !Holds(slots[j], k)
    ensures i < |slots| ==> Holds(slots[i], k)
  {
    FirstWhere(slots, (e: Entry) => Holds(e, k), 0)
  }

  function FindFree(slots: seq<Entry>): (i: nat)
    ensures i <= |slots| && forall j :: 0 <= j < i ==> slots[j].active
    ensures i < |slots| ==> !slots[i].active
  {
    FirstWhere(slots, (e: Entry) => !e.active, 0)
  }

  // Removal does not look at the function code.
  predicate AtPoint(e: Entry, k: Key) { e.active && SameDevice(e.key, k) && e.key.address == k.address }

  function FindPoint(slots: seq<Entry>, k: Key): (i: nat)
    ensures i <= |slots| && forall j :: 0 <= j < i ==> !AtPoint(slots[j], k)
    ensures i < |slots| ==> AtPoint(slots[i], k)
  {
    FirstWhere(slots, (e: Entry) => AtPoint(e, k), 0)
  }

  // ---- What a successful operation leaves ----

  ghost function Snapshot(nvs: Nvs, slots: seq<Entry>): Nvs {
    if |slots| == 0 then nvs
    else if |slots| > ROLLBACK_MAX then nvs.(rollbackCount := None, rollbackImage := None)
    else nvs.(rollbackCount := Some(|slots|), rollbackImage := Some(slots))
  }

  ghost function SlotSaved(nvs: Nvs, slots: seq<Entry>, i: nat): Nvs
    requires i < |slots|
  {
    nvs.(count := Some(|slots|), schema := Some(SCHEMA_VERSION), blobs := nvs.blobs[i := slots[i]])
  }

  // The blobs after the slots are written, and after those of an earlier, longer table are
  // erased.
  function Written(blobs: map<nat, Entry>, slots: seq<Entry>): map<nat, Entry> {
    if |slots| == 0 then blobs
    else Written(blobs, slots[..|slots| - 1])[|slots| - 1 := slots[|slots| - 1]]
  }

  function Erased(blobs: map<nat, Entry>, first: nat, end: nat): map<nat, Entry>
    decreases end
  {
    if end <= first then blobs else Erased(blobs, first, end - 1) - {end - 1}
  }

  lemma {:induction false} WrittenAt(blobs: map<nat, Entry>, slots: seq<Entry>, j: nat)
    ensures var r := Written(blobs, slots);
            && (j in r <==> j in blobs || j < |slots|)
            && (j in r ==> r[j] == if j < |slots| then slots[j] else blobs[j])
  {
    if |slots| == 0 {
    } else {
      WrittenAt(blobs, slots[..|slots| - 1], j);
    }
  }

  lemma {:induction false} ErasedAt(blobs: map<nat, Entry>, first: nat, end: nat, j: nat)
    ensures var r := Erased(blobs, first, end);
            && (j in r <==> j in blobs && !(first <= j < end))
            && (j in r ==> r[j] == blobs[j])
    decreases end
  {
    if end > first { ErasedAt(blobs, first, end - 1, j); }
  }

  ghost function TableSaved(nvs: Nvs, slots: seq<Entry>, before: nat, pollMs: nat): Nvs {
    nvs.(count := Some(|slots|), schema := Some(SCHEMA_VERSION), pollMs := Some(pollMs),
         blobs := Erased(Written(nvs.blobs, slots), |slots|, before))
  }

  function AddTarget(slots: seq<Entry>, k: Key): nat {
    var i := Find(slots, k);
    if i < |slots| then i else FindFree(slots)
  }

  function AddedRam(ram: Ram, e: Entry): Ram {
    var entry := Added(e, ram.version + 1, ram.pollMs);
    var i := AddTarget(ram.slots, e.key);
    ram.(slots := if i < |ram.slots| then ram.slots[i := entry] else ram.slots + [entry], version := ram.version + 1)
  }

  ghost function AddDone(m: Model, e: Entry): Model {
    var ram := AddedRam(m.ram, e);
    Model(ram, SlotSaved(Snapshot(m.nvs, m.ram.slots), ram.slots, AddTarget(m.ram.slots, e.key)))
  }

  function RemovedRam(ram: Ram, k: Key): Ram {
    var i := FindPoint(ram.slots, k);
    if i < |ram.slots| then ram.(slots := ram.slots[i := ram.slots[i].(active := false)], version := ram.version + 1)
    else ram
  }

  ghost function RemoveDone(m: Model, k: Key): Model
    requires FindPoint(m.ram.slots, k) < |m.ram.slots|
  {
    var ram := RemovedRam(m.ram, k);
    Model(ram, SlotSaved(Snapshot(m.nvs, m.ram.slots), ram.slots, FindPoint(m.ram.slots, k)))
  }

  ghost function ClearDone(m: Model): Model {
    var nvs := if |m.ram.slots| > ROLLBACK_MAX then Nvs(None, None, None, map[], None, None) else Snapshot(m.nvs, m.ram.slots);
    Model(m.ram.(slots := [], version := m.ram.version + 1),
          nvs.(count := Some(0), schema := Some(SCHEMA_VERSION), pollMs := Some(m.ram.pollMs)))
  }

  function Repolled(e: Entry, pollMs: nat, version: nat): Entry {
    if e.active then e.(version := version, sem := e.sem.(pollMs := pollMs)) else e
  }

  function RepolledRam(ram: Ram, pollMs: nat): Ram {
    Ram(seq(|ram.slots|, i requires 0 <= i < |ram.slots| => Repolled(ram.slots[i], pollMs, ram.version + 1)),
        ram.version + 1, pollMs)
  }

  ghost function SetPollDone(m: Model, pollMs: nat): Model {
    var ram := RepolledRam(m.ram, pollMs);
    Model(ram, TableSaved(Snapshot(m.nvs, m.ram.slots), ram.slots, |ram.slots|, pollMs))
  }

  ghost predicate CanRollBack(nvs: Nvs, capacity: nat) {
    && nvs.rollbackCount.Some? && 0 < nvs.rollbackCount.value <= capacity
    && nvs.rollbackImage.Some? && |nvs.rollbackImage.value| <= nvs.rollbackCount.value
  }

  // The slots a rollback reads: an image shorter than its count leaves blank cells.
  ghost function Image(nvs: Nvs): seq<Entry> {
    if nvs.rollbackCount.Some? && nvs.rollbackImage.Some? && |nvs.rollbackImage.value| <= nvs.rollbackCount.value
    then nvs.rollbackImage.value + seq(nvs.rollbackCount.value - |nvs.rollbackImage.value|, _ => BLANK)
    else []
  }

  function Stamped(slots: seq<Entry>, version: nat): seq<Entry> {
    seq(|slots|, i requires 0 <= i < |slots| => slots[i].(version := version))
  }

  ghost function RolledBackRam(m: Model): Ram {
    m.ram.(slots := Stamped(Image(m.nvs), m.ram.version + 1), version := m.ram.version + 1)
  }

  ghost function RollbackDone(m: Model): Model {
    var ram := RolledBackRam(m);
    Model(ram, TableSaved(m.nvs, ram.slots, |ram.slots|, m.ram.pollMs))
  }

  // ---- What a load reads ----

  function LoadedPoll(nvs: Nvs, pollMs: nat): nat {
    if nvs.pollMs.Some? && 100 <= nvs.pollMs.value <= 3600000 then nvs.pollMs.value else pollMs
  }

  ghost predicate Loadable(nvs: Nvs, capacity: nat) {
    && nvs.schema == Some(SCHEMA_VERSION)
    && nvs.count.Some? && 0 <= nvs.count.value <= capacity
    && forall i: nat :: i < nvs.count.value ==> i in nvs.blobs
  }

  function HighestVersion(slots: seq<Entry>): nat {
    if |slots| == 0 then 1
    else
      var rest := HighestVersion(slots[..|slots| - 1]);
      if slots[|slots| - 1].version > rest then slots[|slots| - 1].version else rest
  }

  // The first `n` blobs, as they are on flash.
  function StoredSlots(blobs: map<nat, Entry>, n: nat): (r: seq<Entry>)
    requires forall i: nat :: i < n ==> i in blobs
    ensures |r| == n
  {
    seq(n, i requires 0 <= i < n => blobs[i])
  }

  function FixedUp(slots: seq<Entry>, pollMs: nat): (r: seq<Entry>)
    ensures |r| == |slots|
  {
    seq(|slots|, i requires 0 <= i < |slots| => FixUp(slots[i], pollMs))
  }

  ghost function LoadedRam(nvs: Nvs, capacity: nat, pollMs: nat): Ram
    requires Loadable(nvs, capacity)
  {
    var poll := LoadedPoll(nvs, pollMs);
    var slots := FixedUp(StoredSlots(nvs.blobs, nvs.count.value), poll);
    Ram(slots, HighestVersion(slots), poll)
  }

  /** No NVS call of a method fails. */
  ghost predicate NvsWorks(io: nat -> bool) { forall k: nat :: io(k) }

  // ---- The table ----

  class AmmTable {
    const capacity: nat
    const table: array<Entry>
    var count: nat
    var version: nat
    var pollMs: nat
    var nvs: Nvs

    ghost predicate Valid()
      reads this
    {
      table.Length == capacity && count <= capacity
    }

    ghost function Slots(): seq<Entry>
      reads this, table
      requires Valid()
    {
      table[..count]
    }

    ghost function RamNow(): Ram
      reads this, table
      requires Valid()
    {
      Ram(Slots(), version, pollMs)
    }

    ghost function Abs(): Model
      reads this, table
      requires Valid()
    {
      Model(RamNow(), nvs)
    }

    constructor (capacity: nat, nvs: Nvs)
      ensures Valid() && fresh(table) && this.capacity == capacity && this.nvs == nvs
      ensures RamNow() == Ram([], 0, 1000)
    {
      this.capacity := capacity;
      table := new Entry[capacity](_ => BLANK);
      count, version, pollMs := 0, 0, 1000;
      this.nvs := nvs;
    }

    // In each method `io(k)` is the outcome of the k-th NVS call that it makes.

    /** amm_save_entry_to_nvs_unlocked. */
    method SaveEntry(i: nat, io: nat -> bool) returns (status: Status)
      requires Valid() && i < count
      modifies this`nvs
      ensures status == Done ==> nvs == SlotSaved(old(nvs), Slots(), i)
      ensures status == Done || (status == Failed && !NvsWorks(io))
      ensures nvs.rollbackCount == old(nvs.rollbackCount) && nvs.rollbackImage == old(nvs.rollbackImage)
    {
      if !io(0) || !io(1) { return Failed; }
      nvs := nvs.(count := Some(count));
      if !io(2) { return Failed; }
      nvs := nvs.(schema := Some(SCHEMA_VERSION));
      if !io(3) { return Failed; }
      nvs := nvs.(blobs := nvs.blobs[i := table[i]]);
      return if io(4) then Done else Failed;
    }

    /** amm_save_table_to_nvs_unlocked. `before` is the slot count still in RAM. */
    method SaveTable(source: array<Entry>, n: nat, io: nat -> bool) returns (status: Status)
      requires Valid() && n <= source.Length
      modifies this`nvs
      ensures status == Done ==> nvs == TableSaved(old(nvs), source[..n], count, pollMs)
      ensures n > capacity ==> status == InvalidArg
      ensures n <= capacity ==> status == Done || (status == Failed && !NvsWorks(io))
      ensures nvs.rollbackCount == old(nvs.rollbackCount) && nvs.rollbackImage == old(nvs.rollbackImage)
    {
      if n > capacity { return InvalidArg; }
      if !io(0) || !io(1) { return Failed; }
      nvs := nvs.(count := Some(n));
      if !io(2) { return Failed; }
      nvs := nvs.(schema := Some(SCHEMA_VERSION));
      if !io(3) { return Failed; }
      nvs := nvs.(pollMs := Some(pollMs));
      var blobs, ok := WriteBlobs(nvs.blobs, source, n, io);
      if ok { blobs, ok := EraseBlobs(blobs, n, io); }
      nvs := nvs.(blobs := blobs);
      return if ok && io(4) then Done else Failed;
    }

    // The blob loops of the save: write the live slots, erase those beyond.
    method WriteBlobs(start: map<nat, Entry>, source: array<Entry>, n: nat, io: nat -> bool)
      returns (blobs: map<nat, Entry>, ok: bool)
      requires n <= source.Length
      ensures ok ==> blobs == Written(start, source[..n])
      ensures !ok ==> !NvsWorks(io)
    {
      blobs, ok := start, true;
      var i := 0;
      while i < n && ok
        invariant 0 <= i <= n
        invariant ok ==> blobs == Written(start, source[..i])
        invariant !ok ==> !NvsWorks(io)
      {
        ok := io(5 + i);
        if ok { blobs := blobs[i := source[i]]; }
        i := i + 1;
        assert source[..i][..i - 1] == source[..i - 1];
      }
    }

    method EraseBlobs(start: map<nat, Entry>, n: nat, io: nat -> bool) returns (blobs: map<nat, Entry>, ok: bool)
      ensures ok ==> blobs == Erased(start, n, count)
      ensures !ok ==> !NvsWorks(io)
    {
      blobs, ok := start, true;
      var i := n;
      while i < count && ok
        invariant n <= i && (i <= count || i == n)
        invariant ok ==> blobs == Erased(start, n, i)
        invariant !ok ==> !NvsWorks(io)
      {
        ok := io(5 + i);
        if ok { blobs := blobs - {i}; }
        i := i + 1;
      }
    }

    /** amm_save_rollback_unlocked. */
    method SaveRollback(io: nat -> bool) returns (status: Status)
      requires Valid()
      modifies this`nvs
      ensures Permits(status) ==> nvs == Snapshot(old(nvs), Slots())
      ensures status == Done <==> 0 < count <= ROLLBACK_MAX && Permits(status)
      ensures status == NotFound <==> count == 0
      ensures status == NotSupported ==> count > ROLLBACK_MAX
      ensures Permits(status) || (status == Failed && !NvsWorks(io))
      ensures nvs == old(nvs).(rollbackCount := nvs.rollbackCount, rollbackImage := nvs.rollbackImage)
    {
      if count <= 0 { return NotFound; }
      if !io(0) { return Failed; }
      if count > ROLLBACK_MAX {
        if io(1) { nvs := nvs.(rollbackCount := None); }
        if io(2) { nvs := nvs.(rollbackImage := None); }
        return if io(1) && io(2) && io(3) then NotSupported else Failed;
      }
      if !io(1) { return Failed; }
      nvs := nvs.(rollbackCount := Some(count));
      if !io(2) { return Failed; }
      nvs := nvs.(rollbackImage := Some(table[..count]));
      return if io(3) then Done else Failed;
    }

    /** amm_add_mapping. The RAM table may change although the save then fails. */
    method AddMapping(e: Entry, io: nat -> bool, saveIo: nat -> bool) returns (status: Status)
      requires Valid()
      modifies this, table
      ensures Valid()
      ensures status == Done ==> Abs() == AddDone(old(Abs()), e)
      ensures RamNow() == old(RamNow()) || RamNow() == AddedRam(old(RamNow()), e)
      ensures status == NoMem ==> old(AddTarget(Slots(), e.key)) == capacity
      ensures old(AddTarget(Slots(), e.key)) == capacity ==> status != Done && RamNow() == old(RamNow())
      ensures NvsWorks(io) && NvsWorks(saveIo) ==> status == if old(AddTarget(Slots(), e.key)) < capacity then Done else NoMem
    {
      var i := FindActive(e.key);
      status := SaveRollback(io);
      if !Permits(status) { return; }
      if i == count {
        i := FirstFree();
        if i == count && count >= capacity { return NoMem; }
      }
      ghost var before := Slots();
      assert i == AddTarget(before, e.key);
      if i == count { count := count + 1; }
      table[i] := Added(e, version + 1, pollMs);
      version := version + 1;
      assert Slots() == AddedRam(old(RamNow()), e).slots;
      status := SaveEntry(i, saveIo);
    }

    method FindActive(k: Key) returns (i: nat)
      requires Valid()
      ensures i == Find(Slots(), k)
    {
      i := 0;
      while i < count && !(table[i].active && table[i].key == k)
        invariant 0 <= i <= count
        invariant forall j :: 0 <= j < i ==> !Holds(table[j], k)
      {
        i := i + 1;
      }
    }

    method FirstFree() returns (i: nat)
      requires Valid()
      ensures i == FindFree(Slots())
    {
      i := 0;
      while i < count && table[i].active
        invariant 0 <= i <= count
        invariant forall j :: 0 <= j < i ==> table[j].active
      {
        i := i + 1;
      }
    }

    /** amm_remove_mapping_for_channel. */
    method RemoveMapping(k: Key, io: nat -> bool, saveIo: nat -> bool) returns (status: Status)
      requires Valid()
      modifies this, table
      ensures Valid()
      ensures status == NotFound <==> old(FindPoint(Slots(), k)) == old(count)
      ensures status == NotFound ==> Abs() == old(Abs())
      ensures status == Done ==> Abs() == RemoveDone(old(Abs()), k)
      ensures NvsWorks(io) && NvsWorks(saveIo) ==> status == Done || status == NotFound
      ensures RamNow() == old(RamNow()) || RamNow() == RemovedRam(old(RamNow()), k)
    {
      var i := 0;
      while i < count && !AtPoint(table[i], k)
        invariant 0 <= i <= count
        invariant forall j :: 0 <= j < i ==> !AtPoint(table[j], k)
      {
        i := i + 1;
      }
      assert i == FindPoint(Slots(), k);
      if i == count { return NotFound; }
      status := SaveRollback(io);
      if !Permits(status) { return; }
      table[i] := table[i].(active := false);
      version := version + 1;
      assert Slots() == RemovedRam(old(RamNow()), k).slots;
      status := SaveEntry(i, saveIo);
    }

    /** amm_clear_mappings: RAM is cleared only once NVS is. */
    method ClearMappings(io: nat -> bool, saveIo: nat -> bool) returns (status: Status)
      requires Valid()
      modifies this, table
      ensures Valid()
      ensures status == Done ==> Abs() == ClearDone(old(Abs()))
      ensures NvsWorks(io) && NvsWorks(saveIo) ==> status == Done
      ensures status != Done ==> RamNow() == old(RamNow())
    {
      status := SaveRollback(io);
      if !Permits(status) { return; }
      if !saveIo(0) { return Failed; }
      if status == NotSupported {
        if !saveIo(1) { return Failed; }
        nvs := Nvs(None, None, None, map[], None, None);
      }
      if !saveIo(2) { return Failed; }
      nvs := nvs.(count := Some(0));
      if !saveIo(3) { return Failed; }
      nvs := nvs.(schema := Some(SCHEMA_VERSION));
      if !saveIo(4) { return Failed; }
      nvs := nvs.(pollMs := Some(pollMs));
      if !saveIo(5) { return Failed; }
      Blank();
      count, version := 0, version + 1;
      return Done;
    }

    method Blank()
      modifies table
      ensures forall i :: 0 <= i < table.Length ==> table[i] == BLANK
    {
      for i := 0 to table.Length
        invariant forall j :: 0 <= j < i ==> table[j] == BLANK
      {
        table[i] := BLANK;
      }
    }

    /** amm_set_poll_interval_all. */
    method SetPollIntervalAll(ms: nat, io: nat -> bool, saveIo: nat -> bool) returns (status: Status)
      requires Valid()
      modifies this, table
      ensures Valid()
      ensures status == InvalidArg <==> !(100 <= ms <= 3600000)
      ensures status == InvalidArg ==> Abs() == old(Abs())
      ensures status == Done ==> Abs() == SetPollDone(old(Abs()), ms)
      ensures NvsWorks(io) && NvsWorks(saveIo) ==> status == Done || status == InvalidArg
      ensures RamNow() == old(RamNow()) || RamNow() == RepolledRam(old(RamNow()), ms)
    {
      if ms < 100 || ms > 3600000 { return InvalidArg; }
      status := SaveRollback(io);
      if !Permits(status) { return; }
      pollMs, version := ms, version + 1;
      ghost var before := Slots();
      for i := 0 to count
        modifies table
        invariant forall j :: i <= j < count ==> table[j] == before[j]
        invariant forall j :: 0 <= j < i ==> table[j] == Repolled(before[j], ms, version)
      {
        if table[i].active {
          table[i] := table[i].(version := version, sem := table[i].sem.(pollMs := ms));
        }
      }
      assert Slots() == RepolledRam(old(RamNow()), ms).slots;
      status := SaveTable(table, count, saveIo);
    }

    /** amm_rollback. */
    method Rollback(io: nat -> bool, saveIo: nat -> bool) returns (status: Status)
      requires Valid()
      modifies this, table
      ensures Valid()
      ensures status == Done ==> CanRollBack(old(nvs), capacity) && Abs() == RollbackDone(old(Abs()))
      ensures !CanRollBack(old(nvs), capacity) ==> status != Done && Abs() == old(Abs())
      ensures CanRollBack(old(nvs), capacity) && NvsWorks(io) && NvsWorks(saveIo) ==> status == Done
      ensures RamNow() == old(RamNow()) || RamNow() == RolledBackRam(old(Abs()))
    {
      if !io(0) || !io(1) { return Failed; }
      if nvs.rollbackCount.None? { return NotFound; }
      var n := nvs.rollbackCount.value;
      if !(0 < n <= capacity) { return InvalidSize; }
      if !io(2) { return NoMem; }
      if !io(3) { return Failed; }
      if nvs.rollbackImage.None? { return NotFound; }
      var snapshot := nvs.rollbackImage.value;
      if |snapshot| > n { return InvalidSize; }
      Restore(snapshot, n);
      status := SaveTable(table, count, saveIo);
    }

    method Restore(snapshot: seq<Entry>, n: nat)
      requires Valid() && |snapshot| <= n <= capacity
      requires nvs.rollbackCount == Some(n) && nvs.rollbackImage == Some(snapshot)
      modifies this`count, this`version, table
      ensures Valid() && RamNow() == RolledBackRam(old(Abs()))
    {
      Blank();
      for i := 0 to |snapshot|
        modifies table
        invariant forall j :: 0 <= j < i ==> table[j] == snapshot[j]
        invariant forall j :: i <= j < capacity ==> table[j] == BLANK
      {
        table[i] := snapshot[i];
      }
      count, version := n, version + 1;
      assert table[..n] == Image(nvs);
      Stamp();
    }

    method Stamp()
      requires Valid()
      modifies table
      ensures Slots() == Stamped(old(Slots()), version)
    {
      ghost var before := Slots();
      for i := 0 to count
        invariant forall j :: 0 <= j < i ==> table[j] == before[j].(version := version)
        invariant forall j :: i <= j < count ==> table[j] == before[j]
      {
        table[i] := table[i].(version := version);
      }
      assert Slots() == Stamped(before, version);
    }

    /** amm_load_from_nvs for the current schema. */
    method Load() returns (status: Status)
      requires Valid()
      modifies this`count, this`version, this`pollMs, table
      ensures Valid() && nvs == old(nvs)
      ensures status == Done <==> Loadable(nvs, capacity)
      ensures status == Done ==> RamNow() == LoadedRam(nvs, capacity, old(pollMs))
      ensures status != Done ==> count == 0 || Slots() == old(Slots())
    {
      pollMs := LoadedPoll(nvs, pollMs);
      if nvs.schema != Some(SCHEMA_VERSION) { return NotSupported; }
      if nvs.count.None? { return NotFound; }
      var n := nvs.count.value;
      if n < 0 || n > capacity { return InvalidSize; }
      var ok := ReadBlobs(n);
      if !ok {
        Blank();
        count := 0;
        return NotFound;
      }
      count := n;
      FixUps();
      return Done;
    }

    method ReadBlobs(n: nat) returns (ok: bool)
      requires n <= table.Length
      modifies table
      ensures ok <==> forall j: nat :: j < n ==> j in nvs.blobs
      ensures ok ==> table[..n] == StoredSlots(nvs.blobs, n)
    {
      Blank();
      for i := 0 to n
        modifies table
        invariant forall j: nat :: j < i ==> j in nvs.blobs && table[j] == nvs.blobs[j]
      {
        if i !in nvs.blobs { return false; }
        table[i] := nvs.blobs[i];
      }
      return true;
    }

    // The repairs at the end of a load.
    method FixUps()
      requires Valid()
      modifies this`version, table
      ensures Slots() == FixedUp(old(Slots()), pollMs)
      ensures version == HighestVersion(Slots())
    {
      ghost var before := Slots();
      version := 1;
      for i := 0 to count
        modifies this`version, table
        invariant table[..i] == FixedUp(before, pollMs)[..i]
        invariant forall j :: i <= j < count ==> table[j] == before[j]
        invariant version == HighestVersion(table[..i])
      {
        ghost var done := table[..i];
        table[i] := FixUp(table[i], pollMs);
        assert table[..i + 1][..i] == done;
        if table[i].version > version { version := table[i].version; }
      }
    }
  }

  predicate Permits(s: Status) { s == Done || s == NotFound || s == NotSupported }
}
