/** amm_import_mappings (main/amm/amm_mapping.c): a batch of mappings is merged with the table
    in a staging array, saved, and only then published. */
module AmmImport {
  import opened Wrappers
  import opened AmmEntry
  import opened AmmMapping

  // ---- The batch ----

  predicate SameSemantic(a: Entry, b: Entry) { a.sem.names.deviceId == b.sem.names.deviceId && a.sem.names.pointId == b.sem.names.pointId }

  /** In a batch, physical keys and semantic names identify each other. */
  ghost predicate Consistent(es: seq<Entry>) {
    forall i, j :: 0 <= i < j < |es| ==> (es[i].key == es[j].key <==> SameSemantic(es[i], es[j]))
  }

  predicate Malformed(e: Entry) {
    e.key.slave < 1 || e.key.functionCode < 1 || e.key.functionCode > 4 || e.sem.names.deviceId == "" || e.sem.names.pointId == ""
  }

  ghost predicate NamesDevice(es: seq<Entry>, k: Key) {
    exists i :: 0 <= i < |es| && SameDevice(es[i].key, k)
  }

  // ---- Staging ----

  predicate IsUserPoint(e: Entry, k: Key) { Holds(e, k) && e.sem.origin.source.User? }

  function FindUser(slots: seq<Entry>, k: Key): (i: nat)
    ensures i <= |slots| && forall j :: 0 <= j < i ==> !IsUserPoint(slots[j], k)
    ensures i < |slots| ==> IsUserPoint(slots[i], k)
  {
    FirstWhere(slots, (e: Entry) => IsUserPoint(e, k), 0)
  }

  // The semantics of a point: those of its USER entry in the table, if it has one.
  function SemanticsFor(slots: seq<Entry>, e: Entry): Semantics {
    var u := FindUser(slots, e.key);
    if u < |slots| then slots[u].sem else e.sem
  }

  function Prepared(slots: seq<Entry>, pollMs: nat, e: Entry, version: nat): Entry {
    var entry := ImportedAs(e, version, pollMs);
    entry.(sem := SemanticsFor(slots, entry))
  }

  /** The batch as it will be stored; each entry gets a model version of its own. */
  ghost function Batch(ram: Ram, es: seq<Entry>): (r: seq<Entry>)
    ensures |r| == |es|
  {
    seq(|es|, i requires 0 <= i < |es| => Prepared(ram.slots, ram.pollMs, es[i], ram.version + 1 + i))
  }

  ghost predicate Keeps(e: Entry, es: seq<Entry>, replace: bool) {
    e.active && !(replace && NamesDevice(es, e.key))
  }

  ghost function Kept(slots: seq<Entry>, es: seq<Entry>, replace: bool): (r: seq<Entry>)
    ensures |r| <= |slots|
  {
    if |slots| == 0 then []
    else
      var last := slots[|slots| - 1];
      Kept(slots[..|slots| - 1], es, replace) + (if Keeps(last, es, replace) then [last] else [])
  }

  function Merged(staged: seq<Entry>, e: Entry): seq<Entry> {
    var i := Find(staged, e.key);
    if i < |staged| then staged[i := e] else staged + [e]
  }

  /** The staging array after the first `n` entries of the batch. */
  function Staging(kept: seq<Entry>, batch: seq<Entry>, n: nat): seq<Entry>
    requires n <= |batch|
  {
    if n == 0 then kept else Merged(Staging(kept, batch, n - 1), batch[n - 1])
  }

  predicate NoRoom(staged: seq<Entry>, k: Key, capacity: nat) {
    Find(staged, k) == |staged| && |staged| >= capacity
  }

  function NextStatus(staged: seq<Entry>, e: Entry, capacity: nat): Status {
    if Malformed(e) then InvalidArg else if NoRoom(staged, e.key, capacity) then NoMem else Done
  }

  /** The first error of the loop over the batch `es`, prepared as `batch`. */
  function StagingStatus(es: seq<Entry>, kept: seq<Entry>, batch: seq<Entry>, capacity: nat, n: nat): Status
    requires n <= |es| == |batch|
  {
    if n == 0 then Done
    else
      var earlier := StagingStatus(es, kept, batch, capacity, n - 1);
      if earlier != Done then earlier else NextStatus(Staging(kept, batch, n - 1), es[n - 1], capacity)
  }

  ghost function ImportStatus(ram: Ram, es: seq<Entry>, replace: bool, capacity: nat): Status {
    StagingStatus(es, Kept(ram.slots, es, replace), Batch(ram, es), capacity, |es|)
  }

  ghost function ImportedRam(ram: Ram, es: seq<Entry>, replace: bool): Ram {
    ram.(slots := Staging(Kept(ram.slots, es, replace), Batch(ram, es), |es|), version := ram.version + |es|)
  }

  ghost function ImportDone(m: Model, es: seq<Entry>, replace: bool): Model {
    var ram := ImportedRam(m.ram, es, replace);
    Model(ram, TableSaved(Snapshot(m.nvs, m.ram.slots), ram.slots, |m.ram.slots|, ram.pollMs))
  }

  // ---- The operation ----

  method CheckConsistent(es: seq<Entry>) returns (ok: bool)
    ensures ok <==> Consistent(es)
  {
    for i := 0 to |es|
      invariant forall a, b :: 0 <= a < b < |es| && a < i ==> (es[a].key == es[b].key <==> SameSemantic(es[a], es[b]))
    {
      for j := i + 1 to |es|
        invariant forall b :: i < b < j ==> (es[i].key == es[b].key <==> SameSemantic(es[i], es[b]))
      {
        var sameSource, sameSemantic := es[i].key == es[j].key, SameSemantic(es[i], es[j]);
        if (sameSource && !sameSemantic) || (!sameSource && sameSemantic) { return false; }
      }
    }
    return true;
  }

  method ContainsDevice(es: seq<Entry>, k: Key) returns (found: bool)
    ensures found <==> NamesDevice(es, k)
  {
    for i := 0 to |es|
      invariant forall j :: 0 <= j < i ==> !SameDevice(es[j].key, k)
    {
      if SameDevice(es[i].key, k) { return true; }
    }
    return false;
  }

  /** Copies what the import keeps; the table never holds more than fits. */
  method KeepCurrent(t: AmmTable, staging: array<Entry>, es: seq<Entry>, replace: bool) returns (n: nat)
    requires t.Valid() && staging.Length == t.capacity && staging != t.table
    modifies staging
    ensures n <= staging.Length && staging[..n] == Kept(t.Slots(), es, replace)
  {
    n := 0;
    ghost var slots := t.Slots();
    for i := 0 to t.count
      invariant n <= i && staging[..n] == Kept(slots[..i], es, replace)
    {
      assert slots[..i + 1][..i] == slots[..i];
      var current := t.table[i];
      if current.active {
        var named := ContainsDevice(es, current.key);
        if !(replace && named) {
          staging[n] := current;
          n := n + 1;
        }
      }
    }
    assert slots[..t.count] == slots;
  }

  method Prepare(t: AmmTable, e: Entry, version: nat) returns (entry: Entry)
    requires t.Valid()
    ensures entry == Prepared(t.Slots(), t.pollMs, e, version)
    ensures entry.key == e.key && entry.active
  {
    entry := ImportedAs(e, version, t.pollMs);
    FixUpKeeps(e.(active := true, version := version), t.pollMs);
    var j := 0;
    while j < t.count && !(t.table[j].active && t.table[j].sem.origin.source.User? && t.table[j].key == entry.key)
      invariant 0 <= j <= t.count
      invariant forall i :: 0 <= i < j ==> !IsUserPoint(t.table[i], e.key)
    {
      j := j + 1;
    }
    assert j == FindUser(t.Slots(), e.key);
    if j < t.count { entry := Overlaid(entry, t.table[j]); }
  }

  /** Merges one prepared entry into the staging array. */
  method Merge(staging: array<Entry>, n: nat, e: Entry) returns (m: nat, status: Status)
    requires n <= staging.Length && forall i :: 0 <= i < n ==> staging[i].active
    modifies staging
    ensures status == if NoRoom(old(staging[..n]), e.key, staging.Length) then NoMem else Done
    ensures status == Done ==> n <= m <= staging.Length && staging[..m] == Merged(old(staging[..n]), e)
  {
    var j := 0;
    while j < n && staging[j].key != e.key
      invariant 0 <= j <= n
      invariant forall i :: 0 <= i < j ==> !Holds(staging[i], e.key)
    {
      j := j + 1;
    }
    ghost var staged := staging[..n];
    assert j == Find(staged, e.key);
    if j < n {
      staging[j] := e;
      return n, Done;
    }
    if n >= staging.Length { return n, NoMem; }
    staging[n] := e;
    assert staging[..n + 1] == staged + [e];
    return n + 1, Done;
  }

  lemma FixUpKeeps(e: Entry, pollMs: nat)
    ensures FixUp(e, pollMs).key == e.key && FixUp(e, pollMs).active == e.active && FixUp(e, pollMs).version == e.version
  {}

  lemma PreparedKey(slots: seq<Entry>, pollMs: nat, e: Entry, version: nat)
    ensures var p := Prepared(slots, pollMs, e, version); p.key == e.key && p.active && p.version == version
  {
    FixUpKeeps(e.(active := true, version := version), pollMs);
  }

  ghost predicate AllActive(slots: seq<Entry>) { forall i :: 0 <= i < |slots| ==> slots[i].active }

  lemma {:induction false} StagingActive(kept: seq<Entry>, batch: seq<Entry>, n: nat)
    requires n <= |batch| && AllActive(kept) && AllActive(batch)
    ensures AllActive(Staging(kept, batch, n))
  {
    if n == 0 {
    } else {
      StagingActive(kept, batch, n - 1);
    }
  }

  lemma {:induction false} KeptActive(slots: seq<Entry>, es: seq<Entry>, replace: bool)
    ensures AllActive(Kept(slots, es, replace))
  {
    if |slots| == 0 {
    } else {
      KeptActive(slots[..|slots| - 1], es, replace);
    }
  }

  lemma BatchKeys(ram: Ram, es: seq<Entry>)
    ensures AllActive(Batch(ram, es))
    ensures forall i :: 0 <= i < |es| ==> Batch(ram, es)[i].key == es[i].key && Batch(ram, es)[i].version == ram.version + 1 + i
  {
    forall i | 0 <= i < |es|
      ensures var b := Batch(ram, es)[i]; b.active && b.key == es[i].key && b.version == ram.version + 1 + i
    {
      PreparedKey(ram.slots, ram.pollMs, es[i], ram.version + 1 + i);
    }
  }

  // One turn of the loop over the batch.
  method StageNext(t: AmmTable, staging: array<Entry>, n: nat, e: Entry) returns (m: nat, status: Status)
    requires t.Valid() && staging != t.table
    requires n <= staging.Length && AllActive(staging[..n])
    modifies staging, t`version
    ensures status == NextStatus(old(staging[..n]), e, staging.Length)
    ensures status == Done ==>
              && m <= staging.Length && t.version == old(t.version) + 1
              && staging[..m] == Merged(old(staging[..n]), Prepared(t.Slots(), t.pollMs, e, t.version))
  {
    if Malformed(e) { return n, InvalidArg; }
    t.version := t.version + 1;
    var entry := Prepare(t, e, t.version);
    assert forall j :: 0 <= j < n ==> staging[j] == staging[..n][j];
    m, status := Merge(staging, n, entry);
  }

  ghost predicate StoresAt(batch: seq<Entry>, slots: seq<Entry>, pollMs: nat, es: seq<Entry>, first: nat, i: nat)
    requires i < |batch| == |es|
  {
    batch[i] == Prepared(slots, pollMs, es[i], first + i + 1)
  }

  // `batch` is how the entries of `es` are stored.
  ghost predicate IsBatch(batch: seq<Entry>, slots: seq<Entry>, pollMs: nat, es: seq<Entry>, first: nat)
    requires |batch| == |es|
  {
    forall i: nat :: i < |es| ==> StoresAt(batch, slots, pollMs, es, first, i)
  }

  // One turn: the first `i` entries are staged in the first `n` cells.
  method StageTurn(t: AmmTable, staging: array<Entry>, n: nat, es: seq<Entry>, i: nat,
                   ghost kept: seq<Entry>, ghost batch: seq<Entry>, ghost first: nat)
    returns (m: nat, status: Status)
    requires t.Valid() && staging.Length == t.capacity && staging != t.table
    requires i < |es| == |batch| && AllActive(kept) && AllActive(batch)
    requires IsBatch(batch, t.Slots(), t.pollMs, es, first) && t.version == first + i
    requires n <= staging.Length && staging[..n] == Staging(kept, batch, i)
    modifies staging, t`version
    ensures status == NextStatus(Staging(kept, batch, i), es[i], t.capacity)
    ensures status == Done ==> m <= staging.Length && staging[..m] == Staging(kept, batch, i + 1) && t.version == first + i + 1
  {
    StagingActive(kept, batch, i);
    assert StoresAt(batch, t.Slots(), t.pollMs, es, first, i);
    m, status := StageNext(t, staging, n, es[i]);
  }

  // The loop over the batch, from the kept entries in the first `n0` cells.
  method StageBatch(t: AmmTable, staging: array<Entry>, n0: nat, es: seq<Entry>, ghost batch: seq<Entry>)
    returns (n: nat, status: Status)
    requires t.Valid() && staging.Length == t.capacity && staging != t.table
    requires n0 <= staging.Length && AllActive(staging[..n0]) && |batch| == |es| && AllActive(batch)
    requires IsBatch(batch, t.Slots(), t.pollMs, es, t.version)
    modifies staging, t`version
    ensures status == StagingStatus(es, old(staging[..n0]), batch, t.capacity, |es|)
    ensures status == Done ==>
              && n <= staging.Length && staging[..n] == Staging(old(staging[..n0]), batch, |es|)
              && t.version == old(t.version) + |es|
  {
    ghost var kept, slots, first := staging[..n0], t.Slots(), t.version;
    n, status := n0, Done;
    var i := 0;
    while i < |es| && status == Done
      invariant 0 <= i <= |es| && t.Slots() == slots
      invariant status == Done ==> n <= staging.Length && staging[..n] == Staging(kept, batch, i) && t.version == first + i
      invariant status == StagingStatus(es, kept, batch, t.capacity, i)
    {
      n, status := StageTurn(t, staging, n, es, i, kept, batch, first);
      i := i + 1;
    }
    if status != Done { StatusSticks(es, kept, batch, t.capacity, i); }
  }

  /** The staging of a whole import; the model version counts up with the batch. */
  method Stage(t: AmmTable, staging: array<Entry>, es: seq<Entry>, replace: bool)
    returns (n: nat, status: Status)
    requires t.Valid() && staging.Length == t.capacity && staging != t.table
    modifies staging, t`version
    ensures status == old(ImportStatus(t.RamNow(), es, replace, t.capacity))
    ensures status == Done ==>
              && n <= staging.Length && staging[..n] == old(ImportedRam(t.RamNow(), es, replace)).slots
              && t.version == old(t.version) + |es|
  {
    n := KeepCurrent(t, staging, es, replace);
    ghost var batch := Batch(t.RamNow(), es);
    BatchKeys(t.RamNow(), es);
    KeptActive(t.Slots(), es, replace);
    n, status := StageBatch(t, staging, n, es, batch);
  }

  lemma {:induction false} StatusSticks(es: seq<Entry>, kept: seq<Entry>, batch: seq<Entry>, capacity: nat, i: nat)
    requires i <= |es| == |batch| && StagingStatus(es, kept, batch, capacity, i) != Done
    ensures StagingStatus(es, kept, batch, capacity, |es|) == StagingStatus(es, kept, batch, capacity, i)
    decreases |es| - i
  {
    if i == |es| {
    } else {
      StatusSticks(es, kept, batch, capacity, i + 1);
    }
  }

  /** amm_import_mappings. Whatever fails, the table in RAM and its version are as before. */
  method ImportMappings(t: AmmTable, es: seq<Entry>, replace: bool, allocates: bool, io: nat -> bool, saveIo: nat -> bool)
    returns (status: Status, imported: nat)
    requires t.Valid()
    modifies t, t.table
    ensures t.Valid()
    ensures status == Done ==>
              && t.Abs() == ImportDone(old(t.Abs()), es, replace) && imported == |es|
              && |es| > 0 && Consistent(es) && old(ImportStatus(t.RamNow(), es, replace, t.capacity)) == Done
    ensures status != Done ==> t.RamNow() == old(t.RamNow()) && imported == 0
    ensures |es| == 0 ==> status == InvalidArg
    ensures |es| > 0 && !Consistent(es) ==> status == Conflict
    ensures |es| > 0 && Consistent(es) ==>
              status in {old(ImportStatus(t.RamNow(), es, replace, t.capacity)), Failed, NoMem}
    ensures |es| > 0 && Consistent(es) && allocates && NvsWorks(io) && NvsWorks(saveIo) ==>
              status == old(ImportStatus(t.RamNow(), es, replace, t.capacity))
  {
    imported := 0;
    if |es| == 0 { return InvalidArg, 0; }
    var consistent := CheckConsistent(es);
    if !consistent { return Conflict, 0; }
    if !allocates { return NoMem, 0; }
    var staging := new Entry[t.capacity](_ => BLANK);
    var previous := t.version;
    var snapshot := t.SaveRollback(io);
    if !Permits(snapshot) && t.count > 0 { return Failed, 0; }
    status := Replace(t, staging, es, replace, saveIo);
    if status == Done { imported := |es|; }
    else { t.version := previous; }
  }

  // Stage, save, publish.
  method Replace(t: AmmTable, staging: array<Entry>, es: seq<Entry>, replace: bool, saveIo: nat -> bool)
    returns (status: Status)
    requires t.Valid() && staging.Length == t.capacity && staging != t.table
    modifies staging, t`count, t`version, t`nvs, t.table
    ensures t.Valid()
    ensures var ram := old(t.RamNow());
            && (status == Done ==>
                  && t.RamNow() == ImportedRam(ram, es, replace)
                  && t.nvs == TableSaved(old(t.nvs), t.Slots(), |ram.slots|, ram.pollMs))
            && (status != Done ==> t.Slots() == ram.slots)
            && (status == ImportStatus(ram, es, replace, t.capacity) || (status == Failed && !NvsWorks(saveIo)))
            && (status == Done ==> ImportStatus(ram, es, replace, t.capacity) == Done)
  {
    var n;
    n, status := Stage(t, staging, es, replace);
    if status != Done { return; }
    status := t.SaveTable(staging, n, saveIo);
    if status == Done { Publish(t, staging, n); }
  }

  method Publish(t: AmmTable, staging: array<Entry>, n: nat)
    requires t.Valid() && staging.Length == t.capacity && n <= t.capacity && staging != t.table
    modifies t`count, t.table
    ensures t.Valid() && t.Slots() == staging[..n]
  {
    t.Blank();
    for i := 0 to n
      modifies t.table
      invariant forall j :: 0 <= j < i ==> t.table[j] == staging[j]
    {
      t.table[i] := staging[i];
    }
    t.count := n;
    assert t.table[..n] == staging[..n];
  }
}
