/** What the registry holds, by physical key: key uniqueness under every operation, and the
    import as an override of the old contents. */
module AmmContents {
  import opened Wrappers
  import opened AmmEntry
  import opened AmmMapping
  import opened AmmImport

  ghost predicate Distinct(slots: seq<Entry>) {
    forall i, j :: 0 <= i < j < |slots| && slots[i].active && slots[j].active ==> slots[i].key != slots[j].key
  }

  /** The active entry under a key. */
  function Lookup(slots: seq<Entry>, k: Key): Option<Entry> {
    var i := Find(slots, k);
    if i < |slots| then Some(slots[i]) else None
  }

  lemma LookupIs(slots: seq<Entry>, i: nat)
    requires Distinct(slots) && i < |slots| && slots[i].active
    ensures Lookup(slots, slots[i].key) == Some(slots[i])
  {}

  // ---- Staging, by key ----

  lemma {:induction false} KeptIn(slots: seq<Entry>, es: seq<Entry>, replace: bool, e: Entry)
    ensures e in Kept(slots, es, replace) <==> e in slots && Keeps(e, es, replace)
  {
    if |slots| == 0 {
    } else {
      var rest, last := slots[..|slots| - 1], slots[|slots| - 1];
      KeptIn(rest, es, replace, e);
      assert e in slots <==> e in rest || e == last;
    }
  }

  /** The entries kept stay in their order. */
  lemma {:induction false} KeptInOrder(a: seq<Entry>, b: seq<Entry>, es: seq<Entry>, replace: bool, e: Entry)
    ensures Kept(a + b, es, replace) == Kept(a, es, replace) + Kept(b, es, replace)
    ensures Kept([e], es, replace) == if e.active && !(replace && NamesDevice(es, e.key)) then [e] else []
    decreases |b|
  {
    assert [e][..0] == [];
    if |b| == 0 {
      assert a + b == a;
    } else {
      var rest, last := b[..|b| - 1], b[|b| - 1];
      KeptInOrder(a, rest, es, replace, e);
      assert (a + b)[..|a + b| - 1] == a + rest && (a + b)[|a + b| - 1] == last;
    }
  }

  lemma {:induction false} KeptDistinct(slots: seq<Entry>, es: seq<Entry>, replace: bool)
    requires Distinct(slots)
    ensures Distinct(Kept(slots, es, replace))
  {
    if |slots| == 0 {
    } else {
      var rest, last := slots[..|slots| - 1], slots[|slots| - 1];
      KeptDistinct(rest, es, replace);
      var r := Kept(rest, es, replace);
      forall i | 0 <= i < |r| ensures last.active && r[i].active ==> r[i].key != last.key {
        KeptIn(rest, es, replace, r[i]);
        var j :| 0 <= j < |rest| && rest[j] == r[i];
        assert slots[j] == r[i];
      }
    }
  }

  lemma KeptLookup(slots: seq<Entry>, es: seq<Entry>, replace: bool, k: Key)
    requires Distinct(slots)
    ensures Distinct(Kept(slots, es, replace))
    ensures Lookup(Kept(slots, es, replace), k) == if replace && NamesDevice(es, k) then None else Lookup(slots, k)
  {
    KeptDistinct(slots, es, replace);
    var r := Kept(slots, es, replace);
    var a, b := Find(slots, k), Find(r, k);
    if a < |slots| { KeptIn(slots, es, replace, slots[a]); }
    if b < |r| {
      KeptIn(slots, es, replace, r[b]);
      var i :| 0 <= i < |slots| && slots[i] == r[b];
      LookupIs(slots, i);
    }
  }

  lemma MergedLookup(staged: seq<Entry>, e: Entry, k: Key)
    requires Distinct(staged) && AllActive(staged) && e.active
    ensures Distinct(Merged(staged, e)) && AllActive(Merged(staged, e))
    ensures Lookup(Merged(staged, e), k) == if k == e.key then Some(e) else Lookup(staged, k)
  {
    var r := Merged(staged, e);
    var i := Find(staged, e.key);
    assert r[i] == e && r[i].active;
    forall j | 0 <= j < |r| && j != i ensures r[j] == staged[j] && r[j].key != e.key {}
    if k != e.key {
      var a, b := Find(staged, k), Find(r, k);
      assert a < |staged| ==> Holds(r[a], k);
      assert b < |r| ==> b != i && Holds(staged[b], k);
    } else {
      LookupIs(r, i);
    }
  }

  /** An entry takes the place of the one with its key, or the end. */
  lemma MergedPlaces(staged: seq<Entry>, e: Entry)
    requires Distinct(staged) && AllActive(staged)
    ensures var r, held := Merged(staged, e), exists j :: 0 <= j < |staged| && staged[j].key == e.key;
            && |r| == |staged| + (if held then 0 else 1)
            && (forall j :: 0 <= j < |staged| ==> r[j] == if staged[j].key == e.key then e else staged[j])
            && (!held ==> r[|staged|] == e)
  {
    var i := Find(staged, e.key);
    forall j | 0 <= j < |staged| ensures staged[j].key == e.key <==> j == i {
      assert Holds(staged[j], e.key) <==> staged[j].key == e.key;
    }
  }

  /** The position of the last entry with a key among the first `n`. */
  function LastFor(batch: seq<Entry>, n: nat, k: Key): (r: Option<nat>)
    requires n <= |batch|
    ensures r.Some? ==> r.value < n
  {
    if n == 0 then None else if batch[n - 1].key == k then Some(n - 1) else LastFor(batch, n - 1, k)
  }

  lemma {:induction false} LastForIs(batch: seq<Entry>, n: nat, k: Key)
    requires n <= |batch|
    ensures match LastFor(batch, n, k)
            case Some(i) => batch[i].key == k && forall j :: i < j < n ==> batch[j].key != k
            case None => forall j :: 0 <= j < n ==> batch[j].key != k
  {
    if n == 0 {
    } else {
      LastForIs(batch, n - 1, k);
    }
  }

  lemma {:induction false} StagingLookup(kept: seq<Entry>, batch: seq<Entry>, n: nat, k: Key)
    requires n <= |batch| && Distinct(kept) && AllActive(kept) && AllActive(batch)
    ensures Distinct(Staging(kept, batch, n)) && AllActive(Staging(kept, batch, n))
    ensures Lookup(Staging(kept, batch, n), k) ==
            match LastFor(batch, n, k) { case Some(i) => Some(batch[i]) case None => Lookup(kept, k) }
  {
    if n == 0 {
    } else {
      StagingLookup(kept, batch, n - 1, k);
      LastForIs(batch, n - 1, k);
      MergedLookup(Staging(kept, batch, n - 1), batch[n - 1], k);
    }
  }

  lemma {:induction false} SameKeysSameLast(a: seq<Entry>, b: seq<Entry>, n: nat, k: Key)
    requires n <= |a| == |b| && forall i :: 0 <= i < |a| ==> a[i].key == b[i].key
    ensures LastFor(a, n, k) == LastFor(b, n, k)
  {
    if n == 0 {
    } else {
      SameKeysSameLast(a, b, n - 1, k);
    }
  }

  // ---- The import ----

  /** How an entry of the batch is stored: repaired, under its own model version, and with
      the semantics of the USER entry that the table had under its key. */
  lemma BatchEntry(ram: Ram, es: seq<Entry>, i: nat)
    requires Distinct(ram.slots) && i < |es|
    ensures var stored := Batch(ram, es)[i];
            var entry := ImportedAs(es[i], ram.version + 1 + i, ram.pollMs);
            stored == match Lookup(ram.slots, es[i].key)
                      case Some(current) => if current.sem.origin.source.User? then Overlaid(entry, current) else entry
                      case None => entry
  {
    FixUpKeeps(es[i].(active := true, version := ram.version + 1 + i), ram.pollMs);
    var u := FindUser(ram.slots, es[i].key);
    if u < |ram.slots| { LookupIs(ram.slots, u); }
  }

  /** A successful import holds, under each key: the last entry of the batch with that key,
      stored as above, else nothing if its device is replaced, else what the table held. Keys
      stay distinct and there are no tombstones. */
  lemma ImportContents(ram: Ram, es: seq<Entry>, replace: bool, k: Key)
    requires Distinct(ram.slots)
    ensures var slots := ImportedRam(ram, es, replace).slots;
            && Distinct(slots) && AllActive(slots)
            && Lookup(slots, k) ==
               match LastFor(es, |es|, k)
               case Some(i) => Some(Batch(ram, es)[i])
               case None => if replace && NamesDevice(es, k) then None else Lookup(ram.slots, k)
  {
    var batch, kept := Batch(ram, es), Kept(ram.slots, es, replace);
    BatchKeys(ram, es);
    KeptActive(ram.slots, es, replace);
    KeptLookup(ram.slots, es, replace, k);
    StagingLookup(kept, batch, |es|, k);
    SameKeysSameLast(batch, es, |es|, k);
  }

  /** A user's edit survives an import exactly when the batch has its key or spares its
      device; then the stored semantics are the user's, whatever the batch says. */
  lemma UserEditSurvivesIff(ram: Ram, es: seq<Entry>, replace: bool, k: Key)
    requires Distinct(ram.slots) && Lookup(ram.slots, k).Some?
    requires Lookup(ram.slots, k).value.sem.origin.source.User?
    ensures var after := Lookup(ImportedRam(ram, es, replace).slots, k);
            && (after.Some? <==> (exists i :: 0 <= i < |es| && es[i].key == k) || !(replace && NamesDevice(es, k)))
            && (after.Some? ==> after.value.sem == Lookup(ram.slots, k).value.sem)
  {
    ImportContents(ram, es, replace, k);
    LastForIs(es, |es|, k);
    if LastFor(es, |es|, k).Some? { BatchEntry(ram, es, LastFor(es, |es|, k).value); }
  }

  // ---- When an import fits ----

  ghost function KeysOf(slots: seq<Entry>): set<Key> { set e | e in slots :: e.key }

  lemma {:induction false} DistinctSize(slots: seq<Entry>)
    requires Distinct(slots) && AllActive(slots)
    ensures |KeysOf(slots)| == |slots|
  {
    if |slots| == 0 {
    } else {
      var rest, last := slots[..|slots| - 1], slots[|slots| - 1];
      DistinctSize(rest);
      assert forall e :: e in slots <==> e in rest || e == last;
      assert KeysOf(slots) == KeysOf(rest) + {last.key};
      assert last.key !in KeysOf(rest);
    }
  }

  lemma MergedKeys(staged: seq<Entry>, e: Entry)
    requires Distinct(staged) && AllActive(staged) && e.active
    ensures KeysOf(Merged(staged, e)) == KeysOf(staged) + {e.key}
    ensures |Merged(staged, e)| == |staged| + if e.key in KeysOf(staged) then 0 else 1
  {
    var r, i := Merged(staged, e), Find(staged, e.key);
    assert r[i] == e;
    forall j | 0 <= j < |staged| && j != i ensures r[j] == staged[j] {}
    forall k ensures k in KeysOf(r) <==> k in KeysOf(staged) || k == e.key {
      if k in KeysOf(staged) {
        var j :| 0 <= j < |staged| && staged[j].key == k;
        assert r[j].key == k;
      }
      if k in KeysOf(r) {
        var j :| 0 <= j < |r| && r[j].key == k;
        assert j == i || staged[j].key == k;
      }
    }
    assert (i < |staged|) == (e.key in KeysOf(staged)) by {
      if i < |staged| { assert staged[i].key in KeysOf(staged); }
      if e.key in KeysOf(staged) {
        var j :| 0 <= j < |staged| && staged[j].key == e.key;
        assert Holds(staged[j], e.key);
      }
    }
  }

  lemma {:induction false} StagingGrows(kept: seq<Entry>, batch: seq<Entry>, n: nat)
    requires n <= |batch| && Distinct(kept) && AllActive(kept) && AllActive(batch)
    ensures KeysOf(Staging(kept, batch, n)) == KeysOf(kept) + KeysOf(batch[..n])
    ensures n > 0 ==> |Staging(kept, batch, n - 1)| <= |Staging(kept, batch, n)|
  {
    if n == 0 {
    } else {
      StagingGrows(kept, batch, n - 1);
      StagingLookup(kept, batch, n - 1, batch[n - 1].key);
      MergedKeys(Staging(kept, batch, n - 1), batch[n - 1]);
      LastKey(batch, n);
    }
  }

  lemma LastKey(batch: seq<Entry>, n: nat)
    requires 0 < n <= |batch|
    ensures KeysOf(batch[..n]) == KeysOf(batch[..n - 1]) + {batch[n - 1].key}
  {
    assert batch[..n] == batch[..n - 1] + [batch[n - 1]];
  }

  lemma {:induction false} StatusDoneIff(es: seq<Entry>, kept: seq<Entry>, batch: seq<Entry>, capacity: nat, n: nat)
    requires n <= |es| == |batch| && Distinct(kept) && AllActive(kept) && AllActive(batch) && |kept| <= capacity
    requires forall i :: 0 <= i < |es| ==> es[i].key == batch[i].key && !Malformed(es[i])
    ensures StagingStatus(es, kept, batch, capacity, n) == if |Staging(kept, batch, n)| <= capacity then Done else NoMem
  {
    if n == 0 {
    } else {
      StatusDoneIff(es, kept, batch, capacity, n - 1);
      StagingGrows(kept, batch, n);
      StagingGrows(kept, batch, n - 1);
    }
  }

  /** An entry that the gateway can poll and name. */
  predicate WellFormed(e: Entry) {
    e.key.slave >= 1 && e.key.functionCode in {1, 2, 3, 4} && e.sem.names.deviceId != "" && e.sem.names.pointId != ""
  }

  lemma {:induction false} StagingAtMost(kept: seq<Entry>, batch: seq<Entry>, n: nat)
    requires n <= |batch|
    ensures |Staging(kept, batch, n)| <= |kept| + n
  {
    if n > 0 { StagingAtMost(kept, batch, n - 1); }
  }

  /** A batch with an entry that is not well formed is never imported: it is an invalid argument, unless
      the table is full before. */
  lemma {:induction false} MalformedRefused(es: seq<Entry>, kept: seq<Entry>, batch: seq<Entry>, capacity: nat, n: nat, i: nat)
    requires i < n <= |es| == |batch| && !WellFormed(es[i])
    ensures StagingStatus(es, kept, batch, capacity, n) in {InvalidArg, NoMem}
    ensures |kept| + n <= capacity ==> StagingStatus(es, kept, batch, capacity, n) == InvalidArg
    decreases n
  {
    StagingStatuses(es, kept, batch, capacity, n - 1);
    if i < n - 1 { MalformedRefused(es, kept, batch, capacity, n - 1, i); }
  }

  lemma {:induction false} StagingStatuses(es: seq<Entry>, kept: seq<Entry>, batch: seq<Entry>, capacity: nat, n: nat)
    requires n <= |es| == |batch|
    ensures StagingStatus(es, kept, batch, capacity, n) in {Done, InvalidArg, NoMem}
    ensures |kept| + n <= capacity ==> StagingStatus(es, kept, batch, capacity, n) != NoMem
  {
    if n > 0 {
      StagingStatuses(es, kept, batch, capacity, n - 1);
      StagingAtMost(kept, batch, n - 1);
    }
  }

  /** A well-formed batch is refused for space exactly when the keys that would be held
      outnumber the slots; the order of the batch does not matter. */
  lemma ImportFitsIff(ram: Ram, es: seq<Entry>, replace: bool, capacity: nat)
    requires Distinct(ram.slots) && |ram.slots| <= capacity
    requires forall i :: 0 <= i < |es| ==> WellFormed(es[i])
    ensures ImportStatus(ram, es, replace, capacity)
            == if |KeysOf(Kept(ram.slots, es, replace)) + KeysOf(es)| <= capacity then Done else NoMem
  {
    var batch, kept := Batch(ram, es), Kept(ram.slots, es, replace);
    BatchKeys(ram, es);
    KeptActive(ram.slots, es, replace);
    KeptDistinct(ram.slots, es, replace);
    StatusDoneIff(es, kept, batch, capacity, |es|);
    StagingGrows(kept, batch, |es|);
    StagingLookup(kept, batch, |es|, BLANK.key);
    DistinctSize(Staging(kept, batch, |es|));
    assert batch[..|es|] == batch;
    SameKeySets(batch, es);
  }

  lemma SameKeySets(a: seq<Entry>, b: seq<Entry>)
    requires |a| == |b| && forall i :: 0 <= i < |a| ==> a[i].key == b[i].key
    ensures KeysOf(a) == KeysOf(b)
  {
    forall k ensures k in KeysOf(a) <==> k in KeysOf(b) {
      if k in KeysOf(a) {
        var i :| 0 <= i < |a| && a[i].key == k;
        assert b[i] in b;
      }
      if k in KeysOf(b) {
        var i :| 0 <= i < |b| && b[i].key == k;
        assert a[i] in a;
      }
    }
  }

  // ---- The other operations, by key ----

  lemma AddedKeeps(e: Entry, version: nat, pollMs: nat)
    ensures Added(e, version, pollMs).key == e.key && Added(e, version, pollMs).active
  {}

  /** An add replaces the entry under its key, or takes a free slot: keys stay distinct. */
  lemma AddContents(ram: Ram, e: Entry, k: Key)
    requires Distinct(ram.slots)
    ensures var r := AddedRam(ram, e);
            && Distinct(r.slots)
            && Lookup(r.slots, k) ==
               if k == e.key then Some(Added(e, ram.version + 1, ram.pollMs)) else Lookup(ram.slots, k)
  {
    var r := AddedRam(ram, e).slots;
    var i := AddTarget(ram.slots, e.key);
    AddedKeeps(e, ram.version + 1, ram.pollMs);
    assert r[i] == Added(e, ram.version + 1, ram.pollMs);
    forall j | 0 <= j < |r| && j != i ensures r[j] == ram.slots[j] && !Holds(r[j], e.key) {}
    LookupIs(r, i);
    if k != e.key {
      var a, b := Find(ram.slots, k), Find(r, k);
      assert a < |ram.slots| ==> a != i && Holds(r[a], k);
      assert b < |r| ==> b != i && Holds(ram.slots[b], k);
    }
  }

  /** A remove deactivates one entry at the point, the first, whatever its function code. */
  lemma RemoveContents(ram: Ram, point: Key, k: Key)
    requires Distinct(ram.slots) && FindPoint(ram.slots, point) < |ram.slots|
    ensures var r := RemovedRam(ram, point);
            var gone := ram.slots[FindPoint(ram.slots, point)].key;
            && Distinct(r.slots) && |r.slots| == |ram.slots|
            && Lookup(r.slots, k) == if k == gone then None else Lookup(ram.slots, k)
  {
    var i := FindPoint(ram.slots, point);
    var r := RemovedRam(ram, point).slots;
    var a, b := Find(ram.slots, k), Find(r, k);
    assert forall j :: 0 <= j < |r| && j != i ==> r[j] == ram.slots[j];
    assert a < |r| && a != i ==> Holds(r[a], k);
    assert b < |r| ==> b != i && Holds(ram.slots[b], k);
  }

  // Same keys and activity, slot by slot.
  ghost predicate SameShape(a: seq<Entry>, b: seq<Entry>) {
    |a| == |b| && forall i :: 0 <= i < |a| ==> a[i].active == b[i].active && a[i].key == b[i].key
  }

  lemma ShapeDistinct(a: seq<Entry>, b: seq<Entry>)
    requires SameShape(a, b)
    ensures Distinct(a) <==> Distinct(b)
  {
    if Distinct(a) {
      forall i, j | 0 <= i < j < |b| && b[i].active && b[j].active ensures b[i].key != b[j].key {
        assert a[i].key == b[i].key && a[j].key == b[j].key;
      }
    }
    if Distinct(b) {
      forall i, j | 0 <= i < j < |a| && a[i].active && a[j].active ensures a[i].key != a[j].key {
        assert a[i].key == b[i].key && a[j].key == b[j].key;
      }
    }
  }

  lemma RepolledShape(ram: Ram, pollMs: nat)
    ensures SameShape(RepolledRam(ram, pollMs).slots, ram.slots)
  {}

  lemma StampedShape(slots: seq<Entry>, version: nat)
    ensures SameShape(Stamped(slots, version), slots)
  {}

  lemma FixedUpShape(slots: seq<Entry>, pollMs: nat)
    ensures SameShape(FixedUp(slots, pollMs), slots)
  {
    forall i | 0 <= i < |slots|
      ensures FixedUp(slots, pollMs)[i].active == slots[i].active && FixedUp(slots, pollMs)[i].key == slots[i].key
    {
      FixUpKeeps(slots[i], pollMs);
    }
  }
}
