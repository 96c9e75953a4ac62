/** The durable record store (main/storage/offline_store.c): two directories, SPI flash and
    TF card, each with an incrementally kept (count, oldest, valid) index, against an
    index-free queue that scans. A failing write leaves no file. */
module OfflineStore {
  import opened Wrappers
  import opened OfflineRecord

  const MAX_RECORDS := 512
  const RESERVE_BYTES := 64 * 1024

  /** A directory: file text by record id (see OfflineRecord for names and text). */
  type Dir = map<nat, string>

  ghost predicate IsLeast(s: set<nat>, m: nat) {
    m in s && forall x <- s :: m <= x
  }

  lemma {:induction false} LeastExists(s: set<nat>)
    requires s != {}
    ensures exists m :: IsLeast(s, m)
    decreases s
  {
    var x :| x in s;
    if s == {x} {
      assert IsLeast(s, x);
    } else {
      var rest := s - {x};
      LeastExists(rest);
      var m :| IsLeast(rest, m);
      assert forall y <- s :: y == x || y in rest;
      if m < x { assert IsLeast(s, m); } else { assert IsLeast(s, x); }
    }
  }

  lemma SomeKey(d: Dir)
    ensures d.Keys == {} <==> |d| == 0
  {
    assert |d| == |d.Keys|;
  }

  ghost function Oldest(d: Dir): (m: nat)
    requires |d| > 0
    ensures IsLeast(d.Keys, m)
  {
    SomeKey(d);
    LeastExists(d.Keys);
    var m :| IsLeast(d.Keys, m);
    m
  }

  ghost function Without(d: Dir, id: nat): Dir { d - {id} }

  lemma WithoutSize(d: Dir, id: nat)
    ensures Without(d, id).Keys == d.Keys - {id}
    ensures |Without(d, id)| == |d| - (if id in d then 1 else 0)
  {
    var r := Without(d, id);
    assert r.Keys == d.Keys - {id};
    assert |r| == |r.Keys| && |d| == |d.Keys|;
  }

  // ---- The index-free queue ----

  datatype Queue = Queue(flash: Dir, tf: Dir, tfMounted: bool, dataLoss: nat)

  /** What the platform answers during one put: free flash bytes (None when the query fails),
      and the outcome of each write and unlink the call may make. */
  datatype PutEnv = PutEnv(
    free: Option<nat>, flashWrite: bool,
    tfUnlink1: bool, tfWrite1: bool, tfUnlink2: bool, tfWrite2: bool,
    flashUnlink: bool, flashRewrite: bool)

  ghost function Evicted(d: Dir, unlinkOk: bool): (r: (Dir, bool)) {
    if |d| == 0 || !unlinkOk then (d, false) else (Without(d, Oldest(d)), true)
  }

  function Loss(b: bool): nat { if b then 1 else 0 }

  predicate FlashHasRoom(count: nat, topic: string, payload: string, env: PutEnv) {
    env.free.Some? && count < MAX_RECORDS && env.free.value > RESERVE_BYTES + |payload| + |topic| + 64
  }

  // A write to the card; when it fails, the oldest record is evicted and the write retried.
  ghost function RetryQ(tf: Dir, id: nat, text: string, env: PutEnv): (Dir, nat, bool) {
    if env.tfWrite1 then (tf[id := text], 0, true)
    else
      var (tf2, e) := Evicted(tf, env.tfUnlink2);
      if e && env.tfWrite2 then (tf2[id := text], 1, true) else (tf2, Loss(e), false)
  }

  // The card: at capacity its oldest record goes first.
  ghost function CardQ(tf: Dir, id: nat, text: string, env: PutEnv): (Dir, nat, bool) {
    var (tf1, e) := Evicted(tf, |tf| >= MAX_RECORDS && env.tfUnlink1);
    var (tf2, lost, ok) := RetryQ(tf1, id, text, env);
    (tf2, Loss(e) + lost, ok)
  }

  // Without a card: flash loses its oldest record to the new one.
  ghost function RewriteQ(flash: Dir, id: nat, text: string, env: PutEnv): (Dir, nat, bool) {
    var (flash1, e) := Evicted(flash, env.flashUnlink);
    if e && env.flashRewrite then (flash1[id := text], 1, true) else (flash1, Loss(e), false)
  }

  ghost function ElsewhereQ(q: Queue, id: nat, text: string, env: PutEnv): (Queue, bool) {
    if q.tfMounted then
      var (tf, lost, ok) := CardQ(q.tf, id, text, env);
      (q.(tf := tf, dataLoss := q.dataLoss + lost + Loss(!ok)), ok)
    else
      var (flash, lost, ok) := RewriteQ(q.flash, id, text, env);
      (q.(flash := flash, dataLoss := q.dataLoss + lost + Loss(!ok)), ok)
  }

  /** Flash first, then the card, or without a card flash again. Each eviction and each failure
      counts as a loss. */
  ghost function PutQ(q: Queue, id: nat, topic: string, payload: string, env: PutEnv): (Queue, bool) {
    var text := FileText(id, topic, payload);
    if FlashHasRoom(|q.flash|, topic, payload, env) && env.flashWrite then (q.(flash := q.flash[id := text]), true)
    else ElsewhereQ(q, id, text, env)
  }

  datatype Medium = Flash | Tf

  datatype Peek = Absent | Unreadable | Record(id: nat, medium: Medium, content: Content)

  ghost function ReadFrom(d: Dir, id: nat, medium: Medium): Peek {
    if id !in d then Absent
    else
      match ReadContent(d[id])
      case None => Unreadable
      case Some(content) => Record(id, medium, content)
  }

  // The medium that holds the smallest id in reach; flash wins a tie.
  ghost predicate FlashFirst(q: Queue) {
    |q.flash| > 0 && (!q.tfMounted || |q.tf| == 0 || Oldest(q.flash) <= Oldest(q.tf))
  }

  ghost function PeekQ(q: Queue): Peek {
    if FlashFirst(q) then ReadFrom(q.flash, Oldest(q.flash), Flash)
    else if q.tfMounted && |q.tf| > 0 then ReadFrom(q.tf, Oldest(q.tf), Tf)
    else Absent
  }

  ghost function RemoveQ(q: Queue, id: nat, flashOk: bool, tfOk: bool): (Queue, bool) {
    var flashGone := id in q.flash && flashOk;
    var tfGone := q.tfMounted && id in q.tf && tfOk;
    (q.(flash := if flashGone then Without(q.flash, id) else q.flash,
        tf := if tfGone then Without(q.tf, id) else q.tf), flashGone || tfGone)
  }

  // Boot prunes flash down to its capacity, until an unlink fails.
  ghost function Pruned(d: Dir, unlink: nat -> bool, k: nat): (Dir, nat)
    decreases |d|
  {
    if |d| > MAX_RECORDS && unlink(k) then
      var (rest, n) := Pruned(Without(d, Oldest(d)), unlink, k + 1);
      (rest, n + 1)
    else (d, 0)
  }

  lemma PrunedStep(d: Dir, unlink: nat -> bool, k: nat)
    requires |d| > MAX_RECORDS
    ensures Evicted(d, unlink(k)).1 == unlink(k)
    ensures if unlink(k) then
              && Pruned(d, unlink, k).0 == Pruned(Evicted(d, true).0, unlink, k + 1).0
              && Pruned(d, unlink, k).1 == Pruned(Evicted(d, true).0, unlink, k + 1).1 + 1
            else Pruned(d, unlink, k) == (d, 0)
  {}

  // After `k` prunings the rest of the work still leads to `goal`.
  ghost predicate PruneContinues(d: Dir, unlink: nat -> bool, k: nat, goal: (Dir, nat)) {
    Pruned(d, unlink, k).0 == goal.0 && Pruned(d, unlink, k).1 + k == goal.1
  }

  ghost function InitQ(flash: Dir, tf: Dir, tfMounted: bool, unlink: nat -> bool): Queue {
    var (pruned, n) := Pruned(flash, unlink, 0);
    Queue(pruned, tf, tfMounted, n)
  }

  // ---- The cached index of one directory ----

  ghost predicate IndexIs(dir: Dir, count: nat, oldest: nat, oldestValid: bool) {
    && count == |dir|
    && oldestValid == (|dir| > 0)
    && oldest == (if |dir| == 0 then 0 else Oldest(dir))
  }

  class CacheDir {
    var dir: Dir
    var count: nat
    var oldest: nat
    var oldestValid: bool

    /** The index says what a scan would. */
    ghost predicate Indexed()
      reads this
    {
      IndexIs(dir, count, oldest, oldestValid)
    }

    constructor (dir: Dir)
      ensures this.dir == dir && count == 0 && oldest == 0 && !oldestValid
    {
      this.dir := dir;
      count, oldest, oldestValid := 0, 0, false;
    }

    /** find_oldest_in: directory entries arrive in any order. */
    method FindOldestIn() returns (found: bool, sequence: nat)
      ensures found == (|dir| > 0)
      ensures sequence == if |dir| == 0 then 0 else Oldest(dir)
    {
      found, sequence := false, 0;
      var left := dir.Keys;
      while left != {}
        invariant left <= dir.Keys
        invariant found <==> left != dir.Keys
        invariant found ==> IsLeast(dir.Keys - left, sequence)
        invariant !found ==> sequence == 0
        decreases left
      {
        var current :| current in left;
        ghost var seen := dir.Keys - left;
        left := left - {current};
        assert dir.Keys - left == seen + {current};
        if !found || current < sequence { sequence := current; }
        found := true;
      }
      assert dir.Keys - left == dir.Keys;
      SomeKey(dir);
    }

    method CountIn() returns (n: nat)
      ensures n == |dir|
    {
      n := 0;
      var left := dir.Keys;
      while left != {}
        invariant left <= dir.Keys && n + |left| == |dir.Keys|
        decreases left
      {
        var current :| current in left;
        left := left - {current};
        n := n + 1;
      }
      assert |dir.Keys| == |dir|;
    }

    method LoadState()
      modifies this
      ensures dir == old(dir) && Indexed()
    {
      count := CountIn();
      oldestValid, oldest := FindOldestIn();
    }

    /** After the oldest file `removed` is gone: try its successor, else scan. */
    method AdvanceOldest(removed: nat)
      requires count == |dir| && forall id <- dir.Keys :: removed < id
      modifies this
      ensures dir == old(dir) && Indexed()
    {
      if count <= 0 {
        oldest, oldestValid := 0, false;
        return;
      }
      var candidate := removed + 1;
      if candidate in dir {
        assert IsLeast(dir.Keys, candidate);
        oldest, oldestValid := candidate, true;
        return;
      }
      oldestValid, oldest := FindOldestIn();
    }

    method RemoveOldest(unlinkOk: bool) returns (removed: bool)
      requires Indexed()
      modifies this
      ensures Indexed()
      ensures var (after, evicted) := Evicted(old(dir), unlinkOk); dir == after && removed == evicted
    {
      if count <= 0 || !oldestValid { return false; }
      var victim := oldest;
      if !unlinkOk {
        LoadState();
        return false;
      }
      ghost var before := dir;
      dir := dir - {victim};
      WithoutSize(before, victim);
      count := count - 1;
      AdvanceOldest(victim);
      return true;
    }

    method WriteRecord(id: nat, topic: string, payload: string, writeOk: bool) returns (ok: bool)
      modifies this`dir
      ensures ok == writeOk
      ensures dir == if writeOk then old(dir)[id := FileText(id, topic, payload)] else old(dir)
    {
      if writeOk { dir := dir[id := FileText(id, topic, payload)]; }
      ok := writeOk;
    }

    method ReadRecord(id: nat, medium: Medium) returns (r: Peek)
      ensures r == ReadFrom(dir, id, medium)
      ensures r.Absent? <==> id !in dir
    {
      if id !in dir { return Absent; }
      var content := ReadContent(dir[id]);
      match content {
        case None => r := Unreadable;
        case Some(c) => r := Record(id, medium, c);
      }
    }

    /** The unlink of offline_store_remove, with its index upkeep. */
    method Unlink(id: nat, ok: bool) returns (gone: bool)
      requires Indexed()
      modifies this
      ensures Indexed()
      ensures gone == (id in old(dir) && ok)
      ensures dir == if gone then Without(old(dir), id) else old(dir)
    {
      gone := id in dir && ok;
      if gone {
        ghost var before := dir;
        dir := dir - {id};
        WithoutSize(before, id);
        if count > 0 {
          count := count - 1;
          if oldestValid && oldest == id {
            AdvanceOldest(id);
          } else {
            OldestStays(before, id);
          }
        }
      }
    }

    /** A write and, when it succeeds, the bookkeeping for it. */
    method WriteNoted(id: nat, topic: string, payload: string, writeOk: bool) returns (ok: bool)
      requires Indexed()
      modifies this
      ensures ok == writeOk
      ensures dir == if writeOk then old(dir)[id := FileText(id, topic, payload)] else old(dir)
      ensures Indexed() <==> (writeOk ==> id !in old(dir))
    {
      ghost var before := dir;
      ok := WriteRecord(id, topic, payload, writeOk);
      if ok {
        OldestAfterWrite(before, dir, id);
        count := count + 1;
        if !oldestValid || id < oldest {
          oldest, oldestValid := id, true;
        }
      }
    }

    // A write whose bookkeeping takes the new id for the newest.
    method WriteBehind(id: nat, topic: string, payload: string, writeOk: bool) returns (ok: bool)
      requires Indexed()
      modifies this
      ensures ok == writeOk
      ensures dir == if writeOk then old(dir)[id := FileText(id, topic, payload)] else old(dir)
      ensures Indexed() <==> (writeOk ==> IsBehind(old(dir), id))
    {
      ghost var before := dir;
      ok := WriteRecord(id, topic, payload, writeOk);
      if ok {
        BehindIndex(before, dir, id, count, oldest, oldestValid);
        count := count + 1;
        if !oldestValid {
          oldest, oldestValid := id, true;
        }
      }
    }

    /** The last resort of a put without a card. */
    method RewriteAfterEviction(id: nat, topic: string, payload: string, env: PutEnv) returns (evicted: bool, ok: bool)
      requires Indexed()
      modifies this
      ensures var (after, lost, stored) := RewriteQ(old(dir), id, FileText(id, topic, payload), env);
              dir == after && Loss(evicted) == lost && ok == stored
      ensures Indexed() <==> RewriteKeepsIndex(old(dir), id, env)
    {
      ok := false;
      evicted := RemoveOldest(env.flashUnlink);
      if evicted { ok := WriteBehind(id, topic, payload, env.flashRewrite); }
    }
  }

  lemma BehindIndex(before: Dir, after: Dir, id: nat, count: nat, oldest: nat, oldestValid: bool)
    requires IndexIs(before, count, oldest, oldestValid) && after.Keys == before.Keys + {id}
    ensures IndexIs(after, count + 1, if oldestValid then oldest else id, true) <==> IsBehind(before, id)
  {
    OldestAfterWrite(before, after, id);
    if |before| > 0 { assert Oldest(before) in before; }
  }

  // The id is new to the directory and above its oldest.
  ghost predicate IsBehind(d: Dir, id: nat) { |d| == 0 || (id !in d && id > Oldest(d)) }

  lemma OldestStays(d: Dir, id: nat)
    requires id in d && Oldest(d) != id
    ensures |Without(d, id)| > 0 && Oldest(Without(d, id)) == Oldest(d)
  {
    WithoutSize(d, id);
    assert Oldest(d) in Without(d, id);
    SomeKey(Without(d, id));
  }

  lemma OldestAfterWrite(before: Dir, after: Dir, id: nat)
    requires after.Keys == before.Keys + {id}
    ensures |after| > 0
    ensures Oldest(after) == if |before| == 0 || id < Oldest(before) then id else Oldest(before)
    ensures |after| == |before| + (if id in before then 0 else 1)
  {
    SomeKey(before);
    SomeKey(after);
    assert id in after.Keys;
    assert |after| == |after.Keys| && |before| == |before.Keys|;
    if id in before { assert after.Keys == before.Keys; }
    if |before| > 0 { assert Oldest(before) in after.Keys; }
  }

  // ---- The store ----

  ghost predicate RetryKeepsIndex(tf: Dir, id: nat, env: PutEnv) {
    if env.tfWrite1 then id !in tf
    else
      var (tf2, e) := Evicted(tf, env.tfUnlink2);
      e && env.tfWrite2 ==> id !in tf2
  }

  ghost predicate CardKeepsIndex(tf: Dir, id: nat, env: PutEnv) {
    RetryKeepsIndex(Evicted(tf, |tf| >= MAX_RECORDS && env.tfUnlink1).0, id, env)
  }

  ghost predicate RewriteKeepsIndex(flash: Dir, id: nat, env: PutEnv) {
    var (flash1, e) := Evicted(flash, env.flashUnlink);
    e && env.flashRewrite ==> IsBehind(flash1, id)
  }

  ghost predicate ElsewhereKeepsIndex(q: Queue, id: nat, env: PutEnv) {
    if q.tfMounted then CardKeepsIndex(q.tf, id, env) else RewriteKeepsIndex(q.flash, id, env)
  }

  // The index stays exact through a put when the id is new to the directory written, and, in
  // the branch that rewrites flash after an eviction, also above what is left there.
  ghost predicate PutKeepsIndex(q: Queue, id: nat, topic: string, payload: string, env: PutEnv) {
    if FlashHasRoom(|q.flash|, topic, payload, env) && env.flashWrite then id !in q.flash
    else ElsewhereKeepsIndex(q, id, env)
  }

  class Store {
    const flash: CacheDir
    const tf: CacheDir
    const tfMounted: bool
    var ready: bool
    var dataLoss: nat

    ghost predicate Valid()
      reads this, flash, tf
    {
      flash != tf && flash.Indexed() && (tfMounted ==> tf.Indexed())
    }

    ghost function Abs(): Queue
      reads this, flash, tf
    {
      Queue(flash.dir, tf.dir, tfMounted, dataLoss)
    }

    /** Power-up: static state is zero and the files are what they were. */
    constructor (flashFiles: Dir, tfFiles: Dir, tfMounted: bool)
      ensures flash != tf && fresh(flash) && fresh(tf)
      ensures flash.dir == flashFiles && tf.dir == tfFiles && this.tfMounted == tfMounted
      ensures !ready && dataLoss == 0
      ensures flash.count == 0 && tf.count == 0
    {
      var f := new CacheDir(flashFiles);
      var t := new CacheDir(tfFiles);
      flash, tf := f, t;
      this.tfMounted := tfMounted;
      ready, dataLoss := false, 0;
    }

    /** offline_store_init once flash is mounted; an empty cache without space is rebuilt. */
    method Init(free: Option<nat>, rebuildOk: bool, unlink: nat -> bool) returns (ok: bool)
      requires flash != tf && dataLoss == 0
      modifies this, flash, tf
      ensures ok ==> Valid() && ready && Abs() == InitQ(old(flash.dir), old(tf.dir), tfMounted, unlink)
      ensures !ok <==> |old(flash.dir)| == 0 && free.Some? && free.value <= RESERVE_BYTES && !rebuildOk
    {
      ready := true;
      flash.LoadState();
      if flash.count == 0 {
        SomeKey(flash.dir);
        assert flash.dir == map[];
        if free.Some? && free.value <= RESERVE_BYTES {
          if !rebuildOk { return false; }
          flash.dir := map[];
          flash.LoadState();
        }
      }
      PruneFlash(unlink);
      if tfMounted { tf.LoadState(); }
      return true;
    }

    method PruneFlash(unlink: nat -> bool)
      requires flash.Indexed() && dataLoss == 0
      modifies this`dataLoss, flash
      ensures flash.Indexed()
      ensures flash.dir == Pruned(old(flash.dir), unlink, 0).0 && dataLoss == Pruned(old(flash.dir), unlink, 0).1
    {
      ghost var goal := Pruned(flash.dir, unlink, 0);
      var pruned, more := 0, true;
      while more && flash.count > MAX_RECORDS
        invariant flash.Indexed()
        invariant dataLoss == pruned
        invariant PruneContinues(flash.dir, unlink, pruned, goal)
        invariant !more ==> !unlink(pruned)
        decreases more, flash.count
      {
        PrunedStep(flash.dir, unlink, pruned);
        more := PruneOne(unlink(pruned));
        if more { pruned := pruned + 1; }
      }
    }

    method PruneOne(unlinkOk: bool) returns (removed: bool)
      requires flash.Indexed() && flash.count > MAX_RECORDS
      modifies this`dataLoss, flash
      ensures flash.Indexed() && removed == unlinkOk
      ensures flash.dir == Evicted(old(flash.dir), unlinkOk).0 && dataLoss == old(dataLoss) + Loss(removed)
      ensures removed ==> flash.count < old(flash.count)
    {
      removed := flash.RemoveOldest(unlinkOk);
      EvictedSize(old(flash.dir), unlinkOk);
      if removed { dataLoss := dataLoss + 1; }
    }

    method Put(id: nat, topic: string, payload: string, env: PutEnv) returns (ok: bool)
      requires Valid()
      modifies this, flash, tf
      ensures ready == old(ready)
      ensures ready ==>
                var (q, stored) := PutQ(old(Abs()), id, topic, payload, env);
                && flash.dir == q.flash && tf.dir == q.tf && dataLoss == q.dataLoss && ok == stored
                && (Valid() <==> PutKeepsIndex(old(Abs()), id, topic, payload, env))
      ensures !ready ==> Abs() == old(Abs()) && Valid() && !ok
    {
      if !ready { return false; }
      ghost var before, text := Abs(), FileText(id, topic, payload);
      ok := false;
      if FlashHasRoom(flash.count, topic, payload, env) {
        ok := flash.WriteNoted(id, topic, payload, env.flashWrite);
      }
      if ok {
        assert PutQ(before, id, topic, payload, env).0 == before.(flash := before.flash[id := text]);
      } else {
        assert flash.dir == before.flash && flash.Indexed();
        ok := PutElsewhere(id, topic, payload, env);
      }
    }

    // The put when flash did not take the record.
    method PutElsewhere(id: nat, topic: string, payload: string, env: PutEnv) returns (ok: bool)
      requires flash != tf && flash.Indexed() && (tfMounted ==> tf.Indexed())
      modifies this`dataLoss, flash, tf
      ensures var (q, stored) := ElsewhereQ(old(Abs()), id, FileText(id, topic, payload), env);
              flash.dir == q.flash && tf.dir == q.tf && dataLoss == q.dataLoss && ok == stored
      ensures flash.Indexed() && (tfMounted ==> tf.Indexed()) <==> ElsewhereKeepsIndex(old(Abs()), id, env)
    {
      if tfMounted {
        ok := PutOnCard(id, topic, payload, env);
      } else {
        ok := PutOverOldest(id, topic, payload, env);
      }
      if !ok { dataLoss := dataLoss + 1; }
    }

    method PutOverOldest(id: nat, topic: string, payload: string, env: PutEnv) returns (ok: bool)
      requires flash.Indexed()
      modifies this`dataLoss, flash
      ensures var (dir, lost, stored) := RewriteQ(old(flash.dir), id, FileText(id, topic, payload), env);
              flash.dir == dir && dataLoss == old(dataLoss) + lost && ok == stored
      ensures flash.Indexed() <==> RewriteKeepsIndex(old(flash.dir), id, env)
    {
      var evicted;
      evicted, ok := flash.RewriteAfterEviction(id, topic, payload, env);
      if evicted { dataLoss := dataLoss + 1; }
    }

    method PutOnCard(id: nat, topic: string, payload: string, env: PutEnv) returns (ok: bool)
      requires tf.Indexed()
      modifies this`dataLoss, tf
      ensures var (dir, lost, stored) := CardQ(old(tf.dir), id, FileText(id, topic, payload), env);
              tf.dir == dir && dataLoss == old(dataLoss) + lost && ok == stored
      ensures tf.Indexed() <==> CardKeepsIndex(old(tf.dir), id, env)
    {
      if tf.count >= MAX_RECORDS {
        var evicted := tf.RemoveOldest(env.tfUnlink1);
        if evicted { dataLoss := dataLoss + 1; }
      }
      ok := WriteOrRetry(id, topic, payload, env);
    }

    method WriteOrRetry(id: nat, topic: string, payload: string, env: PutEnv) returns (ok: bool)
      requires tf.Indexed()
      modifies this`dataLoss, tf
      ensures var (dir, lost, stored) := RetryQ(old(tf.dir), id, FileText(id, topic, payload), env);
              tf.dir == dir && dataLoss == old(dataLoss) + lost && ok == stored
      ensures tf.Indexed() <==> RetryKeepsIndex(old(tf.dir), id, env)
    {
      ok := tf.WriteNoted(id, topic, payload, env.tfWrite1);
      if !ok {
        var evicted := tf.RemoveOldest(env.tfUnlink2);
        if evicted {
          dataLoss := dataLoss + 1;
          ok := tf.WriteNoted(id, topic, payload, env.tfWrite2);
        }
      }
    }

    // One attempt of the peek: the record the index points at.
    method ReadIndexed() returns (r: Peek)
      ensures var tfUsable := tfMounted && tf.oldestValid;
              r == if flash.oldestValid && (!tfUsable || flash.oldest <= tf.oldest) then ReadFrom(flash.dir, flash.oldest, Flash)
                   else if tfUsable then ReadFrom(tf.dir, tf.oldest, Tf)
                   else Absent
    {
      var tfUsable := tfMounted && tf.oldestValid;
      r := Absent;
      if flash.oldestValid && (!tfUsable || flash.oldest <= tf.oldest) {
        r := flash.ReadRecord(flash.oldest, Flash);
      } else if tfUsable {
        r := tf.ReadRecord(tf.oldest, Tf);
      }
    }

    /** With an exact index the peek is the scan's. With any index, if the record it points at
        cannot be read, both directories are rescanned: the index is exact again and the
        answer is the scan's. */
    method PeekOldest() returns (r: Peek)
      requires flash != tf
      modifies flash, tf
      ensures Abs() == old(Abs())
      ensures old(Valid()) ==> Valid() && r == PeekQ(Abs())
      ensures !r.Record? && old(flash.oldestValid || (tfMounted && tf.oldestValid)) ==> Valid()
      ensures Valid() || r.Record? || r == Absent
      ensures Valid() && !old(Valid()) ==> r == PeekQ(Abs())
    {
      var usable := flash.oldestValid || (tfMounted && tf.oldestValid);
      r := ReadIndexed();
      if !r.Record? && usable {
        flash.LoadState();
        if tfMounted { tf.LoadState(); }
        r := ReadIndexed();
      }
    }

    method Remove(id: nat, flashOk: bool, tfOk: bool) returns (ok: bool)
      requires Valid()
      modifies this, flash, tf
      ensures Valid()
      ensures var (q, removed) := RemoveQ(old(Abs()), id, flashOk, tfOk); Abs() == q && ok == removed
      ensures ready == old(ready)
    {
      var flashGone := flash.Unlink(id, flashOk);
      var tfGone := false;
      if tfMounted { tfGone := tf.Unlink(id, tfOk); }
      ok := flashGone || tfGone;
    }

    method Count() returns (n: nat)
      requires Valid()
      ensures n == |Abs().flash| + (if tfMounted then |Abs().tf| else 0)
    {
      n := flash.count + (if tfMounted then tf.count else 0);
    }
  }

  // ---- Properties of the queue ----

  ghost function Stored(q: Queue): nat { |q.flash| + |q.tf| }

  ghost predicate FreshId(q: Queue, id: nat) { id !in q.flash && id !in q.tf }

  lemma EvictedSize(d: Dir, unlinkOk: bool)
    ensures |Evicted(d, unlinkOk).0| + Loss(Evicted(d, unlinkOk).1) == |d|
    ensures Evicted(d, unlinkOk).0.Keys <= d.Keys
  {}

  lemma AddedSize(d: Dir, id: nat, text: string)
    requires id !in d
    ensures |d[id := text]| == |d| + 1
  {
    assert d[id := text].Keys == d.Keys + {id};
  }

  /** Conservation of one put: the attempt ends up as one stored record more or one loss more,
      whatever was evicted on the way. */
  lemma PutConserves(q: Queue, id: nat, topic: string, payload: string, env: PutEnv)
    requires FreshId(q, id)
    ensures var q' := PutQ(q, id, topic, payload, env).0;
            Stored(q') + q'.dataLoss == Stored(q) + q.dataLoss + 1
  {
    var text := FileText(id, topic, payload);
    AddedSize(q.flash, id, text);
    CardConserves(q.tf, id, text, env);
    RewriteConserves(q.flash, id, text, env);
  }

  lemma CardConserves(tf: Dir, id: nat, text: string, env: PutEnv)
    requires id !in tf
    ensures var (tf', lost, ok) := CardQ(tf, id, text, env); |tf'| + lost == |tf| + Loss(ok)
  {
    var (tf1, e1) := Evicted(tf, |tf| >= MAX_RECORDS && env.tfUnlink1);
    EvictedSize(tf, |tf| >= MAX_RECORDS && env.tfUnlink1);
    EvictedSize(tf1, env.tfUnlink2);
    AddedSize(tf1, id, text);
    AddedSize(Evicted(tf1, env.tfUnlink2).0, id, text);
  }

  lemma RewriteConserves(flash: Dir, id: nat, text: string, env: PutEnv)
    requires id !in flash
    ensures var (flash', lost, ok) := RewriteQ(flash, id, text, env); |flash'| + lost == |flash| + Loss(ok)
  {
    EvictedSize(flash, env.flashUnlink);
    AddedSize(Evicted(flash, env.flashUnlink).0, id, text);
  }

  // The number of files a removal deleted.
  ghost function Deleted(q: Queue, q': Queue): nat
    requires Stored(q') <= Stored(q)
  {
    Stored(q) - Stored(q')
  }

  /** A removal deletes the id on each medium in reach whose unlink succeeds, and nothing else. */
  lemma RemoveConserves(q: Queue, id: nat, flashOk: bool, tfOk: bool)
    ensures var (q', ok) := RemoveQ(q, id, flashOk, tfOk);
            && q'.dataLoss == q.dataLoss && Stored(q') <= Stored(q)
            && (id in q'.flash <==> id in q.flash && !flashOk)
            && (id in q'.tf <==> id in q.tf && !(q.tfMounted && tfOk))
            && (forall x <- q.flash :: x != id ==> x in q'.flash && q'.flash[x] == q.flash[x])
            && (forall x <- q.tf :: x != id ==> x in q'.tf && q'.tf[x] == q.tf[x])
            && (ok <==> Deleted(q, q') > 0)
            && (id !in q.flash || id !in q.tf ==> Deleted(q, q') <= 1)
  {}

  lemma {:induction false} PrunedSize(d: Dir, unlink: nat -> bool, k: nat)
    ensures |Pruned(d, unlink, k).0| + Pruned(d, unlink, k).1 == |d|
    ensures Pruned(d, unlink, k).0.Keys <= d.Keys
    decreases |d|
  {
    if |d| > MAX_RECORDS && unlink(k) {
      PrunedSize(Without(d, Oldest(d)), unlink, k + 1);
    }
  }

  /** Boot turns every pruned record into a counted loss. */
  lemma InitConserves(flash: Dir, tf: Dir, tfMounted: bool, unlink: nat -> bool)
    ensures var q := InitQ(flash, tf, tfMounted, unlink);
            Stored(q) + q.dataLoss == |flash| + |tf|
  {
    PrunedSize(flash, unlink, 0);
  }

  /** The flash rewrite branch never compares the new id with the remaining oldest: putting 7
      over {5, 9} leaves an index that still points at 9. */
  lemma StaleOldestExample(topic: string, payload: string)
    ensures var q := Queue(map[5 := "", 9 := ""], map[], false, 0);
            var env := PutEnv(None, false, false, false, false, false, true, true);
            !PutKeepsIndex(q, 7, topic, payload, env) && PutQ(q, 7, topic, payload, env).0.flash.Keys == {7, 9}
  {
    var d: Dir := map[5 := "", 9 := ""];
    assert d.Keys == {5, 9} && IsLeast(d.Keys, 5);
    assert 5 in d;
    assert Oldest(d) == 5;
    var rest := Without(d, 5);
    assert rest.Keys == {9};
    assert 9 in rest;
    assert Oldest(rest) == 9;
    assert rest[7 := FileText(7, topic, payload)].Keys == {7, 9};
  }
}
