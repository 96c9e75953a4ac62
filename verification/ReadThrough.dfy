/** The northbound register read: polled values wait in the state pool of
    main/tcm/tcm_state_pool.c, filled by main/scheduler/scheduler.c, and read_word of
    main/modbus/modbus_tcp_server.c encodes them again. */
module ReadThrough {
  import opened Wrappers
  import opened ModbusCodec
  import opened ModbusPdu
  import ModbusServer
  import opened ControlForward

  datatype State = State(deviceId: string, pointId: string, raw: real, value: real, valid: bool, time: int)

  // ---- The pool: one state for each name, the oldest makes room ----

  predicate Named(s: State, deviceId: string, pointId: string) { s.deviceId == deviceId && s.pointId == pointId }

  function Position(states: seq<State>, deviceId: string, pointId: string): (i: nat)
    ensures i <= |states| && (i < |states| ==> Named(states[i], deviceId, pointId))
    ensures forall j :: 0 <= j < i ==> !Named(states[j], deviceId, pointId)
  {
    FirstWhere(states, (s: State) => Named(s, deviceId, pointId), 0)
  }

  function Lookup(states: seq<State>, deviceId: string, pointId: string): Option<State> {
    var i := Position(states, deviceId, pointId);
    if i < |states| then Some(states[i]) else None
  }

  // The first of the oldest among states[..n].
  function Oldest(states: seq<State>, n: nat): (i: nat)
    requires 0 < n <= |states|
    ensures i < n && forall j :: 0 <= j < n ==> states[i].time <= states[j].time
    ensures forall j :: 0 <= j < i ==> states[i].time < states[j].time
  {
    if n == 1 then 0
    else
      var i := Oldest(states, n - 1);
      if states[n - 1].time < states[i].time then n - 1 else i
  }

  function Updated(states: seq<State>, capacity: nat, s: State): (after: seq<State>)
    requires 0 < capacity && |states| <= capacity
    ensures |after| <= capacity
  {
    var i := Position(states, s.deviceId, s.pointId);
    if i < |states| then states[i := s]
    else if |states| < capacity then states + [s]
    else states[Oldest(states, |states|) := s]
  }

  ghost predicate Distinct(states: seq<State>) {
    forall i, j :: 0 <= i < j < |states| ==> !Named(states[i], states[j].deviceId, states[j].pointId)
  }

  class StatePool {
    const states: array<State>
    var count: nat

    ghost predicate Valid() reads this { 0 < states.Length && count <= states.Length }

    ghost function Contents(): seq<State>
      requires Valid()
      reads this, states
    {
      states[..count]
    }

    constructor (capacity: nat)
      requires capacity > 0
      ensures Valid() && states.Length == capacity && Contents() == [] && fresh(states)
    {
      states := new State[capacity](_ => State("", "", 0.0, 0.0, false, 0));
      count := 0;
    }

    method Update(s: State)
      requires Valid()
      modifies this`count, states
      ensures Valid() && Contents() == Updated(old(Contents()), states.Length, s)
    {
      ghost var before := Contents();
      var slot, oldest, i := count, 0, 0;
      while i < count
        invariant 0 <= i <= count && slot == count
        invariant forall j :: 0 <= j < i ==> !Named(before[j], s.deviceId, s.pointId)
        invariant oldest == if i == 0 then 0 else Oldest(before, i)
      {
        if Named(states[i], s.deviceId, s.pointId) {
          slot := i;
          break;
        }
        if states[i].time < states[oldest].time { oldest := i; }
        i := i + 1;
      }
      if slot == count {
        if count < states.Length {
          count := count + 1;
        } else {
          slot := oldest;
        }
      }
      states[slot] := s;
    }

    method Get(deviceId: string, pointId: string) returns (s: Option<State>)
      requires Valid()
      ensures s == Lookup(Contents(), deviceId, pointId)
    {
      var i := 0;
      while i < count
        invariant 0 <= i <= count
        invariant forall j :: 0 <= j < i ==> !Named(Contents()[j], deviceId, pointId)
      {
        if Named(states[i], deviceId, pointId) { return Some(states[i]); }
        i := i + 1;
      }
      return None;
    }

    /** read_word: the word at a northbound offset, or None where the server answers with
        exception 2. */
    method ReadWord(table: seq<Mapping>, unit: nat, fc: nat, offset: Word, ieee: Ieee) returns (word: Option<Word>)
      requires Valid()
      ensures word == WordAt(Contents(), table, unit, fc, offset, ieee)
    {
      var found := FindMapping(table, unit, fc, offset);
      if found.None? { return None; }
      var (m, wordIndex) := found.value;
      var state := Get(m.deviceId, m.pointId);
      if state.None? || !state.value.valid { return None; }
      if fc <= 2 { return Some(if state.value.value != 0.0 then 1 else 0); }
      var words := new Word[4](_ => 0);
      var n := EncodeNumber(state.value.raw, m.dataType, m.byteOrder, ieee, words);
      if wordIndex >= n { return None; }
      assert words[wordIndex] == words[..][wordIndex];
      return Some(words[wordIndex]);
    }
  }

  function WordAt(states: seq<State>, table: seq<Mapping>, unit: nat, fc: nat, offset: Word, ieee: Ieee): Option<Word> {
    match FindMapping(table, unit, fc, offset)
    case None => None
    case Some((m, wordIndex)) =>
      match Lookup(states, m.deviceId, m.pointId)
      case None => None
      case Some(s) =>
        if !s.valid then None
        else if fc <= 2 then Some(if s.value != 0.0 then 1 else 0)
        else
          var words := Encode(s.raw, m.dataType, m.byteOrder, ieee);
          if wordIndex >= |words| then None else Some(words[wordIndex])
  }

  // ---- What fills the pool ----

  /** A pool update: a context built from words read southbound for table[index], or a failed poll. */
  datatype Update = Built(index: nat, words: seq<Word>, now: int) | Failed(index: nat, now: int)

  predicate IsUpdate(table: seq<Mapping>, u: Update) {
    u.index < |table| && (u.Built? ==> |u.words| == RegisterCount(table[u.index].dataType))
  }

  predicate IsLog(table: seq<Mapping>, log: seq<Update>) {
    forall k :: 0 <= k < |log| ==> IsUpdate(table, log[k])
  }

  // amm_find_mapping_for_object: the first mapping of the polled object names the context.
  function NamedBy(table: seq<Mapping>, index: nat): (m: Mapping)
    requires index < |table|
    ensures m in table
  {
    var polled := table[index];
    table[FirstWhere(table, (m: Mapping) => SameObject(m, polled), 0)]
  }

  predicate SameObject(m: Mapping, polled: Mapping) {
    m.line == polled.line && m.functionCode == polled.functionCode && m.registerAddress == polled.registerAddress
  }

  // What tcm_build_context and tcm_validate ask of a context.
  predicate Acceptable(m: Mapping) {
    m.deviceId != "" && m.pointId != "" && 1 <= m.line.slave <= 247 && 1 <= m.functionCode <= 4
  }

  function StateOf(table: seq<Mapping>, u: Update, ieee: Ieee): (s: Option<State>)
    requires IsUpdate(table, u)
  {
    var polled := table[u.index];
    match u
    case Failed(_, now) => Some(State(polled.deviceId, polled.pointId, 0.0, 0.0, false, now))
    case Built(index, words, now) =>
      var named := NamedBy(table, index);
      var raw := Decode(words, polled.dataType, polled.byteOrder, polled.bitIndex, ieee);
      if !Acceptable(named) then None
      else Some(State(named.deviceId, named.pointId, raw, Scaled(raw, named), true, now))
  }

  function Pool(table: seq<Mapping>, log: seq<Update>, capacity: nat, ieee: Ieee): (states: seq<State>)
    requires IsLog(table, log) && 0 < capacity
    ensures |states| <= capacity
  {
    if log == [] then []
    else
      var before := Pool(table, log[..|log| - 1], capacity, ieee);
      match StateOf(table, log[|log| - 1], ieee)
      case None => before
      case Some(s) => Updated(before, capacity, s)
  }

  // The last update that reached the pool under a name.
  function LastUpdate(table: seq<Mapping>, log: seq<Update>, deviceId: string, pointId: string, ieee: Ieee): (u: Option<Update>)
    requires IsLog(table, log)
    ensures u.Some? ==> IsUpdate(table, u.value) && StateOf(table, u.value, ieee).Some?
  {
    if log == [] then None
    else
      var s := StateOf(table, log[|log| - 1], ieee);
      if s.Some? && Named(s.value, deviceId, pointId) then Some(log[|log| - 1])
      else LastUpdate(table, log[..|log| - 1], deviceId, pointId, ieee)
  }

  function LastState(table: seq<Mapping>, log: seq<Update>, deviceId: string, pointId: string, ieee: Ieee): Option<State>
    requires IsLog(table, log)
  {
    match LastUpdate(table, log, deviceId, pointId, ieee)
    case None => None
    case Some(u) => StateOf(table, u, ieee)
  }

  // ---- The pool holds the last state of every point ----

  lemma PositionIs(states: seq<State>, i: nat, deviceId: string, pointId: string)
    requires Distinct(states) && i < |states| && Named(states[i], deviceId, pointId)
    ensures Position(states, deviceId, pointId) == i
  {}

  lemma LookupReplaced(states: seq<State>, i: nat, s: State, deviceId: string, pointId: string)
    requires Distinct(states) && i < |states|
    requires forall j :: 0 <= j < |states| && j != i ==> !Named(states[j], s.deviceId, s.pointId)
    ensures Distinct(states[i := s])
    ensures Lookup(states[i := s], deviceId, pointId) ==
              if Named(s, deviceId, pointId) then Some(s)
              else if Named(states[i], deviceId, pointId) then None
              else Lookup(states, deviceId, pointId)
  {
    var after := states[i := s];
    var k := Position(after, deviceId, pointId);
    if k < |after| {
      if k != i { PositionIs(states, k, deviceId, pointId); }
    } else {
      assert forall j :: 0 <= j < |states| && j != i ==> after[j] == states[j];
      assert after[i] == s;
    }
  }

  lemma LookupAppended(states: seq<State>, s: State, deviceId: string, pointId: string)
    requires Distinct(states) && Lookup(states, s.deviceId, s.pointId).None?
    ensures Distinct(states + [s])
    ensures Lookup(states + [s], deviceId, pointId) ==
              if Named(s, deviceId, pointId) then Some(s) else Lookup(states, deviceId, pointId)
  {
    var i, after := Position(states, deviceId, pointId), states + [s];
    assert after[|states|] == s;
    if i < |states| {
      assert after[i] == states[i];
      PositionIs(after, i, deviceId, pointId);
    } else {
      assert forall j :: 0 <= j < |states| ==> !Named(after[j], deviceId, pointId);
    }
  }

  /** An update shows under its own name; only the oldest state of a full pool goes, and only
      for a new name. */
  lemma UpdatedLookup(states: seq<State>, capacity: nat, s: State, deviceId: string, pointId: string)
    requires 0 < capacity && |states| <= capacity && Distinct(states)
    ensures Distinct(Updated(states, capacity, s))
    ensures Lookup(Updated(states, capacity, s), deviceId, pointId) ==
              if Named(s, deviceId, pointId) then Some(s)
              else if Lookup(states, s.deviceId, s.pointId).None? && |states| == capacity
                      && Named(states[Oldest(states, |states|)], deviceId, pointId) then None
              else Lookup(states, deviceId, pointId)
  {
    var i := Position(states, s.deviceId, s.pointId);
    if i < |states| {
      LookupReplaced(states, i, s, deviceId, pointId);
    } else if |states| < capacity {
      LookupAppended(states, s, deviceId, pointId);
    } else {
      LookupReplaced(states, Oldest(states, |states|), s, deviceId, pointId);
    }
  }

  /** A pool of any size shows the last state stored under a name, or nothing. */
  lemma {:induction false} PoolShowsLastOrNothing(table: seq<Mapping>, log: seq<Update>, capacity: nat, ieee: Ieee,
                                                  deviceId: string, pointId: string)
    requires IsLog(table, log) && 0 < capacity
    ensures Distinct(Pool(table, log, capacity, ieee))
    ensures var shown := Lookup(Pool(table, log, capacity, ieee), deviceId, pointId);
            shown.None? || shown == LastState(table, log, deviceId, pointId, ieee)
    decreases |log|
  {
    if log != [] {
      var front, u := log[..|log| - 1], log[|log| - 1];
      PoolShowsLastOrNothing(table, front, capacity, ieee, deviceId, pointId);
      if StateOf(table, u, ieee).Some? {
        UpdatedLookup(Pool(table, front, capacity, ieee), capacity, StateOf(table, u, ieee).value, deviceId, pointId);
      }
    }
  }

  ghost function StateNames(states: seq<State>): set<(string, string)> { set s <- states :: (s.deviceId, s.pointId) }

  ghost function TableNames(table: seq<Mapping>): set<(string, string)> { set m <- table :: (m.deviceId, m.pointId) }

  lemma {:induction false} DistinctCount(states: seq<State>)
    requires Distinct(states)
    ensures |StateNames(states)| == |states|
  {
    if states != [] {
      var front, s := states[..|states| - 1], states[|states| - 1];
      DistinctCount(front);
      assert states == front + [s];
      assert StateNames(states) == StateNames(front) + {(s.deviceId, s.pointId)};
      assert (s.deviceId, s.pointId) !in StateNames(front);
    }
  }

  lemma {:induction false} TableCount(table: seq<Mapping>)
    ensures |TableNames(table)| <= |table|
  {
    if table != [] {
      var front, m := table[..|table| - 1], table[|table| - 1];
      TableCount(front);
      assert table == front + [m];
      assert TableNames(table) == TableNames(front) + {(m.deviceId, m.pointId)};
    }
  }

  lemma SubsetCount<T>(a: set<T>, b: set<T>)
    requires a <= b
    ensures |a| <= |b|
  {
    assert b == a + (b - a);
  }

  // A name of the table that the pool does not hold yet still has room.
  lemma RoomForNew(states: seq<State>, s: State, table: seq<Mapping>)
    requires Distinct(states) && Lookup(states, s.deviceId, s.pointId).None?
    requires StateNames(states) <= TableNames(table) && (s.deviceId, s.pointId) in TableNames(table)
    ensures |states| < |table|
  {
    LookupAppended(states, s, s.deviceId, s.pointId);
    DistinctCount(states + [s]);
    assert StateNames(states + [s]) == StateNames(states) + {(s.deviceId, s.pointId)};
    SubsetCount(StateNames(states + [s]), TableNames(table));
    TableCount(table);
  }

  lemma NamesOfTable(table: seq<Mapping>, u: Update, ieee: Ieee)
    requires IsUpdate(table, u) && StateOf(table, u, ieee).Some?
    ensures var s := StateOf(table, u, ieee).value; (s.deviceId, s.pointId) in TableNames(table)
  {
    var m := if u.Failed? then table[u.index] else NamedBy(table, u.index);
    assert m in table;
  }

  lemma UpdatedNames(states: seq<State>, capacity: nat, s: State)
    requires 0 < capacity && |states| <= capacity
    ensures StateNames(Updated(states, capacity, s)) <= StateNames(states) + {(s.deviceId, s.pointId)}
  {
    forall t <- Updated(states, capacity, s) ensures t == s || t in states {}
  }

  /** A pool with a slot for each mapping holds, under every name, the last state that was stored
      under it. */
  lemma {:induction false} PoolHoldsLast(table: seq<Mapping>, log: seq<Update>, capacity: nat, ieee: Ieee, deviceId: string, pointId: string)
    requires IsLog(table, log) && 0 < capacity && |table| <= capacity
    ensures Distinct(Pool(table, log, capacity, ieee)) && StateNames(Pool(table, log, capacity, ieee)) <= TableNames(table)
    ensures Lookup(Pool(table, log, capacity, ieee), deviceId, pointId) == LastState(table, log, deviceId, pointId, ieee)
    decreases |log|
  {
    if log != [] {
      var front, u := log[..|log| - 1], log[|log| - 1];
      PoolHoldsLast(table, front, capacity, ieee, deviceId, pointId);
      var before := Pool(table, front, capacity, ieee);
      if StateOf(table, u, ieee).Some? {
        var s := StateOf(table, u, ieee).value;
        NamesOfTable(table, u, ieee);
        UpdatedNames(before, capacity, s);
        UpdatedLookup(before, capacity, s, deviceId, pointId);
        if Lookup(before, s.deviceId, s.pointId).None? { RoomForNew(before, s, table); }
      }
    }
  }

  /** A poll's context is named by the first mapping of the same line, function code and register,
      and stored when that has both names, a unit of 1 to 247 and a read function code; a failed
      poll is stored as invalid under the polled mapping's own names. */
  lemma StoredIff(table: seq<Mapping>, u: Update, i: nat, ieee: Ieee)
    requires IsUpdate(table, u) && i < |table|
    requires table[i].line == table[u.index].line && table[i].functionCode == table[u.index].functionCode
    requires table[i].registerAddress == table[u.index].registerAddress
    requires forall j :: 0 <= j < i ==> table[j].line != table[i].line || table[j].functionCode != table[i].functionCode
                                        || table[j].registerAddress != table[i].registerAddress
    ensures var s, named := StateOf(table, u, ieee), table[i];
            if u.Failed? then
              s.Some? && !s.value.valid && Named(s.value, table[u.index].deviceId, table[u.index].pointId)
            else
              && (s.Some? <==> named.deviceId != "" && named.pointId != "" && 1 <= named.line.slave <= 247
                               && named.functionCode in {1, 2, 3, 4})
              && (s.Some? ==> s.value.valid && Named(s.value, named.deviceId, named.pointId) && s.value.time == u.now)
  {
    var k := FirstWhere(table, (m: Mapping) => SameObject(m, table[u.index]), 0);
    assert SameObject(table[i], table[u.index]);
    assert k == i;
  }

  /** After a failed poll its point is refused until a later context is stored under its names. */
  lemma FailedPollRefuses(table: seq<Mapping>, log: seq<Update>, capacity: nat, unit: nat, fc: nat, offset: Word, m: Mapping, k: nat, ieee: Ieee)
    requires IsLog(table, log) && log != [] && 0 < capacity && |table| <= capacity
    requires FindMapping(table, unit, fc, offset) == Some((m, k))
    requires var u := log[|log| - 1]; u.Failed? && table[u.index].deviceId == m.deviceId && table[u.index].pointId == m.pointId
    ensures WordAt(Pool(table, log, capacity, ieee), table, unit, fc, offset, ieee).None?
  {
    PoolHoldsLast(table, log, capacity, ieee, m.deviceId, m.pointId);
  }

  // ---- What a client reads ----

  function Points(states: seq<State>, table: seq<Mapping>, unit: nat, ieee: Ieee): ModbusServer.Points {
    (fc: Byte, offset: Word) => WordAt(states, table, unit, fc, offset, ieee)
  }

  /** A register is refused exactly when no mapping covers it, when its point was never built or
      its last poll failed, or when it is text. */
  lemma WordRefusedIff(table: seq<Mapping>, log: seq<Update>, capacity: nat, unit: nat, fc: nat, offset: Word, ieee: Ieee)
    requires IsLog(table, log) && 0 < capacity && |table| <= capacity
    ensures WordAt(Pool(table, log, capacity, ieee), table, unit, fc, offset, ieee).None? <==>
              match FindMapping(table, unit, fc, offset)
              case None => true
              case Some((m, _)) =>
                var u := LastUpdate(table, log, m.deviceId, m.pointId, ieee);
                u.None? || u.value.Failed? || (fc > 2 && m.dataType.Ascii?)
  {
    match FindMapping(table, unit, fc, offset)
    case None =>
    case Some((m, _)) => PoolHoldsLast(table, log, capacity, ieee, m.deviceId, m.pointId);
  }

  /** A point and the words last read from it southbound. */
  datatype Polled = Polled(mapping: Mapping, words: seq<Word>)

  // The integer point's registers start at the northbound address, and `words` are what the
  // last update under its names was built from.
  predicate ShownAt(table: seq<Mapping>, log: seq<Update>, unit: nat, fc: nat, address: Word, p: Polled, ieee: Ieee)
    requires IsLog(table, log)
  {
    var m := p.mapping;
    && IsInteger(m.dataType) && |p.words| == RegisterCount(m.dataType)
    && (forall k :: 0 <= k < |p.words| ==> FindMapping(table, unit, fc, ModbusServer.Wrap(address, k)) == Some((m, k)))
    && match LastUpdate(table, log, m.deviceId, m.pointId, ieee)
       case Some(Built(index, words, _)) => table[index] == m && words == p.words
       case _ => false
  }

  predicate LaidOut(table: seq<Mapping>, log: seq<Update>, unit: nat, fc: nat, address: Word, ps: seq<Polled>, ieee: Ieee)
    requires IsLog(table, log)
    decreases |ps|
  {
    ps == [] ||
    (ShownAt(table, log, unit, fc, address, ps[0], ieee)
     && LaidOut(table, log, unit, fc, ModbusServer.Wrap(address, |ps[0].words|), ps[1..], ieee))
  }

  function AllWords(ps: seq<Polled>): seq<Word> {
    if ps == [] then [] else ps[0].words + AllWords(ps[1..])
  }

  /** One register: its bytes stay in place or are equal. More: the integer survives the double. */
  predicate Survives(p: Polled, ieee: Ieee) {
    var m := p.mapping;
    IsInteger(m.dataType) && |p.words| == RegisterCount(m.dataType) ==>
      if |p.words| == 1 then !m.byteOrder.Swaps() || p.words[0] / 256 == p.words[0] % 256
      else ComesBack(IntegerIn(m, p.words), m.dataType, ieee)
  }

  predicate AllSurvive(ps: seq<Polled>, ieee: Ieee) { forall k :: 0 <= k < |ps| ==> Survives(ps[k], ieee) }

  lemma AllSurviveSplit(ps: seq<Polled>, ieee: Ieee)
    requires ps != []
    ensures AllSurvive(ps, ieee) <==> Survives(ps[0], ieee) && AllSurvive(ps[1..], ieee)
  {
    assert forall k :: 1 <= k < |ps| ==> ps[k] == ps[1..][k - 1];
  }

  lemma SurvivesIff(p: Polled, ieee: Ieee)
    requires IsInteger(p.mapping.dataType) && |p.words| == RegisterCount(p.mapping.dataType)
    ensures var m := p.mapping;
            Encode(Decode(p.words, m.dataType, m.byteOrder, m.bitIndex, ieee), m.dataType, m.byteOrder, ieee) == p.words
            <==> Survives(p, ieee)
  {
    var m := p.mapping;
    if |p.words| == 1 {
      assert p.words == [p.words[0]];
      SixteenBitRoundTripIff(p.words[0], m.dataType, m.byteOrder, m.bitIndex, ieee);
    } else {
      EncodeUndoesDecodeIff(p.words, m.dataType, m.byteOrder, m.bitIndex, ieee);
    }
  }

  ghost predicate ReadsAs(points: ModbusServer.Points, fc: Byte, address: Word, words: seq<Word>) {
    forall k :: 0 <= k < |words| ==> points(fc, ModbusServer.Wrap(address, k)) == Some(words[k])
  }

  // What the pool makes of the words of a shown point.
  function Reencoded(p: Polled, ieee: Ieee): seq<Word>
    requires |p.words| == RegisterCount(p.mapping.dataType)
  {
    var m := p.mapping;
    Encode(Decode(p.words, m.dataType, m.byteOrder, m.bitIndex, ieee), m.dataType, m.byteOrder, ieee)
  }

  lemma ShownWord(table: seq<Mapping>, log: seq<Update>, capacity: nat, unit: nat, fc: Byte, address: Word, p: Polled, k: nat, ieee: Ieee)
    requires IsLog(table, log) && 0 < capacity && |table| <= capacity
    requires fc > 2 && ShownAt(table, log, unit, fc, address, p, ieee) && k < |p.words|
    ensures WordAt(Pool(table, log, capacity, ieee), table, unit, fc, ModbusServer.Wrap(address, k), ieee) == Some(Reencoded(p, ieee)[k])
  {
    PoolHoldsLast(table, log, capacity, ieee, p.mapping.deviceId, p.mapping.pointId);
    assert FindMapping(table, unit, fc, ModbusServer.Wrap(address, k)) == Some((p.mapping, k));
  }

  lemma PointReadsAsIff(table: seq<Mapping>, log: seq<Update>, capacity: nat, unit: nat, fc: Byte, address: Word, p: Polled, ieee: Ieee)
    requires IsLog(table, log) && 0 < capacity && |table| <= capacity
    requires fc > 2 && ShownAt(table, log, unit, fc, address, p, ieee)
    ensures ReadsAs(Points(Pool(table, log, capacity, ieee), table, unit, ieee), fc, address, p.words) <==> Survives(p, ieee)
  {
    var points, words := Points(Pool(table, log, capacity, ieee), table, unit, ieee), Reencoded(p, ieee);
    forall k | 0 <= k < |p.words| ensures points(fc, ModbusServer.Wrap(address, k)) == Some(words[k]) {
      ShownWord(table, log, capacity, unit, fc, address, p, k, ieee);
    }
    ReadsOthers(points, fc, address, p.words, words);
    SurvivesIff(p, ieee);
  }

  lemma ReadsOthers(points: ModbusServer.Points, fc: Byte, address: Word, words: seq<Word>, shown: seq<Word>)
    requires |words| == |shown| && forall k :: 0 <= k < |words| ==> points(fc, ModbusServer.Wrap(address, k)) == Some(shown[k])
    ensures ReadsAs(points, fc, address, words) <==> shown == words
  {}

  lemma WrapTwice(address: Word, i: nat, k: nat)
    ensures ModbusServer.Wrap(ModbusServer.Wrap(address, i), k) == ModbusServer.Wrap(address, i + k)
  {}

  lemma ReadsAsAppend(points: ModbusServer.Points, fc: Byte, address: Word, a: seq<Word>, b: seq<Word>)
    ensures ReadsAs(points, fc, address, a + b) <==>
              ReadsAs(points, fc, address, a) && ReadsAs(points, fc, ModbusServer.Wrap(address, |a|), b)
  {
    forall k: nat ensures ModbusServer.Wrap(ModbusServer.Wrap(address, |a|), k) == ModbusServer.Wrap(address, |a| + k) {
      WrapTwice(address, |a|, k);
    }
    if ReadsAs(points, fc, address, a + b) {
      forall k | 0 <= k < |a| ensures points(fc, ModbusServer.Wrap(address, k)) == Some(a[k]) {
        assert (a + b)[k] == a[k];
      }
      forall k | 0 <= k < |b|
        ensures points(fc, ModbusServer.Wrap(ModbusServer.Wrap(address, |a|), k)) == Some(b[k])
      {
        assert (a + b)[|a| + k] == b[k];
      }
    }
    if ReadsAs(points, fc, address, a) && ReadsAs(points, fc, ModbusServer.Wrap(address, |a|), b) {
      forall k | 0 <= k < |a + b| ensures points(fc, ModbusServer.Wrap(address, k)) == Some((a + b)[k]) {
        if k >= |a| { assert ModbusServer.Wrap(ModbusServer.Wrap(address, |a|), k - |a|) == ModbusServer.Wrap(address, k); }
      }
    }
  }

  lemma {:induction false} ReadPointsIff(points: ModbusServer.Points, fc: Byte, address: Word, words: seq<Word>)
    ensures ModbusServer.ReadPoints(points, fc, address, |words|) == Some(words) <==> ReadsAs(points, fc, address, words)
    decreases |words|
  {
    if words != [] {
      var front, w := words[..|words| - 1], words[|words| - 1];
      ReadPointsIff(points, fc, address, front);
      assert words == front + [w];
      var r := ModbusServer.ReadPoints(points, fc, address, |front|);
      if r.Some? { LastAgrees(r.value, front, w, points(fc, ModbusServer.Wrap(address, |front|))); }
    }
  }

  lemma LastAgrees(read: seq<Word>, front: seq<Word>, w: Word, last: Option<Word>)
    requires |read| == |front|
    ensures last.Some? ==> (read + [last.value] == front + [w] <==> read == front && last.value == w)
  {
    if last.Some? && read + [last.value] == front + [w] {
      assert (read + [last.value])[..|read|] == read && (front + [w])[..|front|] == front;
      assert (read + [last.value])[|read|] == (front + [w])[|front|];
    }
  }

  lemma {:induction false} BlockReadsAsIff(table: seq<Mapping>, log: seq<Update>, capacity: nat, unit: nat, fc: Byte, address: Word,
                                           ps: seq<Polled>, ieee: Ieee)
    requires IsLog(table, log) && 0 < capacity && |table| <= capacity
    requires fc > 2 && LaidOut(table, log, unit, fc, address, ps, ieee)
    ensures ReadsAs(Points(Pool(table, log, capacity, ieee), table, unit, ieee), fc, address, AllWords(ps)) <==>
              AllSurvive(ps, ieee)
    decreases |ps|
  {
    if ps != [] {
      var points := Points(Pool(table, log, capacity, ieee), table, unit, ieee);
      var next := ModbusServer.Wrap(address, |ps[0].words|);
      PointReadsAsIff(table, log, capacity, unit, fc, address, ps[0], ieee);
      BlockReadsAsIff(table, log, capacity, unit, fc, next, ps[1..], ieee);
      ReadsAsAppend(points, fc, address, ps[0].words, AllWords(ps[1..]));
      AllSurviveSplit(ps, ieee);
    }
  }

  /** A client that reads whole integer points gets exactly the words last read from them
      southbound if and only if every point survives. */
  lemma ClientReadsBackIff(table: seq<Mapping>, log: seq<Update>, capacity: nat, unit: nat, fc: Byte, address: Word,
                           ps: seq<Polled>, ieee: Ieee, control: ModbusServer.Control)
    requires IsLog(table, log) && 0 < capacity && |table| <= capacity
    requires 3 <= fc <= 4 && LaidOut(table, log, unit, fc, address, ps, ieee) && 0 < |AllWords(ps)| <= 125
    ensures var points := Points(Pool(table, log, capacity, ieee), table, unit, ieee);
            var n := |AllWords(ps)|;
            ModbusServer.ReadResult(fc, n, ModbusServer.Respond(ReadRequest(fc, address, n), points, control).0) == Some(AllWords(ps))
            <==> AllSurvive(ps, ieee)
  {
    var points := Points(Pool(table, log, capacity, ieee), table, unit, ieee);
    ModbusServer.ReadExchange(fc, address, |AllWords(ps)|, points, control);
    ReadPointsIff(points, fc, address, AllWords(ps));
    BlockReadsAsIff(table, log, capacity, unit, fc, address, ps, ieee);
  }

  /** Coils are answered from the scaled value: an off coil reads back exactly when its offset
      is zero, an on coil exactly when scale and offset do not cancel. */
  lemma CoilReadsBackIff(table: seq<Mapping>, log: seq<Update>, capacity: nat, unit: nat, fc: nat, offset: Word,
                         m: Mapping, u: Update, ieee: Ieee)
    requires IsLog(table, log) && 0 < capacity && |table| <= capacity
    requires fc <= 2 && m.dataType.Bool? && FindMapping(table, unit, fc, offset) == Some((m, 0))
    requires LastUpdate(table, log, m.deviceId, m.pointId, ieee) == Some(u)
    requires u.Built? && table[u.index] == m && NamedBy(table, u.index) == m
    ensures WordAt(Pool(table, log, capacity, ieee), table, unit, fc, offset, ieee) == Some(if u.words[0] != 0 then 1 else 0)
            <==> if u.words[0] == 0 then m.offset == 0.0 else m.scale + m.offset != 0.0
  {
    PoolHoldsLast(table, log, capacity, ieee, m.deviceId, m.pointId);
  }
}
