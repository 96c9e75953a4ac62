/** One mapping of the registry (main/amm/amm_mapping.h): its physical key, the engineering
    semantics a user may have edited, and the repairs made when it is stored or loaded. */
module AmmEntry {
  import opened ModbusCodec

  const MAX_READ_REGISTERS := 64

  datatype Protocol = Rtu | Tcp

  datatype Key = Key(protocol: Protocol, channel: nat, slave: nat, functionCode: nat, address: nat)

  datatype SemanticSource = Unresolved | Profile | User | Discovery | Imported

  datatype TopicMode = Auto | Custom | OtherMode(value: int)

  datatype Constraint = Constraint(writable: bool, min: real, max: real)

  datatype Format = Format(dataType: DataType, byteOrder: ByteOrder, scale: real, offset: real)

  datatype Window = Window(start: nat, count: nat, index: nat)

  datatype Names = Names(deviceId: string, pointId: string, measurement: string, unit: string)

  datatype Origin = Origin(
    source: SemanticSource, status: nat, confidence: nat,
    profileId: string, profileVersion: nat, evidence: string)

  /** The fields that amm_overlay_user_semantics copies. */
  datatype Semantics = Semantics(
    format: Format, pollMs: nat, priority: nat, constraint: Constraint, window: Window,
    names: Names, topic: string, topicMode: TopicMode, origin: Origin)

  /** The fields it leaves alone. */
  datatype Device = Device(
    objectType: nat, discovered: bool, bitIndex: nat, stringLength: nat,
    retryCount: nat, retryBackoffMs: nat, gatewayKey: string)

  datatype Entry = Entry(version: nat, key: Key, active: bool, device: Device, sem: Semantics)

  // A cell after memset.
  const BLANK := Entry(
    0, Key(Rtu, 0, 0, 0, 0), false, Device(0, false, 0, 0, 0, 0, ""),
    Semantics(Format(Int16, ABCD, 0.0, 0.0), 0, 0, Constraint(false, 0.0, 0.0), Window(0, 0, 0),
              Names("", "", "", ""), "", Auto, Origin(Unresolved, 0, 0, "", 0, "")))

  predicate SameDevice(a: Key, b: Key) {
    a.protocol == b.protocol && a.channel == b.channel && a.slave == b.slave
  }

  /** The registers one value takes; a text may take up to 128. */
  function PointRegisters(e: Entry): (n: nat)
    ensures n > 0
  {
    if e.sem.format.dataType.Ascii? && e.device.stringLength > 0 then (e.device.stringLength + 1) / 2
    else RegisterCount(e.sem.format.dataType)
  }

  /** Two characters go into a register, and the numeric types take 1, 2 or 4. */
  lemma PointRegistersIs(e: Entry)
    ensures e.sem.format.dataType.Ascii? && e.device.stringLength > 0 ==>
              e.device.stringLength <= 2 * PointRegisters(e) <= e.device.stringLength + 1
    ensures e.sem.format.dataType in {Float32, Int32, UInt32} ==> PointRegisters(e) == 2
    ensures e.sem.format.dataType in {Float64, Int64, UInt64} ==> PointRegisters(e) == 4
    ensures e.sem.format.dataType in {Int16, UInt16, Bool, Bcd16, Bitfield16} ==> PointRegisters(e) == 1
  {}

  predicate WindowFits(w: Window, registers: nat) {
    0 < w.count <= MAX_READ_REGISTERS && w.index + registers <= w.count
  }

  function NormalDevice(d: Device, functionCode: nat): Device {
    d.(objectType :=
         if 1 <= d.objectType <= 4 then d.objectType else if 1 <= functionCode <= 4 then functionCode else 3,
       retryCount := if d.retryCount == 0 then 2 else d.retryCount,
       retryBackoffMs := if d.retryBackoffMs == 0 then 50 else d.retryBackoffMs)
  }

  function NormalOrigin(o: Origin): Origin { o.(confidence := if o.confidence > 100 then 100 else o.confidence) }

  function NormalWindow(w: Window, address: nat, registers: nat): Window {
    if WindowFits(w, registers) then w else Window(address, registers, 0)
  }

  function NormalSemantics(s: Semantics, address: nat, registers: nat): Semantics {
    s.(topicMode := if s.topicMode == Custom then Custom else Auto,
       origin := NormalOrigin(s.origin),
       window := NormalWindow(s.window, address, registers))
  }

  /** amm_normalize_read_window. */
  function Normalized(e: Entry): Entry {
    e.(device := NormalDevice(e.device, e.key.functionCode),
       sem := NormalSemantics(e.sem, e.key.address, PointRegisters(e)))
  }

  /** Normalising is a repair: it settles in one go, moves no key, and leaves a window that
      covers the value. The window may exceed 64 registers only when the value itself does,
      and a window that was fit is left alone. */
  lemma NormalizedSettles(e: Entry)
    ensures Normalized(Normalized(e)) == Normalized(e)
    ensures Normalized(e).key == e.key && Normalized(e).active == e.active && Normalized(e).version == e.version
    ensures var w := Normalized(e).sem.window;
            && w.index + PointRegisters(e) <= w.count
            && (w.count <= MAX_READ_REGISTERS <==> PointRegisters(e) <= MAX_READ_REGISTERS)
            && (WindowFits(e.sem.window, PointRegisters(e)) ==> w == e.sem.window)
  {
    assert PointRegisters(Normalized(e)) == PointRegisters(e);
  }

  function PollOr(ms: nat, default: nat): nat { if ms == 0 then default else ms }

  function ScaleOrOne(scale: real): real { if scale == 0.0 then 1.0 else scale }

  function Defaulted(s: Semantics, pollMs: nat): Semantics {
    s.(pollMs := PollOr(s.pollMs, pollMs), format := s.format.(scale := ScaleOrOne(s.format.scale)))
  }

  /** The repairs made by a load. */
  function FixUp(e: Entry, pollMs: nat): Entry {
    Normalized(e.(sem := Defaulted(e.sem, pollMs)))
  }

  lemma FixUpSettles(e: Entry, pollMs: nat)
    requires pollMs > 0
    ensures FixUp(FixUp(e, pollMs), pollMs) == FixUp(e, pollMs)
    ensures FixUp(e, pollMs).key == e.key && FixUp(e, pollMs).active == e.active
    ensures FixUp(e, pollMs).version == e.version
  {
    var once := FixUp(e, pollMs);
    assert Defaulted(once.sem, pollMs) == once.sem;
    NormalizedSettles(e.(sem := Defaulted(e.sem, pollMs)));
  }

  /** An entry as amm_add_mapping stores it. */
  function Added(e: Entry, version: nat, pollMs: nat): Entry {
    Normalized(e.(active := true, version := version, sem := e.sem.(pollMs := PollOr(e.sem.pollMs, pollMs))))
  }

  /** A reboot changes a mapping that was just added exactly when its scale was given as 0:
      an add leaves that, a load makes it 1. */
  lemma AddSettledIff(e: Entry, version: nat, pollMs: nat)
    requires pollMs > 0
    ensures FixUp(Added(e, version, pollMs), pollMs) == Added(e, version, pollMs) <==> e.sem.format.scale != 0.0
  {
    var plain := e.(active := true, version := version, sem := e.sem.(pollMs := PollOr(e.sem.pollMs, pollMs)));
    NormalizedSettles(plain);
    var added := Added(e, version, pollMs);
    if e.sem.format.scale != 0.0 { assert Defaulted(added.sem, pollMs) == added.sem; }
  }

  /** An imported entry before the overlay. */
  function ImportedAs(e: Entry, version: nat, pollMs: nat): Entry {
    FixUp(e.(active := true, version := version), pollMs)
  }

  function Overlaid(e: Entry, user: Entry): Entry { e.(sem := user.sem) }

  // ---- What the repairs leave alone ----

  /** Every field is set and in range. */
  predicate Legal(e: Entry) {
    var w := e.sem.window;
    && e.sem.pollMs > 0 && e.sem.format.scale != 0.0
    && 1 <= e.device.objectType <= 4 && e.device.retryCount > 0 && e.device.retryBackoffMs > 0
    && e.sem.origin.confidence <= 100 && !e.sem.topicMode.OtherMode?
    && 0 < w.count <= 64 && w.index + PointRegisters(e) <= w.count
  }

  /** A legal entry is loaded as it is, and added as it is but for its version. */
  lemma LegalUntouched(e: Entry, version: nat, pollMs: nat)
    requires Legal(e)
    ensures FixUp(e, pollMs) == e
    ensures Added(e, version, pollMs) == e.(active := true, version := version)
    ensures ImportedAs(e, version, pollMs) == e.(active := true, version := version)
  {
    assert e.sem.topicMode.Custom? || e.sem.topicMode.Auto?;
    assert Normalized(e) == e;
    assert Normalized(e.(active := true, version := version)) == e.(active := true, version := version);
  }

  /** An import stores what a load would make of the entry, active and under its own version. */
  lemma ImportedAsLoaded(e: Entry, version: nat, pollMs: nat)
    ensures ImportedAs(e, version, pollMs) == FixUp(e, pollMs).(active := true, version := version)
  {
    assert PointRegisters(e.(active := true, version := version, sem := Defaulted(e.sem, pollMs))) == PointRegisters(e);
  }

  /** Field by field: a load replaces only what is unset or out of range, and by this. */
  lemma RepairedFields(e: Entry, pollMs: nat)
    ensures var r := FixUp(e, pollMs);
            && r.sem.pollMs == (if e.sem.pollMs > 0 then e.sem.pollMs else pollMs)
            && r.sem.format == e.sem.format.(scale := if e.sem.format.scale != 0.0 then e.sem.format.scale else 1.0)
            && (1 <= e.device.objectType <= 4 ==> r.device.objectType == e.device.objectType)
            && (e.device.objectType == 0 || e.device.objectType > 4 ==>
                  r.device.objectType == if e.key.functionCode in {1, 2, 3, 4} then e.key.functionCode else 3)
            && r.device.retryCount == (if e.device.retryCount > 0 then e.device.retryCount else 2)
            && r.device.retryBackoffMs == (if e.device.retryBackoffMs > 0 then e.device.retryBackoffMs else 50)
            && r.sem.origin.confidence == (if e.sem.origin.confidence < 100 then e.sem.origin.confidence else 100)
            && r.sem.topicMode == (if e.sem.topicMode.Custom? then Custom else Auto)
            && r.sem.window == (var w := e.sem.window;
                                if 0 < w.count <= 64 && w.index + PointRegisters(e) <= w.count then w
                                else Window(e.key.address, PointRegisters(e), 0))
            && r == e.(device := e.device.(objectType := r.device.objectType, retryCount := r.device.retryCount,
                                           retryBackoffMs := r.device.retryBackoffMs),
                       sem := e.sem.(pollMs := r.sem.pollMs, format := r.sem.format, window := r.sem.window,
                                     topicMode := r.sem.topicMode,
                                     origin := e.sem.origin.(confidence := r.sem.origin.confidence)))
  {
    var plain := e.(sem := Defaulted(e.sem, pollMs));
    assert PointRegisters(plain) == PointRegisters(e);
  }
}
