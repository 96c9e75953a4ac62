/** The northbound register write: main/modbus/modbus_tcp_server.c cuts the received words
    into points, and main/services/control_service.c checks, re-encodes and sends each one
    southbound. Engineering values are exact reals. */
module ControlForward {
  import opened Wrappers
  import opened ModbusCodec

  /** The device behind a mapping. */
  datatype Line = Line(protocol: nat, channel: nat, slave: nat)

  /** The fields of an active mapping that the write path reads. */
  datatype Mapping = Mapping(
    line: Line, functionCode: nat, objectType: nat, registerAddress: Word,
    deviceId: string, pointId: string, dataType: DataType, byteOrder: ByteOrder, bitIndex: nat,
    scale: real, offset: real, writable: bool, rangeMin: real, rangeMax: real, readRegisterCount: nat)

  const MODBUS_OBJECT_COIL := 1

  datatype SouthWrite = SouthWrite(line: Line, functionCode: nat, address: Word, words: seq<Word>)

  /** Whether the device takes a write, given those sent before. */
  type Bus = (seq<SouthWrite>, SouthWrite) -> bool

  datatype Status = Ok | InvalidArg | NotFound | NotAllowed | NotSupported | BusError

  // ---- Lookup, first match in table order ----

  function Width(m: Mapping): nat {
    if m.dataType.Ascii? && m.readRegisterCount > 0 then m.readRegisterCount else RegisterCount(m.dataType)
  }

  predicate Covers(m: Mapping, unit: nat, fc: nat, address: Word) {
    m.line.slave == unit && m.functionCode == fc
    && m.registerAddress <= address < m.registerAddress + Width(m)
  }

  function FindCovering(table: seq<Mapping>, unit: nat, fc: nat, address: Word): (r: Option<Mapping>)
    ensures r.Some? ==> r.value in table && Covers(r.value, unit, fc, address)
    ensures r.None? ==> forall m <- table :: !Covers(m, unit, fc, address)
  {
    var i := FirstWhere(table, (m: Mapping) => Covers(m, unit, fc, address), 0);
    if i < |table| then Some(table[i]) else None
  }

  // The logical number of an offset in a function code's table (16-bit arithmetic).
  function Logical(fc: nat, offset: Word): Word {
    if fc == 1 then (offset + 1) % 0x1_0000
    else if fc == 2 then (offset + 10001) % 0x1_0000
    else if fc == 3 then (offset + 40001) % 0x1_0000
    else if fc == 4 then (offset + 30001) % 0x1_0000
    else offset
  }

  // The offset as given, then as a logical number.
  function FindMapping(table: seq<Mapping>, unit: nat, fc: nat, offset: Word): (r: Option<(Mapping, nat)>)
    ensures r.Some? ==> r.value.0 in table && r.value.0.functionCode == fc && r.value.1 < Width(r.value.0)
  {
    match FindCovering(table, unit, fc, offset)
    case Some(m) => Some((m, offset - m.registerAddress))
    case None =>
      match FindCovering(table, unit, fc, Logical(fc, offset))
      case Some(m) => Some((m, Logical(fc, offset) - m.registerAddress))
      case None => None
  }

  function FindByPoint(table: seq<Mapping>, deviceId: string, pointId: string): (r: Option<Mapping>)
    ensures r.Some? ==> r.value in table && r.value.deviceId == deviceId && r.value.pointId == pointId
    ensures r.None? ==> forall m <- table :: m.deviceId != deviceId || m.pointId != pointId
  {
    var i := FirstWhere(table, (m: Mapping) => m.deviceId == deviceId && m.pointId == pointId, 0);
    if i < |table| then Some(table[i]) else None
  }

  /** How a mapping's words become an engineering value and back. */
  datatype Wire = Wire(read: (Mapping, seq<Word>) -> real, write: (Mapping, real) -> seq<Word>)

  // ---- control_service_write_point ----

  function EffectiveScale(m: Mapping): real { if m.scale == 0.0 then 1.0 else m.scale }

  function Unscaled(engineering: real, m: Mapping): real { (engineering - m.offset) / EffectiveScale(m) }

  /** The control path's own encoder: as the codec's, but it refuses bit fields. */
  function EncodeValue(engineering: real, m: Mapping, ieee: Ieee): seq<Word> {
    if m.dataType.Bitfield16? then []
    else Encode(Unscaled(engineering, m), m.dataType, m.byteOrder, ieee)
  }

  /** modbus_register_offset for the write function codes. */
  function RegisterOffset(fc: nat, configured: Word): Word {
    if (fc == 6 || fc == 16) && configured >= 40001 then configured - 40001 else configured
  }

  function SouthRequest(m: Mapping, words: seq<Word>): SouthWrite {
    var single := |words| == 1;
    var fc := if m.objectType == MODBUS_OBJECT_COIL then (if single then 5 else 15) else (if single then 6 else 16);
    SouthWrite(m.line, fc, RegisterOffset(fc, m.registerAddress), words)
  }

  function WritePoint(table: seq<Mapping>, deviceId: string, pointId: string, engineering: real,
                      wire: Wire, bus: Bus, sent: seq<SouthWrite>): (Status, seq<SouthWrite>)
  {
    match FindByPoint(table, deviceId, pointId)
    case None => (NotFound, sent)
    case Some(m) =>
      if !m.writable then (NotAllowed, sent)
      else if engineering < m.rangeMin || engineering > m.rangeMax then (InvalidArg, sent)
      else
        var words := wire.write(m, engineering);
        if words == [] then (NotSupported, sent)
        else
          var w := SouthRequest(m, words);
          if bus(sent, w) then (Ok, sent + [w]) else (BusError, sent)
  }

  // ---- write_multiple_registers ----

  type ExceptionCode = c: nat | 0 < c < 128 witness 1

  datatype Point = Rejected(code: ExceptionCode) | Accepted(mapping: Mapping, count: nat)

  function Offset(address: Word, index: nat): Word { (address + index) % 0x1_0000 }

  // A mapping starts at a northbound offset by its raw address or by its logical number.
  predicate StartsAt(m: Mapping, offset: Word) {
    m.registerAddress == offset || m.registerAddress == (offset + 40001) % 0x1_0000
  }

  // The point that starts at values[index], or the exception that stops the request.
  function PointAt(table: seq<Mapping>, unit: nat, address: Word, values: seq<Word>, index: nat): (p: Point)
    ensures p.Accepted? ==> 1 <= p.count == RegisterCount(p.mapping.dataType) && index + p.count <= |values|
    ensures p.Accepted? ==>
              && p.mapping in table && p.mapping.line.slave == unit && p.mapping.functionCode == 3 && p.mapping.writable
              && StartsAt(p.mapping, Offset(address, index))
    ensures p.Rejected? ==> p.code == 2 || p.code == 3
  {
    match FindMapping(table, unit, 3, Offset(address, index))
    case None => Rejected(2)
    case Some((m, wordIndex)) =>
      if wordIndex != 0 || !m.writable then Rejected(2)
      else if m.dataType.Ascii? || index + RegisterCount(m.dataType) > |values| then Rejected(3)
      else Accepted(m, RegisterCount(m.dataType))
  }

  function Scaled(raw: real, m: Mapping): real { raw * m.scale + m.offset }

  function Engineering(m: Mapping, words: seq<Word>, ieee: Ieee): real {
    if |words| < RegisterCount(m.dataType) then 0.0
    else Scaled(Decode(words, m.dataType, m.byteOrder, m.bitIndex, ieee), m)
  }

  /** The gateway's conversions. */
  function GatewayWire(ieee: Ieee): Wire {
    Wire((m: Mapping, words: seq<Word>) => Engineering(m, words, ieee),
         (m: Mapping, engineering: real) => EncodeValue(engineering, m, ieee))
  }

  // Decodes, scales and sends one point.
  function SendPoint(table: seq<Mapping>, m: Mapping, words: seq<Word>,
                     wire: Wire, bus: Bus, sent: seq<SouthWrite>): (Status, seq<SouthWrite>)
  {
    WritePoint(table, m.deviceId, m.pointId, wire.read(m, words), wire, bus, sent)
  }

  /** What a block write needs of its surroundings: the point that starts at an index, and
      what sending a point's words does to the southbound log. */
  datatype Path = Path(
    point: nat -> Point,
    send: (Mapping, seq<Word>, seq<SouthWrite>) -> (Status, seq<SouthWrite>))

  function GatewayPath(table: seq<Mapping>, unit: nat, address: Word, values: seq<Word>, wire: Wire, bus: Bus): Path {
    Path((index: nat) => PointAt(table, unit, address, values, index),
         (m: Mapping, words: seq<Word>, sent: seq<SouthWrite>) => SendPoint(table, m, words, wire, bus, sent))
  }

  /** The exception code (0 for success) and the southbound writes of a request, from values[index]. */
  function Forward(path: Path, values: seq<Word>, index: nat, sent: seq<SouthWrite>): (nat, seq<SouthWrite>)
    requires index <= |values|
    decreases |values| - index
  {
    if index == |values| then (0, sent)
    else
      match path.point(index)
      case Rejected(code) => (code, sent)
      case Accepted(m, count) =>
        if !(1 <= count <= |values| - index) then (3, sent)
        else
          var (status, sent') := path.send(m, values[index..index + count], sent);
          if status != Ok then (4, sent') else Forward(path, values, index + count, sent')
  }

  // ---- write_single ----

  /** The number that a single write carries: a coil is on for 0xFF00 only. */
  function SingleValue(fc: nat, raw: Word): real {
    if fc == 5 then (if raw == 0xFF00 then 1.0 else 0.0) else raw as real
  }

  function SingleWrite(table: seq<Mapping>, unit: nat, fc: nat, offset: Word, raw: Word,
                       wire: Wire, bus: Bus, sent: seq<SouthWrite>): (nat, seq<SouthWrite>)
  {
    match FindMapping(table, unit, if fc == 5 then 1 else 3, offset)
    case None => (2, sent)
    case Some((m, wordIndex)) =>
      if wordIndex != 0 || !m.writable then (2, sent)
      else
        var (status, after) := WritePoint(table, m.deviceId, m.pointId, Scaled(SingleValue(fc, raw), m), wire, bus, sent);
        (if status == Ok then 0 else 4, after)
  }

  class ControlPath {
    const table: seq<Mapping>
    var sent: seq<SouthWrite>

    constructor (table: seq<Mapping>)
      ensures this.table == table && sent == []
    {
      this.table := table;
      sent := [];
    }

    /** encode_value fills words[4] and reports how many it used. */
    method EncodeInto(engineering: real, m: Mapping, ieee: Ieee, words: array<Word>) returns (count: nat)
      requires words.Length == 4
      modifies words
      ensures count <= 4 && words[..count] == EncodeValue(engineering, m, ieee)
    {
      var scale := if m.scale == 0.0 then 1.0 else m.scale;
      var raw := (engineering - m.offset) / scale;
      if m.dataType.Bitfield16? { return 0; }
      count := EncodeNumber(raw, m.dataType, m.byteOrder, ieee, words);
    }

    method WritePointNow(deviceId: string, pointId: string, engineering: real, ieee: Ieee, bus: Bus) returns (status: Status)
      modifies this`sent
      ensures (status, sent) == WritePoint(table, deviceId, pointId, engineering, GatewayWire(ieee), bus, old(sent))
    {
      var found := FindByPoint(table, deviceId, pointId);
      if found.None? { return NotFound; }
      var m := found.value;
      if !m.writable { return NotAllowed; }
      if engineering < m.rangeMin || engineering > m.rangeMax { return InvalidArg; }
      var words := new Word[4](_ => 0);
      var count := EncodeInto(engineering, m, ieee, words);
      if count == 0 { return NotSupported; }
      var fc := if m.objectType == MODBUS_OBJECT_COIL then (if count == 1 then 5 else 15)
                else (if count == 1 then 6 else 16);
      var w := SouthWrite(m.line, fc, RegisterOffset(fc, m.registerAddress), words[..count]);
      if !bus(sent, w) { return BusError; }
      sent := sent + [w];
      return Ok;
    }

    method ForwardPoint(values: seq<Word>, index: nat, m: Mapping, ieee: Ieee, bus: Bus) returns (status: Status)
      requires index + RegisterCount(m.dataType) <= |values|
      modifies this`sent
      ensures (status, sent) == SendPoint(table, m, values[index..index + RegisterCount(m.dataType)],
                                          GatewayWire(ieee), bus, old(sent))
    {
      var raw := ConvertToNumber(values[index..index + RegisterCount(m.dataType)], m.dataType, m.byteOrder, m.bitIndex, ieee);
      status := WritePointNow(m.deviceId, m.pointId, Scaled(raw, m), ieee, bus);
    }

    method WriteSingle(unit: nat, fc: nat, offset: Word, raw: Word, ieee: Ieee, bus: Bus) returns (code: nat)
      modifies this`sent
      ensures (code, sent) == SingleWrite(table, unit, fc, offset, raw, GatewayWire(ieee), bus, old(sent))
    {
      var found := FindMapping(table, unit, if fc == 5 then 1 else 3, offset);
      if found.None? || found.value.1 != 0 || !found.value.0.writable { return 2; }
      var m := found.value.0;
      var numeric := if fc == 5 then (if raw == 0xFF00 then 1.0 else 0.0) else raw as real;
      assert numeric == SingleValue(fc, raw);
      var status := WritePointNow(m.deviceId, m.pointId, Scaled(numeric, m), ieee, bus);
      code := if status == Ok then 0 else 4;
    }

    // One turn of the loop: the point that starts at values[index].
    method ForwardNext(unit: nat, address: Word, values: seq<Word>, index: nat, ieee: Ieee, bus: Bus)
      returns (code: nat, next: nat)
      requires index < |values|
      modifies this`sent
      ensures var p := PointAt(table, unit, address, values, index);
              match p
              case Rejected(c) => code == c && sent == old(sent)
              case Accepted(m, count) =>
                var (status, after) := SendPoint(table, m, values[index..index + count], GatewayWire(ieee), bus, old(sent));
                sent == after && next == index + count && code == if status == Ok then 0 else 4
    {
      next := index;
      var found := FindMapping(table, unit, 3, Offset(address, index));
      if found.None? || found.value.1 != 0 || !found.value.0.writable { return 2, next; }
      var m := found.value.0;
      var count := if m.dataType.Ascii? then m.readRegisterCount else RegisterCount(m.dataType);
      if count == 0 || count > 4 || index + count > |values| || m.dataType.Ascii? { return 3, next; }
      var status := ForwardPoint(values, index, m, ieee, bus);
      next := index + count;
      code := if status == Ok then 0 else 4;
    }

    method WriteMultipleRegisters(unit: nat, address: Word, values: seq<Word>, ieee: Ieee, bus: Bus) returns (code: nat)
      requires |values| <= 123
      modifies this`sent
      ensures (code, sent) ==
              Forward(GatewayPath(table, unit, address, values, GatewayWire(ieee), bus), values, 0, old(sent))
    {
      ghost var path := GatewayPath(table, unit, address, values, GatewayWire(ieee), bus);
      var index := 0;
      while index < |values|
        invariant 0 <= index <= |values|
        invariant Forward(path, values, index, sent) == Forward(path, values, 0, old(sent))
        decreases |values| - index
      {
        code, index := ForwardNext(unit, address, values, index, ieee, bus);
        if code != 0 { return; }
      }
      code := 0;
    }
  }

  // ---- One point ----

  lemma UnscaleUndoesScale(raw: real, m: Mapping)
    requires m.scale != 0.0
    ensures Unscaled(Scaled(raw, m), m) == raw
  {
    assert Scaled(raw, m) - m.offset == raw * m.scale;
    DivMul(raw, m.scale);
  }

  lemma DivMul(x: real, s: real)
    requires s != 0.0
    ensures x * s / s == x
  {}

  /** A non-zero scale and the offset cancel, so the words sent are the codec's round trip. */
  lemma PointRoundTrip(m: Mapping, words: seq<Word>, ieee: Ieee)
    requires |words| >= RegisterCount(m.dataType) && m.scale != 0.0 && !m.dataType.Bitfield16?
    ensures EncodeValue(Engineering(m, words, ieee), m, ieee) ==
              Encode(Decode(words, m.dataType, m.byteOrder, m.bitIndex, ieee), m.dataType, m.byteOrder, ieee)
  {
    EncodeValueOf(Decode(words, m.dataType, m.byteOrder, m.bitIndex, ieee), m, ieee);
  }

  lemma EncodeValueOf(raw: real, m: Mapping, ieee: Ieee)
    requires m.scale != 0.0 && !m.dataType.Bitfield16?
    ensures EncodeValue(Scaled(raw, m), m, ieee) == Encode(raw, m.dataType, m.byteOrder, ieee)
  {
    UnscaleUndoesScale(raw, m);
  }

  /** A zero scale is 1 on the way out and 0 on the way in: whatever was received, the
      encoding of zero is sent. */
  lemma ZeroScaleSendsZero(m: Mapping, words: seq<Word>, ieee: Ieee)
    requires |words| >= RegisterCount(m.dataType) && m.scale == 0.0 && !m.dataType.Bitfield16?
    ensures EncodeValue(Engineering(m, words, ieee), m, ieee) == Encode(0.0, m.dataType, m.byteOrder, ieee)
  {
    ZeroScaled(Decode(words, m.dataType, m.byteOrder, m.bitIndex, ieee), m);
  }

  lemma ZeroScaled(raw: real, m: Mapping)
    requires m.scale == 0.0
    ensures Scaled(raw, m) == m.offset
  {}

  // An integer point that the path re-encodes as it decodes.
  predicate Transparent(m: Mapping) {
    && IsInteger(m.dataType) && m.scale != 0.0
    && (RegisterCount(m.dataType) == 1 ==> !m.byteOrder.Swaps())
  }

  // The integer in a point's words.
  function IntegerIn(m: Mapping, words: seq<Word>): int
    requires IsInteger(m.dataType)
  {
    IntegerOf(Bits(Arranged(words, m.byteOrder)), m.dataType)
  }

  /** An integer point sends the words it received exactly when the codec gives them back. */
  lemma TransparentPointIff(m: Mapping, words: seq<Word>, ieee: Ieee)
    requires Transparent(m) && |words| == RegisterCount(m.dataType)
    ensures EncodeValue(Engineering(m, words, ieee), m, ieee) == words <==> ComesBack(IntegerIn(m, words), m.dataType, ieee)
  {
    PointRoundTrip(m, words, ieee);
    EncodeUndoesDecodeIff(words, m.dataType, m.byteOrder, m.bitIndex, ieee);
  }

  // ---- Addresses ----

  /** The southbound register is `offset` exactly when the mapping has it as its raw address
      below 40001, or as its logical number without wrapping. */
  lemma AddressForwardedIff(m: Mapping, offset: Word, fc: nat)
    requires fc == 6 || fc == 16
    ensures RegisterOffset(fc, m.registerAddress) == offset <==> OwnsRegister(m, offset)
  {}

  predicate OwnsRegister(m: Mapping, offset: Word) {
    (m.registerAddress == offset && offset < 40001) || m.registerAddress == offset + 40001
  }

  // ---- One point of a request ----

  // The southbound write that takes the words of the point at `index` to its own register.
  ghost function Expected(path: Path, address: Word, values: seq<Word>, index: nat): SouthWrite
    requires path.point(index).Accepted? && path.point(index).count <= |values| - index
  {
    var p := path.point(index);
    SouthWrite(p.mapping.line, if p.count == 1 then 6 else 16, Offset(address, index), values[index..index + p.count])
  }

  /** The mapping that a write by name reaches from `m` is a register on the same device, has
      the register `offset`, and re-encodes the words as they were. */
  ghost predicate PassesOn(table: seq<Mapping>, m: Mapping, offset: Word, words: seq<Word>, wire: Wire) {
    var named := FindByPoint(table, m.deviceId, m.pointId);
    && named.Some? && named.value.line == m.line && named.value.objectType != MODBUS_OBJECT_COIL
    && OwnsRegister(named.value, offset)
    && wire.write(named.value, wire.read(m, words)) == words
  }

  /** An accepted point goes on with its own words to its own register exactly when lookup by
      its names leads there. */
  lemma PointForwardedIff(table: seq<Mapping>, m: Mapping, offset: Word, words: seq<Word>,
                          wire: Wire, bus: Bus, sent: seq<SouthWrite>)
    requires |words| > 0
    ensures var (status, after) := SendPoint(table, m, words, wire, bus, sent);
            status == Ok ==>
              && |after| == |sent| + 1 && after[..|sent|] == sent
              && (after[|sent|] == SouthWrite(m.line, if |words| == 1 then 6 else 16, offset, words) <==>
                    PassesOn(table, m, offset, words, wire))
  {
    var named := FindByPoint(table, m.deviceId, m.pointId);
    if named.Some? {
      AddressForwardedIff(named.value, offset, 6);
      AddressForwardedIff(named.value, offset, 16);
    }
  }

  /** For an integer point that its names lead back to: exactly when it owns the register and
      its integer survives the double. */
  lemma IntegerPointPassesIff(table: seq<Mapping>, m: Mapping, offset: Word, words: seq<Word>, ieee: Ieee)
    requires Transparent(m) && |words| == RegisterCount(m.dataType)
    requires FindByPoint(table, m.deviceId, m.pointId) == Some(m)
    ensures PassesOn(table, m, offset, words, GatewayWire(ieee)) <==>
              && m.objectType != MODBUS_OBJECT_COIL && OwnsRegister(m, offset)
              && ComesBack(IntegerIn(m, words), m.dataType, ieee)
  {
    TransparentPointIff(m, words, ieee);
  }

  // ---- The whole request ----

  ghost predicate Fits(path: Path, values: seq<Word>, index: nat) {
    index < |values| && path.point(index).Accepted? && 1 <= path.point(index).count <= |values| - index
  }

  // `writes` take values[index..] on, point by point.
  ghost predicate Carries(path: Path, address: Word, values: seq<Word>, index: nat, writes: seq<SouthWrite>)
    requires index <= |values|
    decreases |values| - index
  {
    if index == |values| then writes == []
    else
      && Fits(path, values, index) && writes != []
      && writes[0] == Expected(path, address, values, index)
      && Carries(path, address, values, index + path.point(index).count, writes[1..])
  }

  function Flatten(writes: seq<SouthWrite>): seq<Word> {
    if writes == [] then [] else writes[0].words + Flatten(writes[1..])
  }

  lemma {:induction false} CarriesAll(path: Path, address: Word, values: seq<Word>, index: nat, writes: seq<SouthWrite>)
    requires index <= |values| && Carries(path, address, values, index, writes)
    ensures Flatten(writes) == values[index..]
    decreases |values| - index
  {
    if index == |values| {
    } else {
      var n := path.point(index).count;
      CarriesAll(path, address, values, index + n, writes[1..]);
      assert values[index..] == values[index..index + n] + values[index + n..];
    }
  }

  // `good` holds of each point that a request visits from `index`.
  ghost predicate AllGood(path: Path, good: nat -> bool, values: seq<Word>, index: nat)
    requires index <= |values|
    decreases |values| - index
  {
    Fits(path, values, index) ==> good(index) && AllGood(path, good, values, index + path.point(index).count)
  }

  ghost function Sent(path: Path, values: seq<Word>, index: nat, sent: seq<SouthWrite>): (Status, seq<SouthWrite>)
    requires path.point(index).Accepted? && path.point(index).count <= |values| - index
  {
    path.send(path.point(index).mapping, values[index..index + path.point(index).count], sent)
  }

  // Sending a point adds one write, the expected one exactly when `good` holds of it.
  ghost predicate SendsWhen(path: Path, good: nat -> bool, address: Word, values: seq<Word>) {
    forall index: nat, sent: seq<SouthWrite> {:trigger Sent(path, values, index, sent)} :: Fits(path, values, index) ==>
      var (status, after) := Sent(path, values, index, sent);
      status == Ok ==>
        && |after| == |sent| + 1 && after[..|sent|] == sent
        && (after[|sent|] == Expected(path, address, values, index) <==> good(index))
  }

  /** When a block write reports success it has added one write for each point, and these carry
      the received words, each point to its own register, exactly when every point is good. */
  lemma {:induction false} ForwardUnchangedIff(path: Path, good: nat -> bool, address: Word, values: seq<Word>,
                                               index: nat, sent: seq<SouthWrite>)
    returns (writes: seq<SouthWrite>)
    requires SendsWhen(path, good, address, values) && index <= |values|
    requires Forward(path, values, index, sent).0 == 0
    ensures Forward(path, values, index, sent).1 == sent + writes
    ensures Carries(path, address, values, index, writes) <==> AllGood(path, good, values, index)
    decreases |values| - index
  {
    if index == |values| {
      writes := [];
    } else {
      assert Fits(path, values, index);
      var n := path.point(index).count;
      var after := Sent(path, values, index, sent).1;
      var w := after[|sent|];
      assert after == sent + [w];
      var rest := ForwardUnchangedIff(path, good, address, values, index + n, after);
      writes := [w] + rest;
      assert writes[1..] == rest;
      assert after + rest == sent + writes;
    }
  }

  // The points of a request that the gateway passes on.
  ghost function GoodPoints(table: seq<Mapping>, unit: nat, address: Word, values: seq<Word>, wire: Wire): nat -> bool {
    (index: nat) =>
      var p := PointAt(table, unit, address, values, index);
      p.Accepted? && PassesOn(table, p.mapping, Offset(address, index), values[index..index + p.count], wire)
  }

  lemma GatewaySendsWhen(table: seq<Mapping>, unit: nat, address: Word, values: seq<Word>, wire: Wire, bus: Bus)
    ensures SendsWhen(GatewayPath(table, unit, address, values, wire, bus),
                      GoodPoints(table, unit, address, values, wire), address, values)
  {
    var path := GatewayPath(table, unit, address, values, wire, bus);
    var good := GoodPoints(table, unit, address, values, wire);
    forall index: nat, sent: seq<SouthWrite> {:trigger Sent(path, values, index, sent)} | Fits(path, values, index)
      ensures var (status, after) := Sent(path, values, index, sent);
              status == Ok ==>
                && |after| == |sent| + 1 && after[..|sent|] == sent
                && (after[|sent|] == Expected(path, address, values, index) <==> good(index))
    {
      var p := path.point(index);
      PointForwardedIff(table, p.mapping, Offset(address, index), values[index..index + p.count], wire, bus, sent);
    }
  }

  /** A successful FC16 request sends the received words, unchanged, in order, each point to
      its own register, and nothing else, exactly when the gateway passes on every point that
      the request visits. */
  lemma BlockWriteForwardedIff(table: seq<Mapping>, unit: nat, address: Word, values: seq<Word>,
                               wire: Wire, bus: Bus, sent: seq<SouthWrite>) returns (writes: seq<SouthWrite>)
    ensures var path := GatewayPath(table, unit, address, values, wire, bus);
            var (code, after) := Forward(path, values, 0, sent);
            code == 0 ==>
              && after == sent + writes
              && (Carries(path, address, values, 0, writes) <==>
                    AllGood(path, GoodPoints(table, unit, address, values, wire), values, 0))
              && (Carries(path, address, values, 0, writes) ==> Flatten(writes) == values)
  {
    var path := GatewayPath(table, unit, address, values, wire, bus);
    var good := GoodPoints(table, unit, address, values, wire);
    writes := [];
    if Forward(path, values, 0, sent).0 == 0 {
      GatewaySendsWhen(table, unit, address, values, wire, bus);
      writes := ForwardUnchangedIff(path, good, address, values, 0, sent);
      if Carries(path, address, values, 0, writes) { CarriesAll(path, address, values, 0, writes); }
    }
  }

  // An accepted integer point that owns its register, is found by its names, and fits a double.
  ghost predicate IntegerPoint(table: seq<Mapping>, m: Mapping, offset: Word, words: seq<Word>, ieee: Ieee) {
    && Transparent(m) && m.objectType != MODBUS_OBJECT_COIL && OwnsRegister(m, offset)
    && FindByPoint(table, m.deviceId, m.pointId) == Some(m)
    && ComesBack(IntegerIn(m, words), m.dataType, ieee)
  }

  lemma {:induction false} AllPointsGood(path: Path, good: nat -> bool, values: seq<Word>, index: nat)
    requires index <= |values| && forall k: nat :: Fits(path, values, k) ==> good(k)
    ensures AllGood(path, good, values, index)
    decreases |values| - index
  {
    if Fits(path, values, index) {
      AllPointsGood(path, good, values, index + path.point(index).count);
    } else {
    }
  }

  /** So a successful FC16 request to integer points sends the received words unchanged. What
      other points the unit has does not matter. */
  lemma BlockWriteForwarded(table: seq<Mapping>, unit: nat, address: Word, values: seq<Word>,
                            ieee: Ieee, bus: Bus, sent: seq<SouthWrite>) returns (writes: seq<SouthWrite>)
    requires forall index: nat :: index < |values| && PointAt(table, unit, address, values, index).Accepted? ==>
               var p := PointAt(table, unit, address, values, index);
               IntegerPoint(table, p.mapping, Offset(address, index), values[index..index + p.count], ieee)
    ensures var path := GatewayPath(table, unit, address, values, GatewayWire(ieee), bus);
            var (code, after) := Forward(path, values, 0, sent);
            code == 0 ==> after == sent + writes && Carries(path, address, values, 0, writes) && Flatten(writes) == values
  {
    var path := GatewayPath(table, unit, address, values, GatewayWire(ieee), bus);
    var good := GoodPoints(table, unit, address, values, GatewayWire(ieee));
    forall k: nat | Fits(path, values, k) ensures good(k) {
      var p := PointAt(table, unit, address, values, k);
      IntegerPointPassesIff(table, p.mapping, Offset(address, k), values[k..k + p.count], ieee);
    }
    AllPointsGood(path, good, values, 0);
    writes := BlockWriteForwardedIff(table, unit, address, values, GatewayWire(ieee), bus, sent);
  }

  // A plain 16-bit register.
  function Register(address: Word): Mapping {
    Mapping(Line(0, 0, 1), 3, 3, address, "d", "p", UInt16, ABCD, 0, 1.0, 0.0, true, 0.0, 65535.0, 1)
  }

  lemma TwinsFound(a: Mapping, b: Mapping)
    requires a == Register(10) && b == Register(20)
    ensures PointAt([a, b], 1, 20, [7], 0) == Accepted(b, 1)
    ensures FindByPoint([a, b], "d", "p") == Some(a)
  {
    assert [a, b][1..] == [b];
    assert !Covers(a, 1, 3, 20) && Covers(b, 1, 3, 20);
    assert FindCovering([b], 1, 3, 20) == Some(b);
    assert FindCovering([a, b], 1, 3, 20) == Some(b);
    assert FindMapping([a, b], 1, 3, 20) == Some((b, 0));
  }

  lemma SevenReencoded(ieee: Ieee)
    ensures EncodeValue(Engineering(Register(20), [7], ieee), Register(10), ieee) == [7]
    ensures 0.0 <= Engineering(Register(20), [7], ieee) <= 65535.0
  {
    Capacities();
    SingleWord([7], ABCD);
    DecodedInteger([7], UInt16, ABCD, 0, ieee);
    assert Decode([7], UInt16, ABCD, 0, ieee) == 7.0;
    assert Unscaled(7.0, Register(10)) == 7.0;
    Encoded16(7, UInt16, ABCD, ieee);
  }

  /** Names are not unique by construction. With two points of one name, writing the second
      reports success and changes the register of the first. */
  lemma TwinNamesMisdirect(ieee: Ieee, bus: Bus)
    requires forall sent, w :: bus(sent, w)
    ensures Forward(GatewayPath([Register(10), Register(20)], 1, 20, [7], GatewayWire(ieee), bus), [7], 0, [])
            == (0, [SouthWrite(Line(0, 0, 1), 6, 10, [7])])
  {
    var a, b := Register(10), Register(20);
    TwinsFound(a, b);
    TwinSent(a, b, ieee, bus);
    OnePoint(GatewayPath([a, b], 1, 20, [7], GatewayWire(ieee), bus), 7, b, [SouthRequest(a, [7])]);
  }

  lemma OnePoint(path: Path, word: Word, m: Mapping, after: seq<SouthWrite>)
    requires path.point(0) == Accepted(m, 1) && path.send(m, [word], []) == (Ok, after)
    ensures Forward(path, [word], 0, []) == (0, after)
  {
    assert [word][0..1] == [word];
    assert Forward(path, [word], 1, after) == (0, after);
  }

  lemma TwinSent(a: Mapping, b: Mapping, ieee: Ieee, bus: Bus)
    requires a == Register(10) && b == Register(20) && bus([], SouthRequest(a, [7]))
    ensures SendPoint([a, b], b, [7], GatewayWire(ieee), bus, []) == (Ok, [SouthRequest(a, [7])])
  {
    TwinsFound(a, b);
    SevenReencoded(ieee);
    assert [] + [SouthRequest(a, [7])] == [SouthRequest(a, [7])];
  }

  // A point adds at most one write, and only one that the bus took.
  ghost predicate AddsAccepted(bus: Bus, sent: seq<SouthWrite>, status: Status, after: seq<SouthWrite>) {
    if status == Ok then |after| == |sent| + 1 && after[..|sent|] == sent && bus(sent, after[|sent|]) else after == sent
  }

  lemma SendGrows(table: seq<Mapping>, m: Mapping, words: seq<Word>, wire: Wire, bus: Bus, sent: seq<SouthWrite>)
    ensures var (status, after) := SendPoint(table, m, words, wire, bus, sent); AddsAccepted(bus, sent, status, after)
  {}

  ghost predicate SendsAccepted(path: Path, values: seq<Word>, bus: Bus) {
    forall index: nat, sent: seq<SouthWrite> {:trigger Sent(path, values, index, sent)} :: Fits(path, values, index) ==>
      var (status, after) := Sent(path, values, index, sent); AddsAccepted(bus, sent, status, after)
  }

  lemma GatewaySendsAccepted(table: seq<Mapping>, unit: nat, address: Word, values: seq<Word>, wire: Wire, bus: Bus)
    ensures SendsAccepted(GatewayPath(table, unit, address, values, wire, bus), values, bus)
  {
    var path := GatewayPath(table, unit, address, values, wire, bus);
    forall index: nat, sent: seq<SouthWrite> {:trigger Sent(path, values, index, sent)} | Fits(path, values, index)
      ensures var (status, after) := Sent(path, values, index, sent); AddsAccepted(bus, sent, status, after)
    {
      var p := path.point(index);
      SendGrows(table, p.mapping, values[index..index + p.count], wire, bus, sent);
    }
  }

  lemma {:induction false} FailureKeepsPrefix(path: Path, values: seq<Word>, index: nat, bus: Bus, sent: seq<SouthWrite>)
    requires SendsAccepted(path, values, bus) && index <= |values|
    ensures var (code, after) := Forward(path, values, index, sent);
            && sent <= after
            && forall k :: |sent| <= k < |after| ==> bus(after[..k], after[k])
    decreases |values| - index
  {
    if Fits(path, values, index) {
      var n := path.point(index).count;
      var (status, sent') := Sent(path, values, index, sent);
      if status == Ok {
        FailureKeepsPrefix(path, values, index + n, bus, sent');
        var after := Forward(path, values, index, sent).1;
        assert after[..|sent|] == sent && after[|sent|] == sent'[|sent|];
      }
    } else {
    }
  }

  /** However a block write ends, it has only added writes that the bus took: what was sent
      before is as it was. */
  lemma BlockWriteOnlyAdds(table: seq<Mapping>, unit: nat, address: Word, values: seq<Word>,
                           wire: Wire, bus: Bus, sent: seq<SouthWrite>)
    ensures var (code, after) := Forward(GatewayPath(table, unit, address, values, wire, bus), values, 0, sent);
            && sent <= after
            && forall k :: |sent| <= k < |after| ==> bus(after[..k], after[k])
  {
    GatewaySendsAccepted(table, unit, address, values, wire, bus);
    FailureKeepsPrefix(GatewayPath(table, unit, address, values, wire, bus), values, 0, bus, sent);
  }

  // ---- What the control path holds back ----

  predicate FirstNamed(table: seq<Mapping>, i: nat, deviceId: string, pointId: string) {
    && i < |table| && table[i].deviceId == deviceId && table[i].pointId == pointId
    && forall j :: 0 <= j < i ==> table[j].deviceId != deviceId || table[j].pointId != pointId
  }

  lemma FirstNamedIs(table: seq<Mapping>, i: nat, deviceId: string, pointId: string)
    requires FirstNamed(table, i, deviceId, pointId)
    ensures FindByPoint(table, deviceId, pointId) == Some(table[i])
  {}

  /** A write by name succeeds exactly when the first mapping of the name is writable, has the
      value in its range and a type that can be encoded, and the bus takes the write. Otherwise
      nothing is sent, and the first of these that fails names the error. */
  lemma WriteOkIff(table: seq<Mapping>, i: nat, deviceId: string, pointId: string, engineering: real,
                   ieee: Ieee, bus: Bus, sent: seq<SouthWrite>)
    requires FirstNamed(table, i, deviceId, pointId)
    ensures var m := table[i];
            var w := SouthRequest(m, EncodeValue(engineering, m, ieee));
            var (status, after) := WritePoint(table, deviceId, pointId, engineering, GatewayWire(ieee), bus, sent);
            && (status == Ok <==> m.writable && m.rangeMin <= engineering <= m.rangeMax
                                  && !m.dataType.Ascii? && !m.dataType.Bitfield16? && bus(sent, w))
            && after == (if status == Ok then sent + [w] else sent)
            && (status == NotAllowed <==> !m.writable)
            && (status == InvalidArg <==> m.writable && !(m.rangeMin <= engineering <= m.rangeMax))
            && status != NotFound
            && (status == NotSupported ==> m.dataType.Ascii? || m.dataType.Bitfield16?)
            && (status == BusError ==> !bus(sent, w))
  {
    FirstNamedIs(table, i, deviceId, pointId);
  }

  /** It is not found exactly when no mapping has the name. */
  lemma NotFoundIff(table: seq<Mapping>, deviceId: string, pointId: string, engineering: real,
                    wire: Wire, bus: Bus, sent: seq<SouthWrite>)
    ensures WritePoint(table, deviceId, pointId, engineering, wire, bus, sent).0 == NotFound <==>
              forall m <- table :: m.deviceId != deviceId || m.pointId != pointId
  {
    var named := FindByPoint(table, deviceId, pointId);
    assert named.Some? ==> named.value in table;
  }

  // The write comes from a point whose named mapping is writable and has the value in its range.
  ghost predicate PermittedAt(table: seq<Mapping>, m: Mapping, words: seq<Word>, wire: Wire, w: SouthWrite) {
    var named, value := FindByPoint(table, m.deviceId, m.pointId), wire.read(m, words);
    && named.Some? && named.value.writable && named.value.rangeMin <= value <= named.value.rangeMax
    && w == SouthRequest(named.value, wire.write(named.value, value))
  }

  ghost predicate Permitted(table: seq<Mapping>, path: Path, values: seq<Word>, wire: Wire, w: SouthWrite) {
    exists index: nat :: Fits(path, values, index)
      && PermittedAt(table, path.point(index).mapping, values[index..index + path.point(index).count], wire, w)
  }

  lemma SendsPermitted(table: seq<Mapping>, m: Mapping, words: seq<Word>, wire: Wire, bus: Bus, sent: seq<SouthWrite>)
    ensures var (status, after) := SendPoint(table, m, words, wire, bus, sent);
            after == sent || (after[..|after| - 1] == sent && PermittedAt(table, m, words, wire, after[|after| - 1]))
  {}

  // Each write added is one that `ok` accepts.
  ghost predicate AddsOnly(ok: SouthWrite -> bool, sent: seq<SouthWrite>, after: seq<SouthWrite>) {
    sent <= after && forall k :: |sent| <= k < |after| ==> ok(after[k])
  }

  ghost predicate SendsOnly(path: Path, values: seq<Word>, ok: SouthWrite -> bool) {
    forall index: nat, sent: seq<SouthWrite> {:trigger Sent(path, values, index, sent)} :: Fits(path, values, index) ==>
      AddsOnly(ok, sent, Sent(path, values, index, sent).1)
  }

  lemma {:induction false} ForwardAddsOnly(path: Path, values: seq<Word>, ok: SouthWrite -> bool, index: nat, sent: seq<SouthWrite>)
    requires SendsOnly(path, values, ok) && index <= |values|
    ensures AddsOnly(ok, sent, Forward(path, values, index, sent).1)
    decreases |values| - index
  {
    if Fits(path, values, index) {
      var (status, sent') := Sent(path, values, index, sent);
      if status == Ok { ForwardAddsOnly(path, values, ok, index + path.point(index).count, sent'); }
    } else {
    }
  }

  /** However a block write ends, each write that it has added comes from a point of the request
      whose named mapping is writable and has the point's value in its range. */
  lemma BlockWriteOnlyPermitted(table: seq<Mapping>, unit: nat, address: Word, values: seq<Word>, wire: Wire, bus: Bus,
                                sent: seq<SouthWrite>)
    ensures var path := GatewayPath(table, unit, address, values, wire, bus);
            AddsOnly(w => Permitted(table, path, values, wire, w), sent, Forward(path, values, 0, sent).1)
  {
    var path := GatewayPath(table, unit, address, values, wire, bus);
    var ok := (w: SouthWrite) => Permitted(table, path, values, wire, w);
    forall index: nat, sent: seq<SouthWrite> {:trigger Sent(path, values, index, sent)} | Fits(path, values, index)
      ensures AddsOnly(ok, sent, Sent(path, values, index, sent).1)
    {
      var p := path.point(index);
      SendsPermitted(table, p.mapping, values[index..index + p.count], wire, bus, sent);
    }
    ForwardAddsOnly(path, values, ok, 0, sent);
  }
}
