/** Which register a point is: how the northbound server finds it (main/modbus/modbus_tcp_server.c),
    where polls read it and where writes send it (modbus_register_offset). */
module PointAddresses {
  import opened Wrappers
  import opened ModbusCodec
  import opened ControlForward

  // ---- Northbound ----

  /** The registers that a mapping stands for: a text has as many as it reads, a number 1, 2 or 4. */
  function Registers(m: Mapping): nat {
    match m.dataType
    case Ascii => if m.readRegisterCount > 0 then m.readRegisterCount else 1
    case Float32 | Int32 | UInt32 => 2
    case Float64 | Int64 | UInt64 => 4
    case _ => 1
  }

  /** The mapping of this unit and function code has the register. */
  predicate Contains(m: Mapping, unit: nat, fc: nat, address: nat) {
    m.line.slave == unit && m.functionCode == fc && m.registerAddress <= address < m.registerAddress + Registers(m)
  }

  /** Where the logical numbers of each table begin. */
  function Base(fc: nat): nat { if fc == 1 then 1 else if fc == 2 then 10001 else if fc == 3 then 40001 else if fc == 4 then 30001 else 0 }

  lemma CoversIs(m: Mapping, unit: nat, fc: nat, address: Word)
    ensures Covers(m, unit, fc, address) <==> Contains(m, unit, fc, address)
  {}

  /** A northbound offset is looked up as it is, and if no mapping has that register, as a logical
      number; the word found is the register's distance from the start of the mapping. */
  lemma FoundIff(table: seq<Mapping>, unit: nat, fc: nat, offset: Word)
    requires 1 <= fc <= 4
    ensures var logical := (offset + Base(fc)) % 0x1_0000;
            var direct := exists m <- table :: Contains(m, unit, fc, offset);
            var r := FindMapping(table, unit, fc, offset);
            && (r.None? <==> forall m <- table :: !Contains(m, unit, fc, offset) && !Contains(m, unit, fc, logical))
            && (r.Some? ==>
                  && r.value.0 in table && Contains(r.value.0, unit, fc, if direct then offset else logical)
                  && r.value.0.registerAddress + r.value.1 == if direct then offset else logical)
  {
    var logical := (offset + Base(fc)) % 0x1_0000;
    forall m <- table
      ensures Covers(m, unit, fc, offset) <==> Contains(m, unit, fc, offset)
      ensures Covers(m, unit, fc, logical) <==> Contains(m, unit, fc, logical)
    {
      CoversIs(m, unit, fc, offset);
      CoversIs(m, unit, fc, logical);
    }
    assert Logical(fc, offset) == logical;
  }

  /** How a block write rates the point at an index. */
  lemma PointCodes(table: seq<Mapping>, unit: nat, address: Word, values: seq<Word>, index: nat)
    ensures var r, p := FindMapping(table, unit, 3, (address + index) % 0x1_0000), PointAt(table, unit, address, values, index);
            if r.None? || r.value.1 != 0 || !r.value.0.writable then p == Rejected(2)
            else if r.value.0.dataType.Ascii? || index + Registers(r.value.0) > |values| then p == Rejected(3)
            else p == Accepted(r.value.0, Registers(r.value.0))
  {}

  /** The code of a block write is that of the first point rejected, 4 if a point before it cannot
      be sent, and 0 if there is neither. */
  lemma {:induction false} BlockCode(path: Path, values: seq<Word>, index: nat, sent: seq<SouthWrite>, stop: nat, rejected: bool)
    requires index <= |values| && Reaches(path, values, index, sent, stop)
    requires rejected <==> path.point(stop).Rejected?
    requires !rejected ==> Fits(path, values, stop) && Sent(path, values, stop, LogAt(path, values, index, sent, stop)).0 != Ok
    ensures Forward(path, values, index, sent).0 == if rejected then path.point(stop).code else 4
    decreases |values| - index
  {
    if index < stop {
      BlockCode(path, values, index + path.point(index).count, Sent(path, values, index, sent).1, stop, rejected);
    }
  }

  // Every point from `index` up to `stop` is accepted and sent.
  ghost predicate Reaches(path: Path, values: seq<Word>, index: nat, sent: seq<SouthWrite>, stop: nat)
    requires index <= |values|
    decreases |values| - index
  {
    index <= stop < |values| &&
    (index < stop ==>
       && Fits(path, values, index) && Sent(path, values, index, sent).0 == Ok
       && Reaches(path, values, index + path.point(index).count, Sent(path, values, index, sent).1, stop))
  }

  // The southbound log when `stop` is reached.
  ghost function LogAt(path: Path, values: seq<Word>, index: nat, sent: seq<SouthWrite>, stop: nat): seq<SouthWrite>
    requires index <= |values| && Reaches(path, values, index, sent, stop)
    decreases |values| - index
  {
    if index == stop then sent
    else LogAt(path, values, index + path.point(index).count, Sent(path, values, index, sent).1, stop)
  }

  // ---- Southbound ----

  /** modbus_register_offset for the read function codes. */
  function PolledRegister(fc: nat, configured: Word): Word {
    if fc == 1 && 1 <= configured < 10001 then configured - 1
    else if fc == 2 && 10001 <= configured < 20001 then configured - 10001
    else if fc == 3 && configured >= 40001 then configured - 40001
    else if fc == 4 && configured >= 30001 then configured - 30001
    else configured
  }

  /** A southbound write goes to the mapping's own device: one coil by function code 5 and several by
      15, one register by 6 and several by 16. */
  lemma SouthRequestIs(m: Mapping, words: seq<Word>)
    ensures var w := SouthRequest(m, words);
            && w.line == m.line && w.words == words
            && w.functionCode == (if m.objectType == 1 then (if |words| == 1 then 5 else 15) else if |words| == 1 then 6 else 16)
            && w.address == (if m.objectType != 1 && m.registerAddress >= 40001 then m.registerAddress - 40001 else m.registerAddress)
  {}

  /** A holding register is written where it is polled. A coil is exactly when its address is 0 or
      above 10000: in between the write goes to the coil after the one that is polled. */
  lemma WrittenWherePolledIff(m: Mapping, words: seq<Word>)
    requires m.functionCode == 1 || m.functionCode == 3
    requires m.objectType == m.functionCode
    ensures var w := SouthRequest(m, words);
            && (w.address == PolledRegister(m.functionCode, m.registerAddress) <==>
                  !(m.functionCode == 1 && 1 <= m.registerAddress <= 10000))
            && (m.functionCode == 1 && 1 <= m.registerAddress <= 10000 ==>
                  w.address == PolledRegister(1, m.registerAddress) + 1)
  {}

  // ---- Single writes ----

  /** A single write fails with exception 2 exactly when no writable point starts at the offset, and
      else with 4 exactly when the control path refuses it; it then sends nothing. */
  lemma SingleWriteCodes(table: seq<Mapping>, unit: nat, fc: nat, offset: Word, raw: Word, wire: Wire, bus: Bus, sent: seq<SouthWrite>)
    ensures var found := FindMapping(table, unit, if fc == 5 then 1 else 3, offset);
            var (code, after) := SingleWrite(table, unit, fc, offset, raw, wire, bus, sent);
            && (code == 2 <==> found.None? || found.value.1 != 0 || !found.value.0.writable)
            && (code != 2 ==>
                  var m := found.value.0;
                  var value := Scaled(if fc != 5 then raw as real else if raw == 0xFF00 then 1.0 else 0.0, m);
                  code == 0 <==> WritePoint(table, m.deviceId, m.pointId, value, wire, bus, sent).0 == Ok)
            && code in {0, 2, 4} && (code != 0 ==> after == sent)
  {}

  /** A single-register write to a 16-bit point found by its own name, with a scale that is not zero,
      sends the word as it came, whatever the byte order. */
  lemma SingleRegisterPasses(table: seq<Mapping>, unit: nat, offset: Word, raw: Word, m: Mapping, ieee: Ieee, bus: Bus, sent: seq<SouthWrite>)
    requires FindMapping(table, unit, 3, offset) == Some((m, 0)) && FindByPoint(table, m.deviceId, m.pointId) == Some(m)
    requires (m.dataType.Int16? || m.dataType.UInt16?) && m.scale != 0.0
    ensures var (code, after) := SingleWrite(table, unit, 6, offset, raw, GatewayWire(ieee), bus, sent);
            code == 0 ==> after == sent + [SouthRequest(m, [raw])]
  {
    EncodeValueOf(raw as real, m, ieee);
    Encoded16(raw, m.dataType, m.byteOrder, ieee);
  }

  /** But one to a BCD point sends the digits of the number, which is the word only up to 9. */
  lemma SingleBcdIff(table: seq<Mapping>, unit: nat, offset: Word, raw: Word, m: Mapping, ieee: Ieee, bus: Bus, sent: seq<SouthWrite>)
    requires FindMapping(table, unit, 3, offset) == Some((m, 0)) && FindByPoint(table, m.deviceId, m.pointId) == Some(m)
    requires m.dataType.Bcd16? && m.scale != 0.0 && raw <= 9999
    requires SingleWrite(table, unit, 6, offset, raw, GatewayWire(ieee), bus, sent).0 == 0
    ensures SingleWrite(table, unit, 6, offset, raw, GatewayWire(ieee), bus, sent).1 == sent + [SouthRequest(m, [raw])] <==> raw <= 9
  {
    EncodeValueOf(raw as real, m, ieee);
    EncodedBcd(raw, m.byteOrder, ieee);
    DigitsExceed(raw);
    var a, b := sent + [SouthRequest(m, [BcdDigits(raw)])], sent + [SouthRequest(m, [raw])];
    assert a[|sent|] == SouthRequest(m, [BcdDigits(raw)]) && b[|sent|] == SouthRequest(m, [raw]);
    assert a == b ==> SouthRequest(m, [BcdDigits(raw)]).words[0] == SouthRequest(m, [raw]).words[0];
  }

  lemma DigitsExceed(n: nat)
    requires n <= 9999
    ensures BcdDigits(n) == n <==> n <= 9
  {
    DecimalValue(n);
  }
}
