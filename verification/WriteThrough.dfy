/** A block write from end to end: the client of main/modbus/modbus_access.c builds the PDU, the
    server of main/modbus/modbus_tcp_server.c parses it, and the control path sends it on. */
module WriteThrough {
  import opened Wrappers
  import opened ModbusCodec
  import opened ModbusPdu
  import ModbusServer
  import opened ControlForward

  // The server hands block writes of `unit` to the control path, whose log is `sent`.
  ghost predicate ServesBlocks(control: ModbusServer.Control, table: seq<Mapping>, unit: nat, wire: Wire, bus: Bus, sent: seq<SouthWrite>) {
    forall address: Word, values: seq<Word> ::
      control([], ModbusServer.BlockWrite(address, values))
      == Forward(GatewayPath(table, unit, address, values, wire, bus), values, 0, sent).0
  }

  /** When the client of an FC16 write sees success, the southbound log has grown by writes that
      carry exactly the words it asked to write, each point to its own register, if and only if
      the gateway passes on every point of the request. */
  lemma ClientWriteArrivesIff(address: Word, values: seq<Word>, points: ModbusServer.Points, control: ModbusServer.Control,
                              table: seq<Mapping>, unit: nat, wire: Wire, bus: Bus, sent: seq<SouthWrite>)
    returns (writes: seq<SouthWrite>)
    requires WriteRequest(16, address, values).Some? && ServesBlocks(control, table, unit, wire, bus, sent)
    ensures var response := ModbusServer.Respond(WriteRequest(16, address, values).value, points, control).0;
            var path := GatewayPath(table, unit, address, values, wire, bus);
            ModbusServer.WriteAccepted(16, response) ==>
              && Forward(path, values, 0, sent) == (0, sent + writes)
              && (Carries(path, address, values, 0, writes) <==>
                    AllGood(path, GoodPoints(table, unit, address, values, wire), values, 0))
              && (Carries(path, address, values, 0, writes) ==> Flatten(writes) == values)
  {
    ModbusServer.WriteExchange(16, address, values, points, control);
    writes := BlockWriteForwardedIff(table, unit, address, values, wire, bus, sent);
  }
}
