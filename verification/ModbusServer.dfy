/** The northbound server's request handler (main/modbus/modbus_tcp_server.c) against the
    client of main/modbus/modbus_access.c: each undoes what the other builds. */
module ModbusServer {
  import opened Wrappers
  import opened ModbusCodec
  import opened ModbusPdu

  /** A write the server hands to the control path. */
  datatype Write =
    | CoilWrite(address: Word, on: bool)
    | RegisterWrite(address: Word, word: Word)
    | BlockWrite(address: Word, words: seq<Word>)

  /** The word of a point, or None when no valid state backs it: (function code, address). */
  type Points = (Byte, Word) -> Option<Word>

  /** The control path's verdict on a write, given the writes done before: 0 or an exception code. */
  type Control = (seq<Write>, Write) -> Byte

  function Wrap(address: Word, i: nat): Word { (address + i) % 0x1_0000 }

  function ReadPoints(points: Points, fc: Byte, address: Word, n: nat): (r: Option<seq<Word>>)
    ensures r.Some? ==> |r.value| == n
  {
    if n == 0 then Some([])
    else
      match ReadPoints(points, fc, address, n - 1)
      case None => None
      case Some(ws) =>
        match points(fc, Wrap(address, n - 1))
        case None => None
        case Some(w) => Some(ws + [w])
  }

  function ServeCoils(address: Word, coils: seq<bool>, i: nat, control: Control, done: seq<Write>): (Byte, seq<Write>)
    requires i <= |coils|
    decreases |coils| - i
  {
    if i == |coils| then (0, done)
    else
      var w := CoilWrite(Wrap(address, i), coils[i]);
      var code := control(done, w);
      if code != 0 then (code, done) else ServeCoils(address, coils, i + 1, control, done + [w])
  }

  function Exception(fc: Byte, code: Byte): seq<Byte> { [if fc >= 128 then fc else fc + 128, code] }

  function ReadLimit(fc: Byte): nat { if fc <= 2 then 2000 else 125 }

  function WriteLimit(fc: Byte): nat { if fc == 15 then 1968 else 123 }

  function Quantity(request: seq<Byte>): Word
    requires |request| >= 5
  {
    Join(request[3], request[4])
  }

  // The declared byte count and the length agree with the quantity.
  predicate WellFormedBlock(request: seq<Byte>)
    requires |request| >= 5 && (request[0] == 15 || request[0] == 16)
  {
    && |request| >= 6
    && 0 < Quantity(request) <= WriteLimit(request[0])
    && request[5] == (if request[0] == 15 then ByteCount(Quantity(request)) else 2 * Quantity(request))
    && |request| == request[5] + 6
  }

  // The response once `values` have been stored, of `quantity` asked for.
  function WordsSoFar(fc: Byte, quantity: nat, values: seq<Word>): seq<Byte>
    requires quantity <= 125
  {
    [fc, 2 * quantity] + WordBytes(values)
  }

  function RespondRead(fc: Byte, address: Word, quantity: Word, points: Points): seq<Byte>
    requires 1 <= fc <= 4
  {
    if quantity == 0 || quantity > ReadLimit(fc) then Exception(fc, 3)
    else
      match ReadPoints(points, fc, address, quantity)
      case None => Exception(fc, 2)
      case Some(ws) =>
        if fc <= 2 then [fc, ByteCount(quantity)] + Pack(ws) else WordsSoFar(fc, quantity, ws)
  }

  function RespondBlock(request: seq<Byte>, address: Word, control: Control): (seq<Byte>, seq<Write>)
    requires |request| >= 5 && (request[0] == 15 || request[0] == 16)
  {
    if !WellFormedBlock(request) then (Exception(request[0], 3), [])
    else if request[0] == 15 then
      var (code, done) := ServeCoils(address, CoilsOf(request[6..], Quantity(request)), 0, control, []);
      (if code != 0 then Exception(15, code) else request[..5], done)
    else
      var w := BlockWrite(address, WordsOf(request[6..], Quantity(request)));
      var code := control([], w);
      if code != 0 then (Exception(16, code), []) else (request[..5], [w])
  }

  /** The response to a request and the writes it performed. */
  function Respond(request: seq<Byte>, points: Points, control: Control): (seq<Byte>, seq<Write>) {
    if |request| < 5 then (Exception(0, 3), [])
    else
      var fc, address, quantity := request[0], Join(request[1], request[2]), Quantity(request);
      if 1 <= fc <= 4 then (RespondRead(fc, address, quantity, points), [])
      else if (fc == 5 || fc == 6) && |request| == 5 then
        var w := if fc == 5 then CoilWrite(address, quantity == 0xFF00) else RegisterWrite(address, quantity);
        var code := control([], w);
        if code != 0 then (Exception(fc, code), []) else (request[..5], [w])
      else if fc == 15 || fc == 16 then RespondBlock(request, address, control)
      else (Exception(fc, 1), [])
  }

  // ---- The handler ----

  method ExceptionResponse(fc: Byte, code: Byte, response: array<Byte>) returns (size: nat)
    requires response.Length >= MAX_PDU
    modifies response
    ensures size == 2 && response[..size] == Exception(fc, code)
  {
    response[0] := if fc >= 128 then fc else fc + 128;
    response[1] := code;
    size := 2;
  }

  // From a prefix of the points read, to the whole request failing.
  lemma {:induction false} ReadPointsStops(points: Points, fc: Byte, address: Word, i: nat, n: nat)
    requires i <= n && ReadPoints(points, fc, address, i).None?
    ensures ReadPoints(points, fc, address, n).None?
    decreases n
  {
    if i < n { ReadPointsStops(points, fc, address, i, n - 1); }
  }

  lemma PackToGrow(values: seq<Word>, w: Word, size: nat)
    requires |values| / 8 < size
    ensures var i := |values|;
            PackTo(values + [w], size) ==
              if w != 0 then PackTo(values, size)[i / 8 := SetBit(PackTo(values, size)[i / 8], i % 8)]
              else PackTo(values, size)
  {
    var grown := values + [w];
    assert grown[..|values|] == values && grown[..|values| + 1] == grown;
    PackToStep(grown, |values|, size);
  }

  method ReadBits(fc: Byte, address: Word, quantity: nat, points: Points, response: array<Byte>) returns (size: nat)
    requires response.Length >= MAX_PDU && 0 < quantity <= 2000
    modifies response
    ensures size <= MAX_PDU
    ensures response[..size] ==
              match ReadPoints(points, fc, address, quantity)
              case None => Exception(fc, 2)
              case Some(ws) => [fc, ByteCount(quantity)] + Pack(ws)
  {
    var count := ByteCount(quantity);
    ClearBytes(response, 2, count);
    response[0], response[1] := fc, count;
    ghost var values: seq<Word> := [];
    ghost var tail := response[2 + count..];
    assert PackTo([], count) == seq(count, _ => 0);
    assert response[..] == [fc, count] + PackTo([], count) + tail;
    var i := 0;
    while i < quantity
      invariant 0 <= i <= quantity
      invariant ReadPoints(points, fc, address, i) == Some(values)
      invariant response[..] == [fc, count] + PackTo(values, count) + tail
    {
      var value := points(fc, Wrap(address, i));
      if value.None? {
        ReadPointsStops(points, fc, address, i + 1, quantity);
        size := ExceptionResponse(fc, 2, response);
        return;
      }
      ByteIndex(i, quantity);
      PackToGrow(values, value.value, count);
      if value.value != 0 { OrBit(response, 2, i, [fc, count], PackTo(values, count), tail); }
      values := values + [value.value];
      i := i + 1;
    }
    size := 2 + count;
    assert response[..size] == [fc, count] + Pack(values);
  }

  lemma WordsSoFarGrow(fc: Byte, quantity: nat, values: seq<Word>, w: Word)
    requires quantity <= 125
    ensures WordsSoFar(fc, quantity, values + [w]) == WordsSoFar(fc, quantity, values) + [Hi(w), Lo(w)]
  {
    WordBytesAppend(values, w);
  }

  // The next word of a register response.
  method StoreNext(w: Word, response: array<Byte>, i: nat, ghost fc: Byte, ghost quantity: nat, ghost values: seq<Word>)
    requires quantity <= 125 && i < quantity && response.Length >= MAX_PDU
    requires response[..2 + 2 * i] == WordsSoFar(fc, quantity, values)
    modifies response
    ensures response[..2 + 2 * (i + 1)] == WordsSoFar(fc, quantity, values + [w])
  {
    WordsSoFarGrow(fc, quantity, values, w);
    StoreWord(w, response, 2 + 2 * i);
  }

  method ReadWords(fc: Byte, address: Word, quantity: nat, points: Points, response: array<Byte>) returns (size: nat)
    requires response.Length >= MAX_PDU && 0 < quantity <= 125
    modifies response
    ensures size <= MAX_PDU
    ensures response[..size] ==
              match ReadPoints(points, fc, address, quantity)
              case None => Exception(fc, 2)
              case Some(ws) => WordsSoFar(fc, quantity, ws)
  {
    response[0], response[1] := fc, 2 * quantity;
    ghost var values: seq<Word> := [];
    var i := 0;
    while i < quantity
      invariant 0 <= i <= quantity
      invariant ReadPoints(points, fc, address, i) == Some(values)
      invariant response[..2 + 2 * i] == WordsSoFar(fc, quantity, values)
    {
      var value := points(fc, Wrap(address, i));
      if value.None? {
        ReadPointsStops(points, fc, address, i + 1, quantity);
        size := ExceptionResponse(fc, 2, response);
        return;
      }
      StoreNext(value.value, response, i, fc, quantity, values);
      values := values + [value.value];
      i := i + 1;
    }
    size := 2 + quantity * 2;
  }

  method WriteMultipleCoils(address: Word, quantity: nat, packed: seq<Byte>, control: Control)
    returns (code: Byte, done: seq<Write>)
    requires ByteCount(quantity) <= |packed|
    ensures (code, done) == ServeCoils(address, CoilsOf(packed, quantity), 0, control, [])
  {
    done := [];
    var i := 0;
    while i < quantity
      invariant 0 <= i <= quantity
      invariant ServeCoils(address, CoilsOf(packed, quantity), i, control, done) ==
                ServeCoils(address, CoilsOf(packed, quantity), 0, control, [])
    {
      var raw := if TestBit(packed[i / 8], i % 8) then 0xFF00 else 0;
      var w := CoilWrite(Wrap(address, i), raw == 0xFF00);
      code := control(done, w);
      if code != 0 { return; }
      done := done + [w];
      i := i + 1;
    }
    code := 0;
  }

  method CollectWords(bytes: seq<Byte>, quantity: nat) returns (words: seq<Word>)
    requires 2 * quantity <= |bytes|
    ensures words == WordsOf(bytes, quantity)
  {
    words := [];
    var i := 0;
    while i < quantity
      invariant 0 <= i <= quantity
      invariant words == WordsOf(bytes, quantity)[..i]
    {
      words := words + [Join(bytes[i * 2], bytes[i * 2 + 1])];
      i := i + 1;
    }
  }

  method Echo(request: seq<Byte>, response: array<Byte>) returns (size: nat)
    requires |request| >= 5 && response.Length >= MAX_PDU
    modifies response
    ensures size == 5 && response[..size] == request[..5]
  {
    response[0], response[1], response[2], response[3], response[4] :=
      request[0], request[1], request[2], request[3], request[4];
    size := 5;
  }

  method ProcessPdu(request: seq<Byte>, points: Points, control: Control, response: array<Byte>)
    returns (size: nat, done: seq<Write>)
    requires response.Length >= MAX_PDU
    modifies response
    ensures 2 <= size <= MAX_PDU
    ensures (response[..size], done) == Respond(request, points, control)
  {
    done := [];
    if |request| < 5 {
      size := ExceptionResponse(0, 3, response);
      return;
    }
    var fc, address, quantity := request[0], Join(request[1], request[2]), Join(request[3], request[4]);
    if fc >= 1 && fc <= 4 {
      var limit := if fc <= 2 then 2000 else 125;
      if quantity == 0 || quantity > limit {
        size := ExceptionResponse(fc, 3, response);
      } else if fc <= 2 {
        size := ReadBits(fc, address, quantity, points, response);
      } else {
        size := ReadWords(fc, address, quantity, points, response);
      }
      ResponseLength(request, points, control);
      return;
    }
    var code: Byte := 0;
    if (fc == 5 || fc == 6) && |request| == 5 {
      var w := if fc == 5 then CoilWrite(address, quantity == 0xFF00) else RegisterWrite(address, quantity);
      code := control([], w);
      if code == 0 { done := [w]; }
    } else if fc == 15 || fc == 16 {
      var limit := if fc == 15 then 1968 else 123;
      if |request| < 6 || quantity == 0 || quantity > limit {
        code := 3;
      } else {
        var byteCount := request[5];
        var expected := if fc == 15 then (quantity + 7) / 8 else quantity * 2;
        if byteCount != expected || |request| != byteCount + 6 {
          code := 3;
        } else if fc == 15 {
          code, done := WriteMultipleCoils(address, quantity, request[6..], control);
        } else {
          var words := CollectWords(request[6..], quantity);
          var w := BlockWrite(address, words);
          code := control([], w);
          if code == 0 { done := [w]; }
        }
      }
    } else {
      code := 1;
    }
    if code != 0 {
      size := ExceptionResponse(fc, code, response);
    } else {
      size := Echo(request, response);
    }
  }

  // ---- The client's side of an exchange ----

  function BitWords(coils: seq<bool>): seq<Word> {
    seq(|coils|, i requires 0 <= i < |coils| => if coils[i] then 1 else 0)
  }

  function BitsResult(count: nat, response: seq<Byte>): Option<seq<Word>> {
    if |response| != 2 + ByteCount(count) || response[1] != ByteCount(count) then None
    else Some(BitWords(CoilsOf(response[2..], count)))
  }

  function WordsResult(count: nat, response: seq<Byte>): Option<seq<Word>> {
    if |response| != 2 + count * 2 || response[1] != count * 2 then None
    else Some(WordsOf(response[2..], count))
  }

  /** modbus_tcp_read's acceptance of a response PDU. */
  function ReadResult(fc: Byte, count: nat, response: seq<Byte>): Option<seq<Word>> {
    if |response| < 1 || response[0] >= 128 || response[0] != fc then None
    else if fc == 1 || fc == 2 then BitsResult(count, response)
    else WordsResult(count, response)
  }

  /** modbus_tcp_write's acceptance: its buffer holds 16 bytes. */
  predicate WriteAccepted(fc: Byte, response: seq<Byte>) {
    1 <= |response| <= 16 && response[0] < 128 && |response| == 5 && response[0] == fc
  }

  /** The client takes a read response exactly when it repeats the function code and has the bytes
      that its count announces, as many as were asked for. */
  lemma ReadAcceptedIff(fc: Byte, count: nat, response: seq<Byte>)
    requires 1 <= fc <= 4
    ensures var bytes := if fc <= 2 then (count + 7) / 8 else 2 * count;
            ReadResult(fc, count, response).Some? <==>
              |response| == 2 + bytes && response[0] == fc && response[1] == bytes
  {}

  /** And a write response exactly when it is five bytes under the function code. */
  lemma WriteAcceptedIff(fc: Byte, response: seq<Byte>)
    requires fc in {5, 6, 15, 16}
    ensures WriteAccepted(fc, response) <==> |response| == 5 && response[0] == fc
  {}

  // ---- Main results ----

  /** Every response fits a PDU; an exception is two bytes with the high bit set. */
  lemma ResponseLength(request: seq<Byte>, points: Points, control: Control)
    ensures var response := Respond(request, points, control).0;
            && 2 <= |response| <= 253
            && (|response| == 2 <==> response[0] >= 128)
  {}

  // Coils read back as 0 or 1.
  function Normalised(fc: Byte, ws: seq<Word>): seq<Word> {
    if fc <= 2 then BitWords(AsCoils(ws)) else ws
  }

  /** A read gives the client exactly the server's points, and an error exactly when the
      quantity is illegal or some point is unreadable. */
  lemma ReadExchange(fc: Byte, address: Word, count: Word, points: Points, control: Control)
    requires 1 <= fc <= 4
    ensures var (response, done) := Respond(ReadRequest(fc, address, count), points, control);
            && done == []
            && ReadResult(fc, count, response) ==
                 if count == 0 || count > (if fc <= 2 then 2000 else 125) then None
                 else match ReadPoints(points, fc, address, count)
                      case None => None
                      case Some(ws) => Some(Normalised(fc, ws))
  {
    if count == 0 || count > ReadLimit(fc) {
      IllegalReadRefused(fc, address, count, points, control);
      return;
    }
    ReadRequestParsed(fc, address, count, points, control);
    var response := RespondRead(fc, address, count, points);
    match ReadPoints(points, fc, address, count) {
      case None =>
        assert response == Exception(fc, 2);
      case Some(ws) =>
        if fc <= 2 {
          BitsReadBack(fc, ws, response);
        } else {
          WordsReadBack(fc, ws, response);
        }
    }
  }

  lemma BitsReadBack(fc: Byte, ws: seq<Word>, response: seq<Byte>)
    requires 1 <= fc <= 2 && ByteCount(|ws|) < 256
    requires response == [fc, ByteCount(|ws|)] + Pack(ws)
    ensures ReadResult(fc, |ws|, response) == Some(Normalised(fc, ws))
  {
    assert response[2..] == Pack(ws);
    CoilsRoundTrip(ws);
  }

  lemma WordsAccepted(ws: seq<Word>, response: seq<Byte>)
    requires |ws| < 128
    requires |response| == 2 + 2 * |ws| && response[1] == 2 * |ws|
    requires response[2..] == WordBytes(ws)
    ensures WordsResult(|ws|, response) == Some(ws)
  {
    WordsRoundTrip(ws);
  }

  lemma WordsReadBack(fc: Byte, ws: seq<Word>, response: seq<Byte>)
    requires 3 <= fc <= 4 && |ws| < 128
    requires response == [fc, 2 * |ws|] + WordBytes(ws)
    ensures response[0] == fc && WordsResult(|ws|, response) == Some(ws)
  {
    var body := WordBytes(ws);
    assert response[2..] == body;
    WordsAccepted(ws, response);
  }

  // What a read request says is what the server reads from it.
  lemma ReadRequestParsed(fc: Byte, address: Word, count: Word, points: Points, control: Control)
    requires 1 <= fc <= 4
    ensures Respond(ReadRequest(fc, address, count), points, control) == (RespondRead(fc, address, count, points), [])
  {
    JoinSplit(address);
    JoinSplit(count);
    var request := ReadRequest(fc, address, count);
    assert Join(request[1], request[2]) == address && Quantity(request) == count;
  }

  // Illegal quantities are refused with exception 3 whatever the points are.
  lemma IllegalReadRefused(fc: Byte, address: Word, count: Word, points: Points, control: Control)
    requires 1 <= fc <= 4 && (count == 0 || count > ReadLimit(fc))
    ensures Respond(ReadRequest(fc, address, count), points, control) == ([fc + 128, 3], [])
  {
    ReadRequestParsed(fc, address, count, points, control);
  }

  lemma {:induction false} MissingPoint(points: Points, fc: Byte, address: Word, n: nat)
    ensures ReadPoints(points, fc, address, n).None? <==> exists i :: 0 <= i < n && points(fc, Wrap(address, i)).None?
  {
    if n > 0 { MissingPoint(points, fc, address, n - 1); }
  }

  /** A read of a legal quantity is answered with exception 2 exactly when one of its points
      cannot be read. */
  lemma ReadRefusedIff(fc: Byte, address: Word, count: Word, points: Points, control: Control)
    requires 1 <= fc <= 4 && 0 < count <= if fc <= 2 then 2000 else 125
    ensures Respond(ReadRequest(fc, address, count), points, control) == ([fc + 128, 2], []) <==>
              exists i :: 0 <= i < count && points(fc, Wrap(address, i)).None?
  {
    ReadRequestParsed(fc, address, count, points, control);
    MissingPoint(points, fc, address, count);
  }

  /** Requests the server does not know are answered with exception 1, short or malformed ones and
      illegal quantities with exception 3, and neither writes anything. */
  lemma RefusedUnwritten(request: seq<Byte>, points: Points, control: Control)
    ensures |request| < 5 ==> Respond(request, points, control) == ([128, 3], [])
    ensures |request| >= 5 ==>
              var fc: int, hi: int, lo: int := request[0], request[3], request[4];
              var quantity, high := 256 * hi + lo, if fc < 128 then fc + 128 else fc;
              && (fc !in {1, 2, 3, 4, 5, 6, 15, 16} || (fc in {5, 6} && |request| != 5) ==>
                    Respond(request, points, control) == ([high, 1], []))
              && (fc in {1, 2, 3, 4} && (quantity == 0 || quantity > if fc <= 2 then 2000 else 125) ==>
                    Respond(request, points, control) == ([high, 3], []))
              && (fc in {15, 16}
                  && (|request| == 5 || quantity == 0 || quantity > (if fc == 15 then 1968 else 123)
                      || request[5] != (if fc == 15 then (quantity + 7) / 8 else 2 * quantity)
                      || |request| != request[5] + 6) ==>
                    Respond(request, points, control) == ([high, 3], []))
  {}

  /** A single write of five bytes asks for one coil, on for FF00 only, or one register, and is echoed
      when the control path takes it. */
  lemma SingleServed(request: seq<Byte>, points: Points, control: Control)
    requires |request| == 5 && request[0] in {5, 6}
    ensures var address, value := Join(request[1], request[2]), Join(request[3], request[4]);
            var w := if request[0] == 6 then RegisterWrite(address, value)
                     else CoilWrite(address, request[3] == 255 && request[4] == 0);
            Respond(request, points, control) ==
              if control([], w) == 0 then (request, [w]) else ([request[0] + 128, control([], w)], [])
  {
    assert request[..5] == request;
  }

  // The write requests a client asks for, as the control path should see them.
  function Intended(fc: Byte, address: Word, values: seq<Word>, control: Control): (Byte, seq<Write>)
    requires values != [] && fc in {5, 6, 15, 16}
  {
    if fc == 15 then ServeCoils(address, AsCoils(values), 0, control, [])
    else
      var w := if fc == 5 then CoilWrite(address, values[0] != 0)
               else if fc == 6 then RegisterWrite(address, values[0])
               else BlockWrite(address, values);
      var code := control([], w);
      (code, if code == 0 then [w] else [])
  }

  lemma CoilsServed(request: seq<Byte>, address: Word, values: seq<Word>, control: Control)
    requires 0 < |values| <= 1968 && |request| == 6 + ByteCount(|values|)
    requires request[0] == 15 && Quantity(request) == |values| && request[5] == ByteCount(|values|)
    requires request[6..] == Pack(values)
    ensures var (code, done) := Intended(15, address, values, control);
            RespondBlock(request, address, control) == (if code != 0 then Exception(15, code) else request[..5], done)
  {
    CoilsRoundTrip(values);
  }

  lemma CoilsExchange(address: Word, values: seq<Word>, points: Points, control: Control)
    requires 0 < |values| <= 1968
    ensures var request := WriteRequest(15, address, values).value;
            var (code, done) := Intended(15, address, values, control);
            Respond(request, points, control) == (if code != 0 then Exception(15, code) else request[..5], done)
  {
    var request := WriteRequest(15, address, values).value;
    JoinSplit(address);
    JoinSplit(|values|);
    assert request[6..] == Pack(values);
    CoilsServed(request, address, values, control);
  }

  lemma WordsServed(request: seq<Byte>, address: Word, values: seq<Word>, control: Control)
    requires 0 < |values| <= 123 && |request| == 6 + 2 * |values|
    requires request[0] == 16 && Quantity(request) == |values| && request[5] == 2 * |values|
    requires request[6..] == WordBytes(values)
    ensures var (code, done) := Intended(16, address, values, control);
            RespondBlock(request, address, control) == (if code != 0 then Exception(16, code) else request[..5], done)
  {
    WordsRoundTrip(values);
  }

  lemma WordsExchange(address: Word, values: seq<Word>, points: Points, control: Control)
    requires 0 < |values| <= 123
    ensures var request := WriteRequest(16, address, values).value;
            var (code, done) := Intended(16, address, values, control);
            Respond(request, points, control) == (if code != 0 then Exception(16, code) else request[..5], done)
  {
    var request := WriteRequest(16, address, values).value;
    JoinSplit(address);
    JoinSplit(|values|);
    assert request[6..] == WordBytes(values);
    WordsServed(request, address, values, control);
  }

  lemma CoilExchange(address: Word, value: Word, points: Points, control: Control)
    ensures var request := WriteRequest(5, address, [value]).value;
            var (code, done) := Intended(5, address, [value], control);
            Respond(request, points, control) == (if code != 0 then Exception(5, code) else request[..5], done)
  {
    JoinSplit(address);
  }

  lemma RegisterExchange(address: Word, value: Word, points: Points, control: Control)
    ensures var request := WriteRequest(6, address, [value]).value;
            var (code, done) := Intended(6, address, [value], control);
            Respond(request, points, control) == (if code != 0 then Exception(6, code) else request[..5], done)
  {
    JoinSplit(address);
    JoinSplit(value);
  }

  lemma EmptyNotWellFormed(request: seq<Byte>)
    requires |request| >= 5 && (request[0] == 15 || request[0] == 16)
    requires request[3] == 0 && request[4] == 0
    ensures !WellFormedBlock(request)
  {
    assert Quantity(request) == 0;
  }

  lemma ZeroBytes()
    ensures Hi(0) == 0 && Lo(0) == 0
  {}

  // A block write of nothing, which the client builds, is refused.
  lemma EmptyBlockRefused(fc: Byte, address: Word, points: Points, control: Control)
    requires fc == 15 || fc == 16
    ensures Respond(WriteRequest(fc, address, []).value, points, control) == ([fc + 128, 3], [])
  {
    var request := WriteRequest(fc, address, []).value;
    ZeroBytes();
    EmptyNotWellFormed(request);
    MalformedBlockRefused(request, points, control);
  }

  /** Every write request the client can build reaches the control path as the same coils or
      words, and the client reports success exactly when there were some and all were accepted. */
  lemma WriteExchange(fc: Byte, address: Word, values: seq<Word>, points: Points, control: Control)
    requires WriteRequest(fc, address, values).Some?
    ensures var (response, done) := Respond(WriteRequest(fc, address, values).value, points, control);
            if values == [] then done == [] && !WriteAccepted(fc, response)
            else
              var (code, intended) := Intended(fc, address, values, control);
              done == intended && (WriteAccepted(fc, response) <==> code == 0)
  {
    if values == [] {
      EmptyBlockRefused(fc, address, points, control);
    } else if fc == 15 {
      CoilsExchange(address, values, points, control);
    } else if fc == 16 {
      WordsExchange(address, values, points, control);
    } else {
      assert values == [values[0]];
      if fc == 5 {
        CoilExchange(address, values[0], points, control);
      } else {
        RegisterExchange(address, values[0], points, control);
      }
    }
  }

  /** A block write whose declared sizes disagree is refused with exception 3 and writes nothing. */
  lemma MalformedBlockRefused(request: seq<Byte>, points: Points, control: Control)
    requires |request| >= 5 && (request[0] == 15 || request[0] == 16)
    ensures !WellFormedBlock(request) ==> Respond(request, points, control) == ([request[0] + 128, 3], [])
    ensures Respond(request, points, control).1 != [] ==> WellFormedBlock(request)
  {}

  lemma {:induction false} WrittenKept(address: Word, coils: seq<bool>, i: nat, control: Control, done: seq<Write>)
    requires i <= |coils|
    ensures done <= ServeCoils(address, coils, i, control, done).1
    decreases |coils| - i
  {
    if i < |coils| {
      var w := CoilWrite(Wrap(address, i), coils[i]);
      if control(done, w) == 0 { WrittenKept(address, coils, i + 1, control, done + [w]); }
    }
  }

  /** A multiple-coil write stops at the first coil refused, with its code: the coils before it are
      written, each with the value asked for. */
  lemma {:induction false} CoilsWrittenInOrder(address: Word, coils: seq<bool>, i: nat, control: Control, done: seq<Write>)
    requires i <= |coils| && |done| == i
    requires forall k :: 0 <= k < i ==> done[k] == CoilWrite(Wrap(address, k), coils[k])
    ensures var (code, written) := ServeCoils(address, coils, i, control, done);
            && |written| <= |coils|
            && (forall k :: 0 <= k < |written| ==> written[k] == CoilWrite(Wrap(address, k), coils[k]))
            && (code == 0 <==> |written| == |coils|)
            && i <= |written| && (forall k :: i <= k < |written| ==> control(written[..k], written[k]) == 0)
            && (code != 0 ==> code == control(written, CoilWrite(Wrap(address, |written|), coils[|written|])))
    decreases |coils| - i
  {
    if i == |coils| {
    } else {
      var w := CoilWrite(Wrap(address, i), coils[i]);
      if control(done, w) == 0 {
        assert (done + [w])[..i] == done;
        CoilsWrittenInOrder(address, coils, i + 1, control, done + [w]);
        WrittenKept(address, coils, i + 1, control, done + [w]);
        var written := ServeCoils(address, coils, i, control, done).1;
        assert written[..i] == done && written[i] == w;
      }
    }
  }
}
