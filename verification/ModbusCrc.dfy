/** Checksum registers in general: what follows for whole messages from four facts
    about one register update. Kept apart from bit vectors so that the proofs are
    plain equational reasoning. */
module ChecksumRegister {

  /** `step` clocks the register past one byte, `plus` mixes a byte in, `low(b)` is
      the byte where it is mixed in and `high(b)` the same byte eight places up. */
  datatype Register<!T> = Register(step: T -> T, plus: (T, T) -> T, low: bv8 -> T, high: bv8 -> T)

  function Fold<T>(r: Register<T>, state: T, data: seq<bv8>): T
    decreases data
  {
    if data == [] then state else Fold(r, r.step(r.plus(state, r.low(data[0]))), data[1..])
  }

  function Iterate<T>(f: T -> T, x: T, n: nat): T {
    if n == 0 then x else f(Iterate(f, x, n - 1))
  }

  ghost predicate Linear<T(!new)>(f: T -> T, plus: (T, T) -> T) {
    forall a, b {:trigger f(plus(a, b))} :: f(plus(a, b)) == plus(f(a), f(b))
  }

  ghost predicate Injective<T(!new)>(f: T -> T) {
    forall a, b {:trigger f(a), f(b)} :: f(a) == f(b) ==> a == b
  }

  ghost predicate Sound<T(!new)>(r: Register<T>) {
    && Linear(r.step, r.plus)
    && Injective(r.step)
    && (forall a, b, m {:trigger r.plus(a, m), r.plus(b, m)} :: r.plus(a, m) == r.plus(b, m) ==> a == b)
    && (forall b {:trigger r.high(b)} :: r.step(r.high(b)) == r.low(b))
    && (forall c, x, y, x', y' {:trigger r.plus(r.plus(c, r.low(x)), r.high(y)), r.plus(r.plus(c, r.low(x')), r.high(y'))} ::
         r.plus(r.plus(c, r.low(x)), r.high(y)) == r.plus(r.plus(c, r.low(x')), r.high(y')) ==> x == x' && y == y')
  }

  lemma {:induction false} IterateLinear<T(!new)>(f: T -> T, plus: (T, T) -> T, a: T, b: T, n: nat)
    requires Linear(f, plus)
    ensures Iterate(f, plus(a, b), n) == plus(Iterate(f, a, n), Iterate(f, b, n))
  {
    if n == 0 {
    } else {
      IterateLinear(f, plus, a, b, n - 1);
      assert f(plus(Iterate(f, a, n - 1), Iterate(f, b, n - 1))) == plus(f(Iterate(f, a, n - 1)), f(Iterate(f, b, n - 1)));
    }
  }

  lemma {:induction false} IterateAdd<T>(f: T -> T, x: T, m: nat, n: nat)
    ensures Iterate(f, x, m + n) == Iterate(f, Iterate(f, x, m), n)
  {
    if n == 0 {
    } else {
      IterateAdd(f, x, m, n - 1);
    }
  }

  lemma {:induction false} IterateInjective<T(!new)>(f: T -> T, a: T, b: T, n: nat)
    requires Injective(f)
    requires Iterate(f, a, n) == Iterate(f, b, n)
    ensures a == b
  {
    if n == 0 {
    } else {
      IterateInjective(f, a, b, n - 1);
    }
  }

  lemma {:induction false} FoldAppend<T>(r: Register<T>, state: T, a: seq<bv8>, b: seq<bv8>)
    ensures Fold(r, state, a + b) == Fold(r, Fold(r, state, a), b)
    decreases a
  {
    if a == [] {
      assert a + b == b;
    } else {
      assert (a + b)[0] == a[0] && (a + b)[1..] == a[1..] + b;
      FoldAppend(r, r.step(r.plus(state, r.low(a[0]))), a[1..], b);
    }
  }

  lemma {:induction false} FoldInjective<T(!new)>(r: Register<T>, a: T, b: T, data: seq<bv8>)
    requires Sound(r)
    requires Fold(r, a, data) == Fold(r, b, data)
    ensures a == b
    decreases data
  {
    if data == [] {
    } else {
      var m := r.low(data[0]);
      FoldInjective(r, r.step(r.plus(a, m)), r.step(r.plus(b, m)), data[1..]);
    }
  }

  lemma FoldFirst<T>(r: Register<T>, state: T, data: seq<bv8>)
    requires data != []
    ensures Fold(r, state, data) == Fold(r, r.step(r.plus(state, r.low(data[0]))), data[1..])
  {}

  lemma FoldTwo<T>(r: Register<T>, state: T, x: bv8, y: bv8)
    ensures Fold(r, state, [x, y]) == r.step(r.plus(r.step(r.plus(state, r.low(x))), r.low(y)))
  {
    var s := r.step(r.plus(state, r.low(x)));
    assert [x, y][1..] == [y] && [y][1..] == [];
    assert Fold(r, s, [y]) == Fold(r, r.step(r.plus(s, r.low(y))), []);
  }

  // Two bytes enter the register as one double-width word, so they cannot cancel.
  lemma FoldTwoInjective<T(!new)>(r: Register<T>, state: T, x: bv8, y: bv8, x': bv8, y': bv8)
    requires Sound(r)
    requires Fold(r, state, [x, y]) == Fold(r, state, [x', y'])
    ensures x == x' && y == y'
  {
    FoldTwo(r, state, x, y);
    FoldTwo(r, state, x', y');
    var w := r.plus(r.plus(state, r.low(x)), r.high(y));
    var w' := r.plus(r.plus(state, r.low(x')), r.high(y'));
    assert r.step(w) == r.plus(r.step(r.plus(state, r.low(x))), r.low(y));
    assert r.step(w') == r.plus(r.step(r.plus(state, r.low(x'))), r.low(y'));
  }

  lemma BurstChangesFold<T(!new)>(r: Register<T>, state: T, before: seq<bv8>,
                                  x: bv8, y: bv8, x': bv8, y': bv8, after: seq<bv8>)
    requires Sound(r)
    requires x != x' || y != y'
    ensures Fold(r, state, before + [x, y] + after) != Fold(r, state, before + [x', y'] + after)
  {
    var mid := Fold(r, state, before);
    FoldAppend(r, state, before + [x, y], after);
    FoldAppend(r, state, before, [x, y]);
    FoldAppend(r, state, before + [x', y'], after);
    FoldAppend(r, state, before, [x', y']);
    if Fold(r, state, before + [x, y] + after) == Fold(r, state, before + [x', y'] + after) {
      FoldInjective(r, Fold(r, mid, [x, y]), Fold(r, mid, [x', y']), after);
      FoldTwoInjective(r, mid, x, y, x', y');
    }
  }
}

/** The RTU frame checksum of main/modbus/modbus_access.c: the bit loop, the frame
    trailer, and what a receiver may conclude from the residue of a whole frame. */
module ModbusCrc {
  import opened ChecksumRegister
  import opened LongDivision

  // One round of the inner bit loop.
  function ShiftBit(crc: bv16): bv16 {
    if crc & 1 == 1 then (crc >> 1) ^ 0xA001 else crc >> 1
  }

  function Round(crc: bv16): bv16 { Iterate(ShiftBit, crc, 8) }

  function Xor(a: bv16, b: bv16): bv16 { a ^ b }

  function Low(b: bv8): bv16 { b as bv16 }

  function High(b: bv8): bv16 { (b as bv16) << 8 }

  const CRC16: Register<bv16> := Register(Round, Xor, Low, High)

  function Crc16(data: seq<bv8>): bv16 { Fold(CRC16, 0xFFFF, data) }

  function LowByte(crc: bv16): bv8 { (crc & 0xFF) as bv8 }

  function HighByte(crc: bv16): bv8 { (crc >> 8) as bv8 }

  method ModbusRtuCrc16(data: array<bv8>, length: nat) returns (crc: bv16)
    requires length <= data.Length
    ensures crc == Crc16(data[..length])
    ensures WordBits(crc) ==
              Remainder(Sum(Message(data[..length]) + Zeros(16), seq(16, _ => true)), Polynomial({16, 15, 2, 0}, 16), 16)
  {
    crc := 0xFFFF;
    var i := 0;
    while i < length
      invariant 0 <= i <= length
      invariant Fold(CRC16, crc, data[i..length]) == Crc16(data[..length])
    {
      ghost var before := crc;
      crc := Xor(crc, Low(data[i]));
      crc := EightRounds(crc);
      FoldFirst(CRC16, before, data[i..length]);
      assert data[i..length][1..] == data[i + 1..length];
      i := i + 1;
    }
    Crc16IsRemainder(data[..length]);
  }

  method EightRounds(start: bv16) returns (crc: bv16)
    ensures crc == Round(start)
  {
    crc := start;
    var bit := 0;
    while bit < 8
      invariant 0 <= bit <= 8
      invariant crc == Iterate(ShiftBit, start, bit)
    {
      crc := ShiftBit(crc);
      bit := bit + 1;
    }
  }

  /** Appends the checksum, low byte first, and leaves the rest of the buffer alone. */
  method AppendRtuCrc(frame: array<bv8>, payloadLength: nat) returns (size: nat)
    requires payloadLength + 2 <= frame.Length
    modifies frame
    ensures size == payloadLength + 2
    ensures frame[..payloadLength] == old(frame[..payloadLength])
    ensures frame[size..] == old(frame[payloadLength + 2..])
    ensures Crc16(frame[..size]) == 0
  {
    ghost var payload := frame[..payloadLength];
    var crc := ModbusRtuCrc16(frame, payloadLength);
    frame[payloadLength] := LowByte(crc);
    frame[payloadLength + 1] := HighByte(crc);
    size := payloadLength + 2;
    assert frame[..size] == payload + [LowByte(crc), HighByte(crc)];
    ResidueIff(payload, LowByte(crc), HighByte(crc));
  }

  // ---- Bit-vector facts, one at a time ----

  lemma XorShift(a: bv16, b: bv16)
    ensures (a ^ b) >> 1 == (a >> 1) ^ (b >> 1)
  {}

  lemma XorBit(a: bv16, b: bv16)
    ensures (a ^ b) & 1 == 1 <==> (a & 1 == 1) != (b & 1 == 1)
  {}

  lemma XorMask(p: bv16, q: bv16, m: bv16)
    ensures (p ^ q) ^ m == (p ^ m) ^ q == p ^ (q ^ m)
    ensures (p ^ m) ^ (q ^ m) == p ^ q
  {}

  lemma HighHalf(h: bv16)
    requires h < 256
    ensures (h << 8) & 0xFF == 0 && (h << 8) >> 8 == h
  {}

  lemma ByteCast(x: bv8)
    ensures (x as bv16) < 256
  {}

  lemma WordParts(c: bv16, x: bv8, y: bv8, x': bv8, y': bv8)
    requires (c ^ (x as bv16)) ^ ((y as bv16) << 8) == (c ^ (x' as bv16)) ^ ((y' as bv16) << 8)
    ensures x == x' && y == y'
  {}

  lemma XorCancel(a: bv16, b: bv16, m: bv16)
    ensures a ^ m == b ^ m ==> a == b
  {}

  lemma ShiftBitLinear(a: bv16, b: bv16)
    ensures ShiftBit(a ^ b) == ShiftBit(a) ^ ShiftBit(b)
  {
    XorShift(a, b);
    XorBit(a, b);
    XorMask(a >> 1, b >> 1, 0xA001);
  }

  lemma ShiftBitInjective(a: bv16, b: bv16)
    ensures ShiftBit(a) == ShiftBit(b) ==> a == b
  {
    assert a & 1 == 0 || a & 1 == 1;
    assert (a >> 1) & 0x8000 == 0 && (b >> 1) & 0x8000 == 0;
  }

  lemma ShiftEven(crc: bv16)
    requires crc & 1 == 0
    ensures ShiftBit(crc) == crc >> 1
  {}

  lemma EvenFour(crc: bv16)
    requires crc & 0xF == 0
    ensures crc & 1 == 0 && (crc >> 1) & 1 == 0 && (crc >> 2) & 1 == 0 && (crc >> 3) & 1 == 0
    ensures (crc >> 1) >> 1 == crc >> 2 && (crc >> 2) >> 1 == crc >> 3 && (crc >> 3) >> 1 == crc >> 4
  {}

  lemma FourRounds(crc: bv16)
    requires crc & 0xF == 0
    ensures Iterate(ShiftBit, crc, 4) == crc >> 4
  {
    EvenFour(crc);
    ShiftEven(crc);
    ShiftEven(crc >> 1);
    ShiftEven(crc >> 2);
    ShiftEven(crc >> 3);
  }

  lemma ShiftTwice(crc: bv16)
    requires crc & 0xFF == 0
    ensures crc & 0xF == 0 && (crc >> 4) & 0xF == 0 && (crc >> 4) >> 4 == crc >> 8
  {}

  // A state whose low byte is clear is only shifted: no feedback for eight rounds.
  lemma RoundShiftsOut(crc: bv16)
    requires crc & 0xFF == 0
    ensures Round(crc) == crc >> 8
  {
    ShiftTwice(crc);
    FourRounds(crc);
    FourRounds(crc >> 4);
    IterateAdd(ShiftBit, crc, 4, 4);
  }

  lemma HighRounds(b: bv8)
    ensures Round(High(b)) == Low(b)
  {
    ByteCast(b);
    HighHalf(b as bv16);
    RoundShiftsOut(High(b));
  }

  lemma RoundLinear()
    ensures Linear(Round, Xor)
  {
    forall a: bv16, b: bv16 {:trigger ShiftBit(Xor(a, b))}
      ensures ShiftBit(Xor(a, b)) == Xor(ShiftBit(a), ShiftBit(b))
    {
      ShiftBitLinear(a, b);
    }
    forall a: bv16, b: bv16 {:trigger Round(Xor(a, b))}
      ensures Round(Xor(a, b)) == Xor(Round(a), Round(b))
    {
      IterateLinear(ShiftBit, Xor, a, b, 8);
    }
  }

  lemma RoundInjective()
    ensures Injective(Round)
  {
    forall a: bv16, b: bv16 {:trigger ShiftBit(a), ShiftBit(b)}
      ensures ShiftBit(a) == ShiftBit(b) ==> a == b
    {
      ShiftBitInjective(a, b);
    }
    forall a: bv16, b: bv16 {:trigger Round(a), Round(b)}
      ensures Round(a) == Round(b) ==> a == b
    {
      if Round(a) == Round(b) { IterateInjective(ShiftBit, a, b, 8); }
    }
  }

  lemma Placed(c: bv16, x: bv8, y: bv8)
    ensures Xor(Xor(c, Low(x)), High(y)) == (c ^ (x as bv16)) ^ ((y as bv16) << 8)
  {}

  lemma PlacedApart(c: bv16, x: bv8, y: bv8, x': bv8, y': bv8)
    requires Xor(Xor(c, Low(x)), High(y)) == Xor(Xor(c, Low(x')), High(y'))
    ensures x == x' && y == y'
  {
    Placed(c, x, y);
    Placed(c, x', y');
    WordParts(c, x, y, x', y');
  }

  lemma Crc16Sound()
    ensures Sound(CRC16)
  {
    RoundLinear();
    RoundInjective();
    forall a: bv16, b: bv16, m: bv16 {:trigger Xor(a, m), Xor(b, m)}
      ensures Xor(a, m) == Xor(b, m) ==> a == b
    {
      XorCancel(a, b, m);
    }
    forall b: bv8 {:trigger High(b)}
      ensures Round(High(b)) == Low(b)
    {
      HighRounds(b);
    }
    forall c: bv16, x: bv8, y: bv8, x': bv8, y': bv8
      {:trigger Xor(Xor(c, Low(x)), High(y)), Xor(Xor(c, Low(x')), High(y'))}
      ensures Xor(Xor(c, Low(x)), High(y)) == Xor(Xor(c, Low(x')), High(y')) ==> x == x' && y == y'
    {
      if Xor(Xor(c, Low(x)), High(y)) == Xor(Xor(c, Low(x')), High(y')) {
        PlacedApart(c, x, y, x', y');
      }
    }
  }

  lemma TrailerClears(crc: bv16)
    ensures Fold(CRC16, crc, [LowByte(crc), HighByte(crc)]) == 0
  {
    FoldTwo(CRC16, crc, LowByte(crc), HighByte(crc));
    assert LowByte(crc) as bv16 == crc & 0xFF && HighByte(crc) as bv16 == crc >> 8;
    assert (crc ^ (crc & 0xFF)) & 0xFF == 0 && (crc ^ (crc & 0xFF)) >> 8 == crc >> 8;
    RoundShiftsOut(crc ^ (crc & 0xFF));
    assert (crc >> 8) ^ (crc >> 8) == 0;
    RoundShiftsOut(0);
  }

  /** A frame has residue zero exactly when its last two bytes are the checksum of
      the rest, low byte first. */
  lemma ResidueIff(payload: seq<bv8>, x: bv8, y: bv8)
    ensures Crc16(payload + [x, y]) == 0 <==>
            x == LowByte(Crc16(payload)) && y == HighByte(Crc16(payload))
  {
    var crc := Crc16(payload);
    FoldAppend(CRC16, 0xFFFF, payload, [x, y]);
    TrailerClears(crc);
    if Fold(CRC16, crc, [x, y]) == 0 {
      Crc16Sound();
      FoldTwoInjective(CRC16, crc, x, y, LowByte(crc), HighByte(crc));
    }
  }

  /** Any change confined to two neighbouring bytes changes the checksum, whatever
      surrounds them. */
  lemma BurstChangesCrc(before: seq<bv8>, x: bv8, y: bv8, x': bv8, y': bv8, after: seq<bv8>)
    requires x != x' || y != y'
    ensures Crc16(before + [x, y] + after) != Crc16(before + [x', y'] + after)
  {
    Crc16Sound();
    BurstChangesFold(CRC16, 0xFFFF, before, x, y, x', y', after);
  }

  // ---- The checksum as a remainder ----

  /** The coefficients that a register holds: its low bit is the highest power. */
  function WordBits(c: bv16): (r: Bits)
    ensures |r| == 16
  {
    ByteBits(LowByte(c)) + ByteBits(HighByte(c))
  }

  /** x^16 + x^15 + x^2 + 1. */
  function Generator(): (r: Bits)
    ensures |r| == 17
  {
    Polynomial({16, 15, 2, 0}, 16)
  }

  lemma MaskBits()
    ensures WordBits(0xA001) == Generator()[1..] && Generator()[0]
  {
    assert LowByte(0xA001) == 0x01 && HighByte(0xA001) == 0xA0;
  }

  lemma BytesXored(a: bv16, b: bv16)
    ensures LowByte(a ^ b) == LowByte(a) ^ LowByte(b) && HighByte(a ^ b) == HighByte(a) ^ HighByte(b)
  {}

  lemma Xored(a: bv16, b: bv16)
    ensures WordBits(a ^ b) == Sum(WordBits(a), WordBits(b))
  {
    BytesXored(a, b);
    ByteXored(LowByte(a), LowByte(b));
    ByteXored(HighByte(a), HighByte(b));
    SumAppend(ByteBits(LowByte(a)), ByteBits(HighByte(a)), ByteBits(LowByte(b)), ByteBits(HighByte(b)));
  }

  lemma BytesShifted(c: bv16)
    ensures LowByte(c >> 1) == (LowByte(c) >> 1) | (HighByte(c) << 7) && HighByte(c >> 1) == (HighByte(c) >> 1) | (0 << 7)
    ensures ByteBits(LowByte(c))[0] <==> c & 1 == 1
  {}

  lemma Shifted(c: bv16)
    ensures WordBits(c >> 1) == (WordBits(c) + [false])[1..]
    ensures WordBits(c)[0] <==> c & 1 == 1
  {
    BytesShifted(c);
    ByteShifted(LowByte(c), HighByte(c));
    ByteShifted(HighByte(c), 0);
  }

  lemma ShiftBitDivides(c: bv16)
    ensures WordBits(ShiftBit(c)) ==
              (if WordBits(c)[0] then Sum(WordBits(c) + [false], Generator()) else WordBits(c) + [false])[1..]
  {
    Shifted(c);
    Xored(c >> 1, 0xA001);
    MaskBits();
    SumTail(WordBits(c) + [false], Generator());
  }

  lemma LowBits(b: bv8)
    ensures WordBits(Low(b)) == ByteBits(b) + Zeros(8)
  {
    assert LowByte(Low(b)) == b && HighByte(Low(b)) == 0;
    ZeroByte();
  }

  lemma MixedByte(c: bv16, b: bv8)
    ensures WordBits(Xor(c, Low(b))) == Sum(WordBits(c), ByteBits(b))
  {
    Xored(c, Low(b));
    LowBits(b);
    SumZeros(WordBits(c), ByteBits(b), 8);
  }

  lemma Crc16Divides()
    ensures Divides(CRC16, ShiftBit, WordBits, Generator(), 16)
  {
    MaskBits();
    forall c: bv16 {:trigger ShiftBit(c)}
      ensures WordBits(ShiftBit(c)) ==
                (if WordBits(c)[0] then Sum(WordBits(c) + [false], Generator()) else WordBits(c) + [false])[1..]
    {
      ShiftBitDivides(c);
    }
    forall c: bv16, b: bv8 {:trigger Xor(c, Low(b))} ensures WordBits(Xor(c, Low(b))) == Sum(WordBits(c), ByteBits(b)) {
      MixedByte(c, b);
    }
  }

  lemma PresetBits()
    ensures WordBits(0xFFFF) == seq(16, _ => true)
  {
    OnesByte();
    assert LowByte(0xFFFF) == 0xFF && HighByte(0xFFFF) == 0xFF;
  }

  /** The checksum is the remainder, on division by x^16 + x^15 + x^2 + 1, of the message with each
      byte's low bit first, followed by 16 zeros and with its first 16 bits inverted (section
      6.2.2 of MODBUS over Serial Line V1.02). */
  lemma Crc16IsRemainder(data: seq<bv8>)
    ensures WordBits(Crc16(data)) ==
              Remainder(Sum(Message(data) + Zeros(16), seq(16, _ => true)), Polynomial({16, 15, 2, 0}, 16), 16)
  {
    Crc16Divides();
    FoldIsRemainder(CRC16, ShiftBit, WordBits, Generator(), 16, 0xFFFF, data);
    PresetBits();
  }
}
