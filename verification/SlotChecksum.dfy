/** The checksum of a configuration slot (main/config/runtime_config.c): the bit loop, and the
    CRC-32 it computes. */
module SlotChecksum {
  import opened ChecksumRegister
  import opened LongDivision

  function ShiftBit(crc: bv32): bv32 {
    if crc & 1 == 1 then (crc >> 1) ^ 0xEDB88320 else crc >> 1
  }

  function Round(crc: bv32): bv32 { Iterate(ShiftBit, crc, 8) }

  function Xor(a: bv32, b: bv32): bv32 { a ^ b }

  function Low(b: bv8): bv32 { b as bv32 }

  function High(b: bv8): bv32 { (b as bv32) << 8 }

  const CRC32: Register<bv32> := Register(Round, Xor, Low, High)

  function Crc32(data: seq<bv8>): bv32 { !Fold(CRC32, 0xFFFF_FFFF, data) }

  method Crc32Bytes(data: seq<bv8>) returns (crc: bv32)
    ensures crc == Crc32(data)
  {
    crc := 0xFFFF_FFFF;
    var i := 0;
    while i < |data|
      invariant 0 <= i <= |data|
      invariant Fold(CRC32, crc, data[i..]) == Fold(CRC32, 0xFFFF_FFFF, data)
    {
      ghost var before := crc;
      crc := Xor(crc, Low(data[i]));
      crc := EightRounds(crc);
      FoldFirst(CRC32, before, data[i..]);
      assert data[i..][1..] == data[i + 1..];
      i := i + 1;
    }
    crc := !crc;
  }

  method EightRounds(start: bv32) returns (crc: bv32)
    ensures crc == Round(start)
  {
    crc := start;
    var bit := 0;
    while bit < 8
      invariant 0 <= bit <= 8
      invariant crc == Iterate(ShiftBit, start, bit)
    {
      crc := ShiftBit(crc);
      bit := bit + 1;
    }
  }

  lemma XorShift(a: bv32, b: bv32)
    ensures (a ^ b) >> 1 == (a >> 1) ^ (b >> 1)
  {}

  lemma XorBit(a: bv32, b: bv32)
    ensures (a ^ b) & 1 == 1 <==> (a & 1 == 1) != (b & 1 == 1)
  {}

  lemma XorMask(p: bv32, q: bv32, m: bv32)
    ensures (p ^ q) ^ m == (p ^ m) ^ q == p ^ (q ^ m)
    ensures (p ^ m) ^ (q ^ m) == p ^ q
  {}

  lemma XorCancel(a: bv32, b: bv32, m: bv32)
    ensures a ^ m == b ^ m ==> a == b
  {}

  lemma WordParts(c: bv32, x: bv8, y: bv8, x': bv8, y': bv8)
    requires (c ^ (x as bv32)) ^ ((y as bv32) << 8) == (c ^ (x' as bv32)) ^ ((y' as bv32) << 8)
    ensures x == x' && y == y'
  {}

  lemma ShiftBitLinear(a: bv32, b: bv32)
    ensures ShiftBit(a ^ b) == ShiftBit(a) ^ ShiftBit(b)
  {
    XorShift(a, b);
    XorBit(a, b);
    XorMask(a >> 1, b >> 1, 0xEDB88320);
  }

  lemma ShiftBitInjective(a: bv32, b: bv32)
    ensures ShiftBit(a) == ShiftBit(b) ==> a == b
  {
    assert a & 1 == 0 || a & 1 == 1;
    assert (a >> 1) & 0x8000_0000 == 0 && (b >> 1) & 0x8000_0000 == 0;
  }

  lemma ShiftEven(crc: bv32)
    requires crc & 1 == 0
    ensures ShiftBit(crc) == crc >> 1
  {}

  lemma EvenFour(crc: bv32)
    requires crc & 0xF == 0
    ensures crc & 1 == 0 && (crc >> 1) & 1 == 0 && (crc >> 2) & 1 == 0 && (crc >> 3) & 1 == 0
    ensures (crc >> 1) >> 1 == crc >> 2 && (crc >> 2) >> 1 == crc >> 3 && (crc >> 3) >> 1 == crc >> 4
  {}

  lemma FourRounds(crc: bv32)
    requires crc & 0xF == 0
    ensures Iterate(ShiftBit, crc, 4) == crc >> 4
  {
    EvenFour(crc);
    ShiftEven(crc);
    ShiftEven(crc >> 1);
    ShiftEven(crc >> 2);
    ShiftEven(crc >> 3);
  }

  lemma HighHalf(b: bv8)
    ensures ((b as bv32) << 8) & 0xF == 0 && (((b as bv32) << 8) >> 4) & 0xF == 0
    ensures (((b as bv32) << 8) >> 4) >> 4 == b as bv32
  {}

  lemma HighRounds(b: bv8)
    ensures Round(High(b)) == Low(b)
  {
    HighHalf(b);
    FourRounds(High(b));
    FourRounds(High(b) >> 4);
    IterateAdd(ShiftBit, High(b), 4, 4);
  }

  lemma RoundLinear()
    ensures Linear(Round, Xor)
  {
    forall a: bv32, b: bv32 {:trigger ShiftBit(Xor(a, b))}
      ensures ShiftBit(Xor(a, b)) == Xor(ShiftBit(a), ShiftBit(b))
    {
      ShiftBitLinear(a, b);
    }
    forall a: bv32, b: bv32 {:trigger Round(Xor(a, b))}
      ensures Round(Xor(a, b)) == Xor(Round(a), Round(b))
    {
      IterateLinear(ShiftBit, Xor, a, b, 8);
    }
  }

  lemma RoundInjective()
    ensures Injective(Round)
  {
    forall a: bv32, b: bv32 {:trigger ShiftBit(a), ShiftBit(b)}
      ensures ShiftBit(a) == ShiftBit(b) ==> a == b
    {
      ShiftBitInjective(a, b);
    }
    forall a: bv32, b: bv32 {:trigger Round(a), Round(b)}
      ensures Round(a) == Round(b) ==> a == b
    {
      if Round(a) == Round(b) { IterateInjective(ShiftBit, a, b, 8); }
    }
  }

  lemma Placed(c: bv32, x: bv8, y: bv8)
    ensures Xor(Xor(c, Low(x)), High(y)) == (c ^ (x as bv32)) ^ ((y as bv32) << 8)
  {}

  lemma PlacedApart(c: bv32, x: bv8, y: bv8, x': bv8, y': bv8)
    requires Xor(Xor(c, Low(x)), High(y)) == Xor(Xor(c, Low(x')), High(y'))
    ensures x == x' && y == y'
  {
    Placed(c, x, y);
    Placed(c, x', y');
    WordParts(c, x, y, x', y');
  }

  lemma Crc32Sound()
    ensures Sound(CRC32)
  {
    RoundLinear();
    RoundInjective();
    forall a: bv32, b: bv32, m: bv32 {:trigger Xor(a, m), Xor(b, m)}
      ensures Xor(a, m) == Xor(b, m) ==> a == b
    {
      XorCancel(a, b, m);
    }
    forall b: bv8 {:trigger High(b)}
      ensures Round(High(b)) == Low(b)
    {
      HighRounds(b);
    }
    forall c: bv32, x: bv8, y: bv8, x': bv8, y': bv8
      {:trigger Xor(Xor(c, Low(x)), High(y)), Xor(Xor(c, Low(x')), High(y'))}
      ensures Xor(Xor(c, Low(x)), High(y)) == Xor(Xor(c, Low(x')), High(y')) ==> x == x' && y == y'
    {
      if Xor(Xor(c, Low(x)), High(y)) == Xor(Xor(c, Low(x')), High(y')) {
        PlacedApart(c, x, y, x', y');
      }
    }
  }

  // ---- The checksum as a remainder ----

  function Byte0(c: bv32): bv8 { (c & 0xFF) as bv8 }

  function Byte1(c: bv32): bv8 { ((c >> 8) & 0xFF) as bv8 }

  function Byte2(c: bv32): bv8 { ((c >> 16) & 0xFF) as bv8 }

  function Byte3(c: bv32): bv8 { (c >> 24) as bv8 }

  /** The coefficients that a register holds: its low bit is the highest power. */
  function WordBits(c: bv32): (r: Bits)
    ensures |r| == 32
  {
    ByteBits(Byte0(c)) + ByteBits(Byte1(c)) + (ByteBits(Byte2(c)) + ByteBits(Byte3(c)))
  }

  /** The generator of ISO/IEC 3309 and IEEE 802.3. */
  function Generator(): (r: Bits)
    ensures |r| == 33
  {
    Polynomial({32, 26, 23, 22, 16, 12, 11, 10, 8, 7, 5, 4, 2, 1, 0}, 32)
  }

  lemma MaskBytes()
    ensures Byte0(0xEDB88320) == 0x20 && Byte1(0xEDB88320) == 0x83 && Byte2(0xEDB88320) == 0xB8 && Byte3(0xEDB88320) == 0xED
  {}

  lemma MaskBits()
    ensures WordBits(0xEDB88320) == Generator()[1..] && Generator()[0]
  {
    MaskBytes();
  }

  lemma BytesXored(a: bv32, b: bv32)
    ensures Byte0(a ^ b) == Byte0(a) ^ Byte0(b) && Byte1(a ^ b) == Byte1(a) ^ Byte1(b)
    ensures Byte2(a ^ b) == Byte2(a) ^ Byte2(b) && Byte3(a ^ b) == Byte3(a) ^ Byte3(b)
  {}

  lemma PairXored(a: bv8, c: bv8, b: bv8, d: bv8)
    ensures ByteBits(a ^ b) + ByteBits(c ^ d) == Sum(ByteBits(a) + ByteBits(c), ByteBits(b) + ByteBits(d))
  {
    ByteXored(a, b);
    ByteXored(c, d);
    SumAppend(ByteBits(a), ByteBits(c), ByteBits(b), ByteBits(d));
  }

  lemma Xored(a: bv32, b: bv32)
    ensures WordBits(a ^ b) == Sum(WordBits(a), WordBits(b))
  {
    BytesXored(a, b);
    PairXored(Byte0(a), Byte1(a), Byte0(b), Byte1(b));
    PairXored(Byte2(a), Byte3(a), Byte2(b), Byte3(b));
    SumAppend(ByteBits(Byte0(a)) + ByteBits(Byte1(a)), ByteBits(Byte2(a)) + ByteBits(Byte3(a)),
              ByteBits(Byte0(b)) + ByteBits(Byte1(b)), ByteBits(Byte2(b)) + ByteBits(Byte3(b)));
  }

  lemma BytesShifted(c: bv32)
    ensures Byte0(c >> 1) == (Byte0(c) >> 1) | (Byte1(c) << 7) && Byte1(c >> 1) == (Byte1(c) >> 1) | (Byte2(c) << 7)
    ensures Byte2(c >> 1) == (Byte2(c) >> 1) | (Byte3(c) << 7) && Byte3(c >> 1) == (Byte3(c) >> 1) | (0 << 7)
  {}

  lemma LowestBit(c: bv32)
    ensures ByteBits(Byte0(c))[0] <==> c & 1 == 1
  {}

  lemma FourShifted(a: Bits, b: Bits, c: Bits, d: Bits)
    requires |a| == |b| == |c| == |d| == 8
    ensures (a + b + (c + d) + [false])[1..] ==
              (a[1..] + [b[0]]) + (b[1..] + [c[0]]) + ((c[1..] + [d[0]]) + (d[1..] + [false]))
  {}

  lemma Shifted(c: bv32)
    ensures WordBits(c >> 1) == (WordBits(c) + [false])[1..]
    ensures WordBits(c)[0] <==> c & 1 == 1
  {
    BytesShifted(c);
    LowestBit(c);
    ZeroByte();
    ByteShifted(Byte0(c), Byte1(c));
    ByteShifted(Byte1(c), Byte2(c));
    ByteShifted(Byte2(c), Byte3(c));
    ByteShifted(Byte3(c), 0);
    FourShifted(ByteBits(Byte0(c)), ByteBits(Byte1(c)), ByteBits(Byte2(c)), ByteBits(Byte3(c)));
  }

  lemma ShiftBitDivides(c: bv32)
    ensures WordBits(ShiftBit(c)) ==
              (if WordBits(c)[0] then Sum(WordBits(c) + [false], Generator()) else WordBits(c) + [false])[1..]
  {
    Shifted(c);
    Xored(c >> 1, 0xEDB88320);
    MaskBits();
    SumTail(WordBits(c) + [false], Generator());
  }

  lemma LowBits(b: bv8)
    ensures WordBits(Low(b)) == ByteBits(b) + Zeros(24)
  {
    assert Byte0(Low(b)) == b && Byte1(Low(b)) == 0 && Byte2(Low(b)) == 0 && Byte3(Low(b)) == 0;
    ZeroByte();
  }

  lemma MixedByte(c: bv32, b: bv8)
    ensures WordBits(Xor(c, Low(b))) == Sum(WordBits(c), ByteBits(b))
  {
    Xored(c, Low(b));
    LowBits(b);
    SumZeros(WordBits(c), ByteBits(b), 24);
  }

  lemma Crc32Divides()
    ensures Divides(CRC32, ShiftBit, WordBits, Generator(), 32)
  {
    MaskBits();
    forall c: bv32 {:trigger ShiftBit(c)}
      ensures WordBits(ShiftBit(c)) ==
                (if WordBits(c)[0] then Sum(WordBits(c) + [false], Generator()) else WordBits(c) + [false])[1..]
    {
      ShiftBitDivides(c);
    }
    forall c: bv32, b: bv8 {:trigger Xor(c, Low(b))} ensures WordBits(Xor(c, Low(b))) == Sum(WordBits(c), ByteBits(b)) {
      MixedByte(c, b);
    }
  }

  lemma PresetBits()
    ensures WordBits(0xFFFF_FFFF) == seq(32, _ => true)
  {
    OnesByte();
    assert Byte0(0xFFFF_FFFF) == 0xFF && Byte1(0xFFFF_FFFF) == 0xFF && Byte2(0xFFFF_FFFF) == 0xFF && Byte3(0xFFFF_FFFF) == 0xFF;
  }

  lemma Complemented(c: bv32)
    ensures WordBits(!c) == Sum(WordBits(c), seq(32, _ => true))
  {
    assert !c == c ^ 0xFFFF_FFFF;
    Xored(c, 0xFFFF_FFFF);
    PresetBits();
  }

  /** The checksum is the complement of the remainder, on division by the generator of CRC-32, of
      the image with each byte's low bit first, followed by 32 zeros and with its first 32 bits
      inverted. */
  lemma Crc32IsRemainder(data: seq<bv8>)
    ensures var ones: Bits := seq(32, _ => true);
            WordBits(Crc32(data)) ==
              Sum(Remainder(Sum(Message(data) + Zeros(32), ones),
                            Polynomial({32, 26, 23, 22, 16, 12, 11, 10, 8, 7, 5, 4, 2, 1, 0}, 32), 32), ones)
  {
    Crc32Divides();
    FoldIsRemainder(CRC32, ShiftBit, WordBits, Generator(), 32, 0xFFFF_FFFF, data);
    PresetBits();
    Complemented(Fold(CRC32, 0xFFFF_FFFF, data));
  }
}
