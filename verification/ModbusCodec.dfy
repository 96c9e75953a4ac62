/** Register words and values (main/modbus/modbus_access.c): word order, byte order, signed
    and BCD encodings, and when decoding and encoding undo each other. A 64-bit integer is
    rounded to a double; IEEE bit patterns go through a supplied conversion. */
module ModbusCodec {

  type Word = w: int | 0 <= w < 0x1_0000

  datatype DataType =
    | Int16 | UInt16 | Float32 | Int32 | UInt32 | Bool
    | Int64 | UInt64 | Float64 | Bcd16 | Bitfield16 | Ascii

  datatype ByteOrder = ABCD | CDAB | BADC | DCBA {
    predicate Reverses() { CDAB? || DCBA? }
    predicate Swaps() { BADC? || DCBA? }
  }

  /** The platform's conversions between IEEE bit patterns and numbers, and what its llround
      gives for a result beyond 64 bits, which the C standard leaves open. */
  datatype Ieee = Ieee(
    number32: nat -> real, pattern32: real -> nat, number64: nat -> real, pattern64: real -> nat,
    beyond: real -> int)

  function RegisterCount(t: DataType): (n: nat)
    ensures n == 1 || n == 2 || n == 4
  {
    if t.Float32? || t.Int32? || t.UInt32? then 2
    else if t.Float64? || t.Int64? || t.UInt64? then 4
    else 1
  }

  // ---- Words and bits ----

  function SwapBytes(w: Word): Word { w % 256 * 256 + w / 256 }

  function Reversed(ws: seq<Word>): (r: seq<Word>)
    ensures |r| == |ws| && forall i :: 0 <= i < |ws| ==> r[i] == ws[|ws| - 1 - i]
  {
    seq(|ws|, i requires 0 <= i < |ws| => ws[|ws| - 1 - i])
  }

  // Each word changed on its own.
  function Mapped(ws: seq<Word>, f: Word -> Word): (r: seq<Word>)
    ensures |r| == |ws| && forall i :: 0 <= i < |ws| ==> r[i] == f(ws[i])
  {
    seq(|ws|, i requires 0 <= i < |ws| => f(ws[i]))
  }

  function SwappedAll(ws: seq<Word>): (r: seq<Word>)
    ensures |r| == |ws|
  {
    Mapped(ws, SwapBytes)
  }

  /** The reordering both directions apply: reverse the words, then swap their bytes. */
  function Arranged(ws: seq<Word>, order: ByteOrder): (r: seq<Word>)
    ensures |r| == |ws|
  {
    var reversed := if order.Reverses() then Reversed(ws) else ws;
    if order.Swaps() then SwappedAll(reversed) else reversed
  }

  // The number of values of n words.
  function Capacity(n: nat): (c: nat)
    ensures c > 0
  {
    if n == 0 then 1 else 0x1_0000 * Capacity(n - 1)
  }

  function Bits(ws: seq<Word>): nat {
    if ws == [] then 0 else Bits(ws[..|ws| - 1]) * 0x1_0000 + ws[|ws| - 1]
  }

  function Words(bits: nat, n: nat): (ws: seq<Word>)
    ensures |ws| == n
  {
    if n == 0 then [] else Words(bits / 0x1_0000, n - 1) + [bits % 0x1_0000]
  }

  // ---- Integers as doubles ----

  const MANTISSA := 0x20_0000_0000_0000

  // The distance of doubles at a magnitude.
  function Ulp(a: nat): (u: nat)
    ensures u > 0
  {
    if a < MANTISSA then 1 else 2 * Ulp(a / 2)
  }

  // To the nearest multiple, halves to the even one.
  function NearestMultiple(a: nat, u: nat): nat
    requires u > 0
  {
    var r := a % u;
    if 2 * r < u || (2 * r == u && a / u % 2 == 0) then a - r else a - r + u
  }

  function Magnitude(v: int): nat { if v < 0 then -v else v }

  /** The conversion of an integer to a double. */
  function NearestDouble(v: int): int {
    var m: int := NearestMultiple(Magnitude(v), Ulp(Magnitude(v)));
    if v < 0 then -m else m
  }

  /** The integer has no more than 53 significant bits. */
  predicate IsDouble(v: int) { Magnitude(v) % Ulp(Magnitude(v)) == 0 }

  lemma NearestIff(v: int)
    ensures NearestDouble(v) == v <==> IsDouble(v)
    ensures Magnitude(NearestDouble(v) - v) <= Ulp(Magnitude(v))
  {}

  function Power2(k: nat): (p: nat)
    ensures p > 0
  {
    if k == 0 then 1 else 2 * Power2(k - 1)
  }

  lemma {:induction false} UlpBound(a: nat, k: nat)
    requires a < MANTISSA * Power2(k)
    ensures Ulp(a) <= Power2(k)
    decreases k
  {
    if a < MANTISSA {
    } else {
      UlpBound(a / 2, k - 1);
    }
  }

  lemma SmallIsDouble(v: int)
    requires Magnitude(v) <= MANTISSA
    ensures IsDouble(v)
  {
    assert Ulp(MANTISSA / 2) == 1;
    assert Ulp(MANTISSA) == 2;
  }

  // ---- Decoding ----

  function Signed(bits: nat, n: nat): int {
    if 2 * (bits % Capacity(n)) >= Capacity(n) then bits % Capacity(n) - Capacity(n) else bits % Capacity(n)
  }

  function Bit(bits: nat, index: nat): nat {
    if index == 0 then bits % 2 else Bit(bits / 2, index - 1)
  }

  function BcdValue(bits: nat): nat {
    bits / 4096 % 16 * 1000 + bits / 256 % 16 * 100 + bits / 16 % 16 * 10 + bits % 16
  }

  function Decode(regs: seq<Word>, t: DataType, order: ByteOrder, bitIndex: nat, ieee: Ieee): real
    requires |regs| >= RegisterCount(t)
  {
    var n := RegisterCount(t);
    var bits := Bits(Arranged(regs[..n], order));
    match t
    case Bool => if regs[0] != 0 then 1.0 else 0.0
    case Int16 | Int32 => Signed(bits, n) as real
    case UInt16 | UInt32 => (bits % Capacity(n)) as real
    case Int64 => NearestDouble(Signed(bits, n)) as real
    case UInt64 => NearestDouble(bits % Capacity(n)) as real
    case Float32 => ieee.number32(bits)
    case Float64 => ieee.number64(bits)
    case Bcd16 => BcdValue(bits) as real
    case Bitfield16 => Bit(bits, bitIndex % 16) as real
    case Ascii => 0.0
  }

  method ReverseWords(words: array<Word>, count: nat)
    requires count <= words.Length
    modifies words
    ensures words[..] == Reversed(old(words[..count])) + old(words[count..])
  {
    var i := 0;
    while i < count / 2
      invariant 0 <= i <= count / 2
      invariant forall k :: 0 <= k < i ==> words[k] == old(words[count - 1 - k]) && words[count - 1 - k] == old(words[k])
      invariant forall k :: i <= k < count - i ==> words[k] == old(words[k])
      invariant words[count..] == old(words[count..])
    {
      words[i], words[count - 1 - i] := words[count - 1 - i], words[i];
      i := i + 1;
    }
    assert words[..count] == Reversed(old(words[..count]));
    assert words[..] == words[..count] + words[count..];
  }

  method SwapAllBytes(words: array<Word>, count: nat)
    requires count <= words.Length
    modifies words
    ensures words[..] == SwappedAll(old(words[..count])) + old(words[count..])
  {
    var i := 0;
    while i < count
      invariant 0 <= i <= count
      invariant forall k :: 0 <= k < i ==> words[k] == SwapBytes(old(words[k]))
      invariant forall k :: i <= k < words.Length ==> words[k] == old(words[k])
    {
      words[i] := SwapBytes(words[i]);
      i := i + 1;
    }
    assert words[..count] == SwappedAll(old(words[..count]));
    assert words[..] == words[..count] + words[count..];
  }

  method ArrangeInPlace(words: array<Word>, count: nat, order: ByteOrder)
    requires count <= words.Length
    modifies words
    ensures words[..] == Arranged(old(words[..count]), order) + old(words[count..])
  {
    if order.Reverses() { ReverseWords(words, count); }
    assert words[count..] == old(words[count..]);
    if order.Swaps() { SwapAllBytes(words, count); }
    assert words[..] == words[..count] + words[count..];
  }

  method AssembleBits(words: array<Word>, count: nat) returns (bits: nat)
    requires count <= words.Length
    ensures bits == Bits(words[..count])
  {
    bits := 0;
    var i := 0;
    while i < count
      invariant 0 <= i <= count
      invariant bits == Bits(words[..i])
    {
      assert words[..i + 1][..i] == words[..i];
      bits := bits * 0x1_0000 + words[i];
      i := i + 1;
    }
  }

  method OrderedBits(regs: seq<Word>, count: nat, order: ByteOrder) returns (bits: nat)
    requires count <= |regs| && count <= 4
    ensures bits == Bits(Arranged(regs[..count], order))
  {
    var words := new Word[4](_ => 0);
    var i := 0;
    while i < count
      invariant 0 <= i <= count
      invariant words[..i] == regs[..i]
    {
      words[i] := regs[i];
      i := i + 1;
    }
    ArrangeInPlace(words, count, order);
    assert words[..count] == Arranged(regs[..count], order);
    bits := AssembleBits(words, count);
  }

  method ConvertToNumber(regs: seq<Word>, t: DataType, order: ByteOrder, bitIndex: nat, ieee: Ieee) returns (value: real)
    requires |regs| >= RegisterCount(t)
    ensures value == Decode(regs, t, order, bitIndex, ieee)
  {
    var count := RegisterCount(t);
    var bits := OrderedBits(regs, count, order);
    match t {
      case Bool => value := if regs[0] != 0 then 1.0 else 0.0;
      case Int16 => value := Signed(bits, 1) as real;
      case Int32 => value := Signed(bits, 2) as real;
      case Int64 => value := NearestDouble(Signed(bits, 4)) as real;
      case UInt16 => value := (bits % Capacity(1)) as real;
      case UInt32 => value := (bits % Capacity(2)) as real;
      case UInt64 => value := NearestDouble(bits % Capacity(4)) as real;
      case Float32 => value := ieee.number32(bits);
      case Float64 => value := ieee.number64(bits);
      case Bcd16 => value := BcdValue(bits) as real;
      case Bitfield16 => value := Bit(bits, bitIndex % 16) as real;
      case Ascii => value := 0.0;
    }
  }

  // ---- Encoding ----

  // To the nearest integer, halves away from zero.
  function Rounded(x: real): int {
    if x >= 0.0 then (x + 0.5).Floor else -((-x + 0.5).Floor)
  }

  predicate InLongLong(v: int) { -0x8000_0000_0000_0000 <= v < 0x8000_0000_0000_0000 }

  function LLRound(x: real, ieee: Ieee): int {
    if InLongLong(Rounded(x)) then Rounded(x) else ieee.beyond(x)
  }

  function BcdDigits(n: nat): Word {
    n / 1000 % 10 * 4096 + n / 100 % 10 * 256 + n / 10 % 10 * 16 + n % 10
  }

  function OneWord(value: real, t: DataType, ieee: Ieee): Word {
    match t
    case Bool => if value != 0.0 then 1 else 0
    case Bcd16 => BcdDigits(LLRound(value, ieee) % 0x1_0000)
    case _ => LLRound(value, ieee) % 0x1_0000
  }

  function Pattern(value: real, t: DataType, ieee: Ieee): nat {
    match t
    case Float32 => ieee.pattern32(value)
    case Float64 => ieee.pattern64(value)
    case _ => LLRound(value, ieee) % Capacity(RegisterCount(t))
  }

  /** The words of an encoded value; none for a type the encoder refuses. */
  function Encode(value: real, t: DataType, order: ByteOrder, ieee: Ieee): (ws: seq<Word>)
    ensures |ws| == if t.Ascii? then 0 else RegisterCount(t)
  {
    if t.Ascii? then []
    else if RegisterCount(t) == 1 then [OneWord(value, t, ieee)]
    else Arranged(Words(Pattern(value, t, ieee), RegisterCount(t)), order)
  }

  lemma Capacities()
    ensures Capacity(1) == 0x1_0000 && Capacity(2) == 0x1_0000_0000
    ensures Capacity(3) == 0x1_0000_0000_0000 && Capacity(4) == 0x1_0000_0000_0000_0000
  {
    assert Capacity(0) == 1;
    assert Capacity(3) == 0x1_0000 * Capacity(2);
    assert Capacity(4) == 0x1_0000 * Capacity(3);
  }

  lemma ShiftByWord(bits: nat, k: nat)
    requires k <= 3
    ensures bits / 0x1_0000 / Capacity(k) == bits / Capacity(k + 1)
  {
    Capacities();
    if k == 1 {
      assert bits / 0x1_0000 / 0x1_0000 == bits / 0x1_0000_0000;
    } else if k == 2 {
      assert bits / 0x1_0000 / 0x1_0000_0000 == bits / 0x1_0000_0000_0000;
    } else if k == 3 {
      assert bits / 0x1_0000 / 0x1_0000_0000_0000 == bits / 0x1_0000_0000_0000_0000;
    }
  }

  // The i-th word is what a right shift by the words behind it leaves.
  lemma {:induction false} WordByShift(bits: nat, n: nat, i: nat)
    requires i < n <= 4
    ensures Words(bits, n)[i] == bits / Capacity(n - 1 - i) % 0x1_0000
    decreases n
  {
    if i < n - 1 {
      WordByShift(bits / 0x1_0000, n - 1, i);
      ShiftByWord(bits, n - 2 - i);
    }
  }

  method StoreWords(bits: nat, words: array<Word>, count: nat, order: ByteOrder)
    requires count <= words.Length == 4
    modifies words
    ensures words[..] == Arranged(Words(bits, count), order) + old(words[count..])
  {
    var i := 0;
    while i < count
      invariant 0 <= i <= count
      invariant forall k :: 0 <= k < i ==> words[k] == Words(bits, count)[k]
      invariant words[count..] == old(words[count..])
    {
      WordByShift(bits, count, i);
      words[i] := bits / Capacity(count - 1 - i) % 0x1_0000;
      i := i + 1;
    }
    assert words[..count] == Words(bits, count);
    ArrangeInPlace(words, count, order);
  }

  method EncodeNumber(value: real, t: DataType, order: ByteOrder, ieee: Ieee, words: array<Word>) returns (count: nat)
    requires words.Length == 4
    modifies words
    ensures count == |Encode(value, t, order, ieee)|
    ensures words[..] == Encode(value, t, order, ieee) + seq(4 - count, _ => 0)
  {
    words[0], words[1], words[2], words[3] := 0, 0, 0, 0;
    count := RegisterCount(t);
    if t.Ascii? {
      count := 0;
      assert words[..] == seq(4, _ => 0);
    } else if count == 1 {
      words[0] := OneWord(value, t, ieee);
      assert words[..] == [OneWord(value, t, ieee)] + seq(3, _ => 0);
    } else {
      assert words[count..] == seq(4 - count, _ => 0);
      StoreWords(Pattern(value, t, ieee), words, count, order);
    }
  }

  // ---- Reordering is an involution ----

  lemma SwapTwice(w: Word)
    ensures SwapBytes(SwapBytes(w)) == w
  {
    var hi, lo := w / 256, w % 256;
    assert w == hi * 256 + lo && hi < 256;
    BytePair(lo, hi);
  }

  lemma BytePair(hi: nat, lo: nat)
    requires hi < 256 && lo < 256
    ensures (hi * 256 + lo) / 256 == hi && (hi * 256 + lo) % 256 == lo
  {}

  lemma MappedTwice(ws: seq<Word>, f: Word -> Word)
    requires forall w: Word :: f(f(w)) == w
    ensures Mapped(Mapped(ws, f), f) == ws
  {}

  lemma MappedReversed(ws: seq<Word>, f: Word -> Word)
    ensures Reversed(Mapped(ws, f)) == Mapped(Reversed(ws), f)
  {}

  lemma ReversedTwice(ws: seq<Word>)
    ensures Reversed(Reversed(ws)) == ws
  {}

  lemma SwappedTwice(ws: seq<Word>)
    ensures SwappedAll(SwappedAll(ws)) == ws
  {
    forall w: Word ensures SwapBytes(SwapBytes(w)) == w { SwapTwice(w); }
    MappedTwice(ws, SwapBytes);
  }

  lemma ArrangedTwice(ws: seq<Word>, order: ByteOrder)
    ensures Arranged(Arranged(ws, order), order) == ws
  {
    match order {
      case ABCD =>
      case CDAB => ReversedTwice(ws);
      case BADC => SwappedTwice(ws);
      case DCBA =>
        MappedReversed(Reversed(ws), SwapBytes);
        ReversedTwice(ws);
        SwappedTwice(ws);
    }
  }

  lemma {:induction false} BitsOfWords(bits: nat, n: nat)
    requires bits < Capacity(n)
    ensures Bits(Words(bits, n)) == bits
    decreases n
  {
    if n == 0 {
    } else {
      var ws := Words(bits, n);
      assert ws[..n - 1] == Words(bits / 0x1_0000, n - 1);
      BitsOfWords(bits / 0x1_0000, n - 1);
    }
  }

  lemma {:induction false} WordsOfBits(ws: seq<Word>)
    ensures Bits(ws) < Capacity(|ws|)
    ensures Words(Bits(ws), |ws|) == ws
    decreases |ws|
  {
    if ws == [] {
    } else {
      WordsOfBits(ws[..|ws| - 1]);
    }
  }

  // ---- Round trips ----

  predicate IsInteger(t: DataType) {
    t.Int16? || t.UInt16? || t.Int32? || t.UInt32? || t.Int64? || t.UInt64?
  }

  predicate IsSigned(t: DataType) { t.Int16? || t.Int32? || t.Int64? }

  // The integers that a type, a double and llround can all hold.
  predicate InRange(v: int, t: DataType)
    requires IsInteger(t)
  {
    && InLongLong(v) && (RegisterCount(t) == 4 ==> IsDouble(v))
    && if IsSigned(t) then 0 <= 2 * v + Capacity(RegisterCount(t)) && 2 * v < Capacity(RegisterCount(t))
       else 0 <= v < Capacity(RegisterCount(t))
  }

  // The double the decoder returns for an integer.
  function AsDouble(v: int, t: DataType): int {
    if RegisterCount(t) == 4 then NearestDouble(v) else v
  }

  lemma RoundInteger(v: int, ieee: Ieee)
    ensures Rounded(v as real) == v
    ensures LLRound(v as real, ieee) == if InLongLong(v) then v else ieee.beyond(v as real)
  {}

  lemma SignedWraps(v: int, n: nat)
    requires 0 <= 2 * v + Capacity(n) && 2 * v < Capacity(n)
    ensures Signed(v % Capacity(n), n) == v
  {
    var c := Capacity(n);
    if v >= 0 {
      ModSmall(v, c);
      ModSmall(v % c, c);
    } else {
      ModNegative(v, c);
      ModSmall(v % c, c);
    }
  }

  lemma ModSmall(x: nat, c: nat)
    requires x < c
    ensures x % c == x
  {}

  lemma ModNegative(v: int, c: nat)
    requires v < 0 <= v + c
    ensures v % c == v + c
  {
    assert v == c * (-1) + (v + c);
  }

  /** Encoding a value and decoding the words gives the value back: 32- and 64-bit integers
      in every order, 16-bit integers in the two orders that keep bytes in place. */
  lemma DecodeUndoesEncode(v: int, t: DataType, order: ByteOrder, bitIndex: nat, ieee: Ieee)
    requires IsInteger(t) && InRange(v, t)
    requires RegisterCount(t) == 1 ==> !order.Swaps()
    ensures Decode(Encode(v as real, t, order, ieee), t, order, bitIndex, ieee) == v as real
  {
    var n := RegisterCount(t);
    var bits := v % Capacity(n);
    EncodedInteger(v, t, order, ieee);
    var encoded := Arranged(Words(bits, n), order);
    BitsOfWords(bits, n);
    ArrangedTwice(Words(bits, n), order);
    DecodedInteger(encoded, t, order, bitIndex, ieee);
    IntegerOfResidue(v, t);
    NearestIff(v);
  }

  // The number the decoder makes of assembled bits.
  function IntegerOf(bits: nat, t: DataType): int
    requires IsInteger(t)
  {
    var n := RegisterCount(t);
    if IsSigned(t) then Signed(bits, n) else bits % Capacity(n)
  }

  lemma DecodedInteger(ws: seq<Word>, t: DataType, order: ByteOrder, bitIndex: nat, ieee: Ieee)
    requires IsInteger(t) && |ws| == RegisterCount(t)
    ensures Decode(ws, t, order, bitIndex, ieee) == AsDouble(IntegerOf(Bits(Arranged(ws, order)), t), t) as real
  {
    assert ws[..RegisterCount(t)] == ws;
  }

  lemma IntegerOfResidue(v: int, t: DataType)
    requires IsInteger(t) && InRange(v, t)
    ensures IntegerOf(v % Capacity(RegisterCount(t)), t) == v
  {
    var n := RegisterCount(t);
    if IsSigned(t) { SignedWraps(v, n); } else { ModSmall(v, Capacity(n)); }
  }

  lemma ResidueOfInteger(bits: nat, t: DataType)
    requires IsInteger(t) && bits < Capacity(RegisterCount(t))
    ensures IntegerOf(bits, t) % Capacity(RegisterCount(t)) == bits
  {
    var n := RegisterCount(t);
    if IsSigned(t) { SignedResidue(bits, n); } else { ModSmall(bits, Capacity(n)); }
  }

  lemma EncodedInteger(v: int, t: DataType, order: ByteOrder, ieee: Ieee)
    requires IsInteger(t) && (RegisterCount(t) == 1 ==> !order.Swaps())
    ensures var n := RegisterCount(t);
            Encode(v as real, t, order, ieee) == Arranged(Words(LLRound(v as real, ieee) % Capacity(n), n), order)
    ensures InLongLong(v) ==> LLRound(v as real, ieee) == v
  {
    RoundInteger(v, ieee);
    if RegisterCount(t) == 1 {
      Capacities();
      var bits := LLRound(v as real, ieee) % 0x1_0000;
      assert Words(bits / 0x1_0000, 0) == [];
      assert Words(bits, 1) == [bits];
      assert Arranged([bits], order) == [bits];
    }
  }

  lemma SignedResidue(bits: nat, n: nat)
    requires bits < Capacity(n)
    ensures Signed(bits, n) % Capacity(n) == bits
  {
    var c := Capacity(n);
    ModSmall(bits, c);
    if 2 * bits >= c { ModNegative(bits - c, c); }
  }

  // The words of an encoded integer are those received exactly when the residues agree.
  lemma SameWordsIff(ws: seq<Word>, x: nat, order: ByteOrder)
    requires x < Capacity(|ws|)
    ensures Arranged(Words(x, |ws|), order) == ws <==> x == Bits(Arranged(ws, order))
  {
    WordsOfBits(Arranged(ws, order));
    BitsOfWords(x, |ws|);
    ArrangedTwice(ws, order);
    ArrangedTwice(Words(x, |ws|), order);
  }

  lemma IntegerOfBounds(bits: nat, t: DataType)
    requires IsInteger(t) && bits < Capacity(RegisterCount(t))
    ensures RegisterCount(t) < 4 ==> InLongLong(IntegerOf(bits, t))
    ensures Magnitude(IntegerOf(bits, t)) < 0x1_0000_0000_0000_0000
  {
    Capacities();
    ModSmall(bits, Capacity(RegisterCount(t)));
  }

  // Rounding moves a 64-bit integer by less than its modulus.
  lemma RoundedResidueIff(v: int)
    requires Magnitude(v) < 0x1_0000_0000_0000_0000
    ensures NearestDouble(v) % Capacity(4) == v % Capacity(4) <==> IsDouble(v)
  {
    Capacities();
    assert MANTISSA * Power2(11) == 0x1_0000_0000_0000_0000 && Power2(11) == 2048 by {
      assert Power2(5) == 32;
      assert Power2(6) == 64 && Power2(7) == 128 && Power2(8) == 256 && Power2(9) == 512 && Power2(10) == 1024;
    }
    UlpBound(Magnitude(v), 11);
    NearestIff(v);
    CloseResidues(NearestDouble(v), v);
  }

  lemma CloseResidues(x: int, y: int)
    requires Magnitude(x - y) < 0x1_0000_0000_0000_0000
    ensures x % 0x1_0000_0000_0000_0000 == y % 0x1_0000_0000_0000_0000 <==> x == y
  {}

  /** When the decoded value is within llround's reach: the integer is a double. Beyond it the
      platform decides. Only 64-bit integers are ever in doubt. */
  predicate ComesBack(v: int, t: DataType, ieee: Ieee) {
    RegisterCount(t) == 4 ==>
      if InLongLong(NearestDouble(v)) then IsDouble(v)
      else ieee.beyond(NearestDouble(v) as real) % Capacity(4) == v % Capacity(4)
  }

  /** Decoding received words and encoding the value gives the words back, in all four orders
      (16-bit words in the two that keep bytes in place), exactly when the integer survives
      the double: always for 16 and 32 bits, up to 53 significant bits for 64. */
  lemma EncodeUndoesDecodeIff(ws: seq<Word>, t: DataType, order: ByteOrder, bitIndex: nat, ieee: Ieee)
    requires IsInteger(t) && |ws| == RegisterCount(t)
    requires RegisterCount(t) == 1 ==> !order.Swaps()
    ensures Encode(Decode(ws, t, order, bitIndex, ieee), t, order, ieee) == ws <==>
              ComesBack(IntegerOf(Bits(Arranged(ws, order)), t), t, ieee)
  {
    var bits := Bits(Arranged(ws, order));
    var v := IntegerOf(bits, t);
    var d := AsDouble(v, t);
    DecodedInteger(ws, t, order, bitIndex, ieee);
    WordsOfBits(Arranged(ws, order));
    EncodedInteger(d, t, order, ieee);
    RoundInteger(d, ieee);
    SameWordsIff(ws, LLRound(d as real, ieee) % Capacity(RegisterCount(t)), order);
    ResidueOfInteger(bits, t);
    IntegerOfBounds(bits, t);
    if RegisterCount(t) == 4 { RoundedResidueIff(v); }
  }

  /** The first integer that does not: 2^53 + 1 comes back as 2^53. */
  lemma FirstIntegerLost(ieee: Ieee)
    ensures Encode(Decode([0x20, 0, 0, 1], UInt64, ABCD, 0, ieee), UInt64, ABCD, ieee) != [0x20, 0, 0, 1]
  {
    var ws: seq<Word> := [0x20, 0, 0, 1];
    assert ws[..3][..2][..1][..0] == [];
    assert ws[..3][..2][..1] == [0x20] && ws[..3][..2] == [0x20, 0] && ws[..3] == [0x20, 0, 0];
    assert Bits(ws[..3][..2][..1]) == 0x20;
    assert Bits(ws[..3][..2]) == 0x20_0000;
    assert Bits(ws[..3]) == 0x20_0000_0000;
    assert Bits(ws) == MANTISSA + 1;
    Capacities();
    ModSmall(MANTISSA + 1, Capacity(4));
    assert Ulp((MANTISSA + 1) / 2) == 1;
    assert NearestDouble(MANTISSA + 1) == MANTISSA;
    EncodeUndoesDecodeIff(ws, UInt64, ABCD, 0, ieee);
  }

  lemma SingleWord(ws: seq<Word>, order: ByteOrder)
    requires |ws| == 1
    ensures Bits(Arranged(ws, order)) == if order.Swaps() then SwapBytes(ws[0]) else ws[0]
  {
    var a := Arranged(ws, order);
    assert Bits(a[..0]) == 0;
    assert Bits(a) == Bits(a[..0]) * 0x1_0000 + a[0];
  }

  /** The encoder returns 16-bit integers before it swaps bytes, so in the swapping orders the
      words come back exactly when their two bytes are equal. */
  lemma SixteenBitRoundTripIff(w: Word, t: DataType, order: ByteOrder, bitIndex: nat, ieee: Ieee)
    requires t.Int16? || t.UInt16?
    ensures Encode(Decode([w], t, order, bitIndex, ieee), t, order, ieee) == [w] <==>
              !order.Swaps() || w / 256 == w % 256
  {
    var bits := Bits(Arranged([w], order));
    DecodedInteger([w], t, order, bitIndex, ieee);
    SingleWord([w], order);
    Capacities();
    ResidueOfInteger(bits, t);
    IntegerOfBounds(bits, t);
    Encoded16(IntegerOf(bits, t), t, order, ieee);
    SwapFixpoint(w);
  }

  lemma Encoded16(v: int, t: DataType, order: ByteOrder, ieee: Ieee)
    requires (t.Int16? || t.UInt16?) && InLongLong(v)
    ensures Encode(v as real, t, order, ieee) == [v % 0x1_0000]
  {
    RoundInteger(v, ieee);
    assert OneWord(v as real, t, ieee) == LLRound(v as real, ieee) % 0x1_0000;
  }

  lemma SwapFixpoint(w: Word)
    ensures SwapBytes(w) == w <==> w / 256 == w % 256
  {}

  predicate IsBcd(w: Word) { w / 4096 <= 9 && w / 256 % 16 <= 9 && w / 16 % 16 <= 9 && w % 16 <= 9 }

  /** Four BCD digits come back exactly when all four nibbles are digits. */
  lemma BcdRoundTripIff(w: Word, order: ByteOrder, bitIndex: nat, ieee: Ieee)
    requires !order.Swaps()
    ensures Encode(Decode([w], Bcd16, order, bitIndex, ieee), Bcd16, order, ieee) == [w] <==> IsBcd(w)
  {
    DecodedBcd(w, order, bitIndex, ieee);
    BcdDigitsOfValue(w);
    EncodedBcd(BcdValue(w), order, ieee);
  }

  lemma DecodedBcd(w: Word, order: ByteOrder, bitIndex: nat, ieee: Ieee)
    requires !order.Swaps()
    ensures Decode([w], Bcd16, order, bitIndex, ieee) == BcdValue(w) as real
  {
    assert [w][..1] == [w];
    SingleWord([w], order);
  }

  lemma EncodedBcd(v: nat, order: ByteOrder, ieee: Ieee)
    requires v < 0x1_0000
    ensures Encode(v as real, Bcd16, order, ieee) == [BcdDigits(v)]
  {
    var m := LLRound(v as real, ieee) % 0x1_0000;
    assert m == v by {
      RoundInteger(v, ieee);
      ModSmall(v, 0x1_0000);
    }
    assert OneWord(v as real, Bcd16, ieee) == BcdDigits(m);
  }

  lemma BcdDigitsOfValue(w: Word)
    ensures BcdValue(w) < 0x1_0000
    ensures BcdDigits(BcdValue(w)) == w <==> IsBcd(w)
  {
    DigitsAreBcd(BcdValue(w));
    if IsBcd(w) {
      var a, b, c, d := w / 4096, w / 256 % 16, w / 16 % 16, w % 16;
      Hexadecimal(w);
      Decimal(a, b, c, d);
      assert BcdValue(w) == a * 1000 + b * 100 + c * 10 + d;
    }
  }

  // The nibbles of a word, and the word from its nibbles.
  lemma Hexadecimal(w: Word)
    ensures w == w / 4096 * 4096 + w / 256 % 16 * 256 + w / 16 % 16 * 16 + w % 16
    ensures w / 4096 == w / 4096 % 16
  {
    assert w / 256 == w / 16 / 16;
    assert w / 4096 == w / 16 / 16 / 16;
  }

  lemma Nibbles(a: nat, b: nat, c: nat, d: nat)
    requires a <= 15 && b <= 15 && c <= 15 && d <= 15
    ensures var w := a * 4096 + b * 256 + c * 16 + d;
            w / 4096 == a && w / 256 % 16 == b && w / 16 % 16 == c && w % 16 == d
  {
    var w := a * 4096 + b * 256 + c * 16 + d;
    assert w / 16 == a * 256 + b * 16 + c;
    assert w / 256 == a * 16 + b;
  }

  lemma Decimal(a: nat, b: nat, c: nat, d: nat)
    requires a <= 9 && b <= 9 && c <= 9 && d <= 9
    ensures var n := a * 1000 + b * 100 + c * 10 + d;
            n / 1000 % 10 == a && n / 100 % 10 == b && n / 10 % 10 == c && n % 10 == d
  {
    var n := a * 1000 + b * 100 + c * 10 + d;
    assert n / 10 == a * 100 + b * 10 + c;
    assert n / 100 == a * 10 + b;
  }

  lemma DigitsAreBcd(n: nat)
    ensures IsBcd(BcdDigits(n))
  {
    Nibbles(n / 1000 % 10, n / 100 % 10, n / 10 % 10, n % 10);
  }

  lemma DecimalValue(n: nat)
    requires n <= 9999
    ensures n == n / 1000 % 10 * 1000 + n / 100 % 10 * 100 + n / 10 % 10 * 10 + n % 10
  {
    assert n / 100 == n / 10 / 10;
    assert n / 1000 == n / 10 / 10 / 10;
  }

  /** Numbers 0..9999 survive encoding and decoding as BCD. */
  lemma BcdValueRoundTrip(v: nat, order: ByteOrder, bitIndex: nat, ieee: Ieee)
    requires v <= 9999 && !order.Swaps()
    ensures Decode(Encode(v as real, Bcd16, order, ieee), Bcd16, order, bitIndex, ieee) == v as real
  {
    EncodedBcd(v, order, ieee);
    DecodedBcd(BcdDigits(v), order, bitIndex, ieee);
    ValueOfDigits(v);
  }

  lemma ValueOfDigits(v: nat)
    requires v <= 9999
    ensures BcdValue(BcdDigits(v)) == v
  {
    Nibbles(v / 1000 % 10, v / 100 % 10, v / 10 % 10, v % 10);
    Hexadecimal(BcdDigits(v));
    DecimalValue(v);
  }

  /** A floating-point pattern comes back in every order when the platform conversion
      gives that pattern back. */
  lemma FloatRoundTrip(ws: seq<Word>, t: DataType, order: ByteOrder, bitIndex: nat, ieee: Ieee)
    requires t.Float32? || t.Float64?
    requires |ws| == RegisterCount(t)
    requires var bits := Bits(Arranged(ws, order));
             if t.Float32? then ieee.pattern32(ieee.number32(bits)) == bits else ieee.pattern64(ieee.number64(bits)) == bits
    ensures Encode(Decode(ws, t, order, bitIndex, ieee), t, order, ieee) == ws
  {
    var bits := Bits(Arranged(ws, order));
    assert ws[..|ws|] == ws;
    assert Pattern(Decode(ws, t, order, bitIndex, ieee), t, ieee) == bits;
    BitsFit(ws, order);
    SameWordsIff(ws, bits, order);
  }

  lemma BitsFit(ws: seq<Word>, order: ByteOrder)
    ensures Bits(Arranged(ws, order)) < Capacity(|ws|)
  {
    WordsOfBits(Arranged(ws, order));
  }
}
