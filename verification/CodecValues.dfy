/** What the register codec of main/modbus/modbus_access.c means: the value of the bytes on the
    wire in each of the four orders, and how values are rounded. */
module CodecValues {
  import opened ModbusCodec
  import opened ModbusPdu

  // ---- The bytes of a value ----

  function ByteOf(w: Word, low: bool): nat { if low then w % 256 else w / 256 }

  function Low(low: bool): nat { if low then 1 else 0 }

  /** Registers as they are sent, high byte first. */
  function WireBytes(ws: seq<Word>): (bytes: seq<nat>)
    ensures |bytes| == 2 * |ws|
  {
    if ws == [] then [] else WireBytes(ws[..|ws| - 1]) + [ByteOf(ws[|ws| - 1], false), ByteOf(ws[|ws| - 1], true)]
  }

  /** Where on the wire the i-th byte of a value of n bytes is, the most significant byte first:
      for four bytes the places 0 1 2 3, 2 3 0 1, 1 0 3 2 and 3 2 1 0. */
  function Place(order: ByteOrder, i: nat, n: nat): int {
    match order
    case ABCD => i
    case CDAB => if i % 2 == 0 then n - 2 - i else n - i
    case BADC => if i % 2 == 0 then i + 1 else i - 1
    case DCBA => n - 1 - i
  }

  lemma PlaceInside(order: ByteOrder, i: nat, n: nat)
    requires i < n && n % 2 == 0
    ensures 0 <= Place(order, i, n) < n
  {}

  /** The number whose bytes these are, the most significant first. */
  function BigEndian(bytes: seq<nat>): nat {
    if bytes == [] then 0 else BigEndian(bytes[..|bytes| - 1]) * 256 + bytes[|bytes| - 1]
  }

  /** The number that registers hold in a byte order. */
  function WireNumber(ws: seq<Word>, order: ByteOrder): nat { BigEndian(InOrder(WireBytes(ws), order)) }

  function InOrder(bytes: seq<nat>, order: ByteOrder): (r: seq<nat>)
    requires |bytes| % 2 == 0
    ensures |r| == |bytes|
  {
    seq(|bytes|, i requires 0 <= i < |bytes| => PlaceInside(order, i, |bytes|); bytes[Place(order, i, |bytes|)])
  }

  lemma {:induction false} BitsAreBytes(ws: seq<Word>)
    ensures Bits(ws) == BigEndian(WireBytes(ws))
    decreases |ws|
  {
    if ws != [] {
      var front, w := ws[..|ws| - 1], ws[|ws| - 1];
      var bytes := WireBytes(ws);
      BitsAreBytes(front);
      var head := bytes[..|bytes| - 1];
      assert bytes[|bytes| - 1] == w % 256 && head == WireBytes(front) + [w / 256];
      assert head[..|head| - 1] == WireBytes(front);
    }
  }

  lemma {:induction false} ByteOfWord(ws: seq<Word>, k: nat, low: bool)
    requires k < |ws|
    ensures WireBytes(ws)[2 * k + Low(low)] == ByteOf(ws[k], low)
    decreases |ws|
  {
    if k < |ws| - 1 { ByteOfWord(ws[..|ws| - 1], k, low); }
  }

  lemma PlaceOfByte(order: ByteOrder, n: nat, k: nat, low: bool)
    requires k < n
    ensures Place(order, 2 * k + Low(low), 2 * n) ==
              2 * SourceOf(order, n, k) + Low(low != order.Swaps())
  {}

  lemma ArrangedWord(ws: seq<Word>, order: ByteOrder, k: nat)
    requires k < |ws|
    ensures Arranged(ws, order)[k] ==
              var w := ws[SourceOf(order, |ws|, k)]; if order.Swaps() then SwapBytes(w) else w
  {}

  lemma SameByte(a: Word, w: Word, swaps: bool, low: bool)
    requires a == if swaps then SwapBytes(w) else w
    ensures ByteOf(a, low) == ByteOf(w, low != swaps)
  {
    SwappedParts(w);
  }

  // The word that order puts at k.
  function SourceOf(order: ByteOrder, n: nat, k: nat): int { if order.Reverses() then n - 1 - k else k }

  lemma ByteMoved(ws: seq<Word>, a: seq<Word>, k: nat, k': nat, swaps: bool, low: bool)
    requires k < |a| && k' < |ws| && a[k] == if swaps then SwapBytes(ws[k']) else ws[k']
    ensures WireBytes(a)[2 * k + Low(low)] == WireBytes(ws)[2 * k' + Low(low != swaps)]
  {
    SameByte(a[k], ws[k'], swaps, low);
    ByteOfWord(ws, k', low != swaps);
    ByteOfWord(a, k, low);
  }

  // As ByteMoved, with the places of the byte given.
  lemma PlaceMoved(ws: seq<Word>, a: seq<Word>, k: nat, k': nat, swaps: bool, low: bool, i: nat, place: nat)
    requires k < |a| && k' < |ws| && a[k] == if swaps then SwapBytes(ws[k']) else ws[k']
    requires i == 2 * k + Low(low) && place == 2 * k' + Low(low != swaps)
    ensures WireBytes(a)[i] == WireBytes(ws)[place]
  {
    ByteMoved(ws, a, k, k', swaps, low);
  }

  lemma PlaceIs(order: ByteOrder, n: nat, i: nat)
    requires i < 2 * n
    ensures i == 2 * (i / 2) + Low(i % 2 == 1)
    ensures Place(order, i, 2 * n) == 2 * SourceOf(order, n, i / 2) + Low((i % 2 == 1) != order.Swaps())
  {
    PlaceOfByte(order, n, i / 2, i % 2 == 1);
  }

  // Byte i of `a` is the byte of `bytes` at its place.
  ghost predicate Placed(a: seq<nat>, bytes: seq<nat>, order: ByteOrder, i: nat)
    requires i < |a|
  {
    0 <= Place(order, i, |bytes|) < |bytes| && a[i] == bytes[Place(order, i, |bytes|)]
  }

  lemma ArrangedPlace(ws: seq<Word>, order: ByteOrder, i: nat)
    requires i < 2 * |ws|
    ensures Placed(WireBytes(Arranged(ws, order)), WireBytes(ws), order, i)
  {
    PlaceInside(order, i, 2 * |ws|);
    PlaceIs(order, |ws|, i);
    ArrangedWord(ws, order, i / 2);
    PlaceMoved(ws, Arranged(ws, order), i / 2, SourceOf(order, |ws|, i / 2), order.Swaps(), i % 2 == 1,
               i, Place(order, i, 2 * |ws|));
  }

  lemma SwappedParts(w: Word)
    ensures forall low :: ByteOf(SwapBytes(w), low) == ByteOf(w, !low)
  {}

  lemma WireNumberIs(ws: seq<Word>, order: ByteOrder)
    ensures Bits(Arranged(ws, order)) == WireNumber(ws, order)
  {
    BitsAreBytes(Arranged(ws, order));
    ArrangedInOrder(ws, order);
  }

  lemma AllInOrder(a: seq<nat>, bytes: seq<nat>, order: ByteOrder)
    requires |a| == |bytes| && |bytes| % 2 == 0 && forall i :: 0 <= i < |a| ==> Placed(a, bytes, order, i)
    ensures a == InOrder(bytes, order)
  {
    forall i | 0 <= i < |a| ensures a[i] == InOrder(bytes, order)[i] {
      assert Placed(a, bytes, order, i);
    }
  }

  lemma ArrangedInOrder(ws: seq<Word>, order: ByteOrder)
    ensures WireBytes(Arranged(ws, order)) == InOrder(WireBytes(ws), order)
  {
    forall i: nat | i < 2 * |ws| ensures Placed(WireBytes(Arranged(ws, order)), WireBytes(ws), order, i) {
      ArrangedPlace(ws, order, i);
    }
    AllInOrder(WireBytes(Arranged(ws, order)), WireBytes(ws), order);
  }

  // ---- Decoded values ----

  /** The registers of each type. */
  function Size(t: DataType): nat {
    match t
    case Float32 | Int32 | UInt32 => 2
    case Float64 | Int64 | UInt64 => 4
    case _ => 1
  }

  /** Two's complement, for the signed types. */
  function Number(x: nat, t: DataType): int {
    match t
    case Int16 => if x >= 0x8000 then x - 0x1_0000 else x
    case Int32 => if x >= 0x8000_0000 then x - 0x1_0000_0000 else x
    case Int64 => if x >= 0x8000_0000_0000_0000 then x - 0x1_0000_0000_0000_0000 else x
    case _ => x
  }

  lemma {:induction false} BitIs(x: nat, i: nat)
    ensures Bit(x, i) == x / Power2(i) % 2
  {
    if i > 0 {
      BitIs(x / 2, i - 1);
      DivTwice(x, 2, Power2(i - 1));
    }
  }

  lemma DivTwice(x: nat, a: nat, b: nat)
    requires a > 0 && b > 0
    ensures a * b > 0 && x / a / b == x / (a * b)
  {
    var q, r := x / a, x % a;
    var q', r' := q / b, q % b;
    Composed(x, a, b, q, r, q', r');
    Within(a, b, r, r');
    DivUnique(x, a * b, q', a * r' + r);
  }

  lemma Composed(x: nat, a: nat, b: nat, q: nat, r: nat, q': nat, r': nat)
    requires x == a * q + r && q == b * q' + r'
    ensures x == (a * b) * q' + (a * r' + r)
  {
    Distribute(a, b, q', r');
  }

  lemma Distribute(a: nat, b: nat, q: nat, r: nat)
    ensures a * (b * q + r) == a * b * q + a * r
  {}

  lemma Within(a: nat, b: nat, r: nat, r': nat)
    requires r < a && r' < b
    ensures a * r' + r < a * b
  {
    assert a * r' <= a * (b - 1);
  }

  /** Every type reads the number of its bytes in the order given: integers in two's complement,
      64-bit ones as the nearest double, floats by their pattern, one bit of a bit field. */
  lemma DecodedValue(ws: seq<Word>, t: DataType, order: ByteOrder, bitIndex: nat, ieee: Ieee)
    requires |ws| == Size(t)
    ensures RegisterCount(t) == Size(t)
    ensures var x, v := WireNumber(ws, order), Decode(ws, t, order, bitIndex, ieee);
            match t
            case Int16 | UInt16 | Int32 | UInt32 => v == Number(x, t) as real
            case Int64 | UInt64 => v == NearestDouble(Number(x, t)) as real
            case Float32 => v == ieee.number32(x)
            case Float64 => v == ieee.number64(x)
            case Bool => v == (if ws[0] == 0 then 0.0 else 1.0)
            case Bitfield16 => v == (x / Power2(bitIndex % 16) % 2) as real
            case Bcd16 => v == BcdValue(x) as real
            case Ascii => v == 0.0
  {
    if IsInteger(t) { DecodedNumber(ws, t, order, bitIndex, ieee); } else { DecodedPattern(ws, t, order, bitIndex, ieee); }
  }

  lemma NumberInWords(ws: seq<Word>, t: DataType, order: ByteOrder)
    requires |ws| == Size(t) && IsInteger(t)
    ensures IntegerOf(Bits(Arranged(ws, order)), t) == Number(WireNumber(ws, order), t)
  {
    WireNumberIs(ws, order);
    WordsOfBits(Arranged(ws, order));
    NumberIs(WireNumber(ws, order), t);
  }

  lemma DecodedNumber(ws: seq<Word>, t: DataType, order: ByteOrder, bitIndex: nat, ieee: Ieee)
    requires |ws| == Size(t) && IsInteger(t)
    ensures var v := Number(WireNumber(ws, order), t);
            Decode(ws, t, order, bitIndex, ieee) == (if Size(t) == 4 then NearestDouble(v) else v) as real
  {
    NumberInWords(ws, t, order);
    DecodedInteger(ws, t, order, bitIndex, ieee);
  }

  lemma DecodedPattern(ws: seq<Word>, t: DataType, order: ByteOrder, bitIndex: nat, ieee: Ieee)
    requires |ws| == Size(t) && !IsInteger(t)
    ensures var x, v := WireNumber(ws, order), Decode(ws, t, order, bitIndex, ieee);
            match t
            case Float32 => v == ieee.number32(x)
            case Float64 => v == ieee.number64(x)
            case Bool => v == (if ws[0] == 0 then 0.0 else 1.0)
            case Bitfield16 => v == (x / Power2(bitIndex % 16) % 2) as real
            case Bcd16 => v == BcdValue(x) as real
            case _ => v == 0.0
  {
    assert ws[..RegisterCount(t)] == ws;
    WireNumberIs(ws, order);
    BitIs(WireNumber(ws, order), bitIndex % 16);
  }

  lemma NumberIs(x: nat, t: DataType)
    requires IsInteger(t) && x < Capacity(Size(t))
    ensures IntegerOf(x, t) == Number(x, t)
  {
    Capacities();
    ModSmall(x, Capacity(Size(t)));
  }

  /** A decimal number is read from its hexadecimal digits. */
  lemma BcdReads(a: nat, b: nat, c: nat, d: nat)
    requires a < 16 && b < 16 && c < 16 && d < 16
    ensures BcdValue(a * 4096 + b * 256 + c * 16 + d) == a * 1000 + b * 100 + c * 10 + d
  {
    Nibbles(a, b, c, d);
    Hexadecimal(a * 4096 + b * 256 + c * 16 + d);
  }

  // ---- Encoded values ----

  /** llround: the nearest integer, and of two the one farther from zero. */
  lemma RoundedIsNearest(x: real)
    ensures -0.5 <= Rounded(x) as real - x <= 0.5
    ensures Rounded(x) as real - x == 0.5 ==> x > 0.0
    ensures Rounded(x) as real - x == -0.5 ==> x < 0.0
  {}

  function Modulus(t: DataType): nat { if Size(t) == 1 then 0x1_0000 else if Size(t) == 2 then 0x1_0000_0000 else 0x1_0000_0000_0000_0000 }

  /** Every type is written as the number of its bytes in the order given, integers rounded and
      taken modulo their size; a single register is written high byte first in every order. */
  lemma EncodedValue(v: real, t: DataType, order: ByteOrder, ieee: Ieee)
    ensures var ws := Encode(v, t, order, ieee);
            && |ws| == (if t.Ascii? then 0 else Size(t))
            && match t
               case Int16 | UInt16 | Bitfield16 => InLongLong(Rounded(v)) ==> ws == [Rounded(v) % 0x1_0000]
               case Int32 | UInt32 | Int64 | UInt64 => InLongLong(Rounded(v)) ==> WireNumber(ws, order) == Rounded(v) % Modulus(t)
               case Float32 => ieee.pattern32(v) < Modulus(t) ==> WireNumber(ws, order) == ieee.pattern32(v)
               case Float64 => ieee.pattern64(v) < Modulus(t) ==> WireNumber(ws, order) == ieee.pattern64(v)
               case Bool => ws == [if v == 0.0 then 0 else 1]
               case Bcd16 => InLongLong(Rounded(v)) ==> ws == [BcdDigits(Rounded(v) % 0x1_0000)]
               case Ascii => ws == []
  {
    Capacities();
    if Size(t) > 1 && Pattern(v, t, ieee) < Modulus(t) { EncodedWide(v, t, order, ieee); }
  }

  lemma EncodedWide(v: real, t: DataType, order: ByteOrder, ieee: Ieee)
    requires Size(t) > 1 && Pattern(v, t, ieee) < Modulus(t)
    ensures WireNumber(Encode(v, t, order, ieee), order) == Pattern(v, t, ieee)
  {
    var x := Pattern(v, t, ieee);
    Capacities();
    ArrangedTwice(Words(x, Size(t)), order);
    WireNumberIs(Encode(v, t, order, ieee), order);
    BitsOfWords(x, Size(t));
  }

  /** And a decimal number as its digits. */
  lemma BcdWrites(a: nat, b: nat, c: nat, d: nat)
    requires a <= 9 && b <= 9 && c <= 9 && d <= 9
    ensures BcdDigits(a * 1000 + b * 100 + c * 10 + d) == a * 4096 + b * 256 + c * 16 + d
  {
    Decimal(a, b, c, d);
  }

  // ---- Doubles ----

  /** The spacing of doubles: 1 below 2^53, else the power of two that scales the magnitude into
      [2^52, 2^53). */
  lemma {:induction false} UlpScale(a: nat) returns (k: nat)
    ensures Ulp(a) == Power2(k)
    ensures if a < 0x20_0000_0000_0000 then k == 0 else 0x10_0000_0000_0000 * Ulp(a) <= a < 0x20_0000_0000_0000 * Ulp(a)
  {
    if a < MANTISSA {
      k := 0;
    } else {
      k := UlpScale(a / 2);
      k := k + 1;
    }
  }

  lemma MultipleIsNearest(a: nat, u: nat)
    requires u > 0
    ensures var d := NearestMultiple(a, u);
            d % u == 0 && 2 * Magnitude(d - a) <= u && (2 * Magnitude(d - a) == u ==> d / u % 2 == 0)
  {
    MultipleBelow(a, u);
  }

  /** The conversion to a double gives the nearest multiple of the spacing, and of two the even one. */
  lemma DoubleIsNearest(v: int)
    ensures var a, u, d := Magnitude(v), Ulp(Magnitude(v)), Magnitude(NearestDouble(v));
            && d % u == 0 && 2 * Magnitude(d - a) <= u && (2 * Magnitude(d - a) == u ==> d / u % 2 == 0)
            && (NearestDouble(v) != 0 ==> (v < 0 <==> NearestDouble(v) < 0))
  {
    MultipleIsNearest(Magnitude(v), Ulp(Magnitude(v)));
  }

  lemma MultipleBelow(a: nat, u: nat)
    requires u > 0
    ensures (a - a % u) % u == 0 && (a - a % u + u) % u == 0
    ensures (a - a % u) / u == a / u && (a - a % u + u) / u == a / u + 1
  {
    assert a - a % u == u * (a / u);
    DivUnique(a - a % u, u, a / u, 0);
    assert a - a % u + u == u * (a / u + 1) by { assert u * (a / u + 1) == u * (a / u) + u; }
    DivUnique(a - a % u + u, u, a / u + 1, 0);
    Remainder(u * (a / u), u, a / u);
    Remainder(u * (a / u + 1), u, a / u + 1);
  }

  lemma Remainder(x: nat, u: nat, q: nat)
    requires u > 0 && x == u * q
    ensures x % u == 0
  {
    DivUnique(x, u, q, 0);
  }
}
