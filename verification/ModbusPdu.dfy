/** Modbus protocol data units: what the TCP client builds and accepts
    (main/modbus/modbus_access.c) and what the TCP server answers
    (main/modbus/modbus_tcp_server.c). Reading a point and performing a write are parameters. */
module ModbusPdu {
  import opened Wrappers
  import opened ModbusCodec

  type Byte = b: int | 0 <= b < 256

  const MAX_PDU := 253

  function Hi(w: Word): Byte { w / 256 }

  function Lo(w: Word): Byte { w % 256 }

  function Join(hi: Byte, lo: Byte): Word { hi * 256 + lo }

  lemma JoinSplit(w: Word)
    ensures Join(Hi(w), Lo(w)) == w
  {}

  // ---- Bits in a byte ----

  function Pow2(j: nat): nat
    requires j < 8
  {
    if j == 0 then 1 else if j == 1 then 2 else if j == 2 then 4 else if j == 3 then 8
    else if j == 4 then 16 else if j == 5 then 32 else if j == 6 then 64 else 128
  }

  function ShiftedRight(b: Byte, j: nat): nat
    requires j < 8
  {
    if j == 0 then b else if j == 1 then b / 2 else if j == 2 then b / 4 else if j == 3 then b / 8
    else if j == 4 then b / 16 else if j == 5 then b / 32 else if j == 6 then b / 64 else b / 128
  }

  function TestBit(b: Byte, j: nat): bool
    requires j < 8
  {
    ShiftedRight(b, j) % 2 == 1
  }

  function SetBit(b: Byte, j: nat): Byte
    requires j < 8
  {
    if TestBit(b, j) then b else (BitRoom(b, j); b + Pow2(j))
  }

  lemma BitRoom(b: Byte, j: nat)
    requires j < 8 && !TestBit(b, j)
    ensures b + Pow2(j) < 256
  {}

  // A byte of packed flags: flag 8k + j is bit j of byte k, absent flags are clear.
  function Flag(values: seq<Word>, i: nat): (f: nat)
    ensures f <= 1
  {
    if i < |values| && values[i] != 0 then 1 else 0
  }

  function PackedByte(values: seq<Word>, k: nat): Byte {
    var i := 8 * k;
    Flag(values, i) + 2 * Flag(values, i + 1) + 4 * Flag(values, i + 2) + 8 * Flag(values, i + 3)
    + 16 * Flag(values, i + 4) + 32 * Flag(values, i + 5) + 64 * Flag(values, i + 6) + 128 * Flag(values, i + 7)
  }

  function ByteCount(n: nat): nat { (n + 7) / 8 }

  function PackTo(values: seq<Word>, size: nat): (bytes: seq<Byte>)
    ensures |bytes| == size
  {
    seq(size, k requires 0 <= k => PackedByte(values, k))
  }

  function Pack(values: seq<Word>): (bytes: seq<Byte>)
    ensures |bytes| == ByteCount(|values|)
  {
    PackTo(values, ByteCount(|values|))
  }

  lemma BitOfDigits(a: nat, b: nat, c: nat, d: nat, e: nat, f: nat, g: nat, h: nat, j: nat)
    requires a <= 1 && b <= 1 && c <= 1 && d <= 1 && e <= 1 && f <= 1 && g <= 1 && h <= 1 && j < 8
    ensures TestBit(a + 2 * b + 4 * c + 8 * d + 16 * e + 32 * f + 64 * g + 128 * h, j) <==>
              (if j == 0 then a else if j == 1 then b else if j == 2 then c else if j == 3 then d
               else if j == 4 then e else if j == 5 then f else if j == 6 then g else h) == 1
  {
    var x := a + 2 * b + 4 * c + 8 * d + 16 * e + 32 * f + 64 * g + 128 * h;
    if j == 0 { BitFrom(x, 1, 0, a, b + 2 * c + 4 * d + 8 * e + 16 * f + 32 * g + 64 * h); }
    else if j == 1 { BitFrom(x, 2, a, b, c + 2 * d + 4 * e + 8 * f + 16 * g + 32 * h); }
    else if j == 2 { BitFrom(x, 4, a + 2 * b, c, d + 2 * e + 4 * f + 8 * g + 16 * h); }
    else if j == 3 { BitFrom(x, 8, a + 2 * b + 4 * c, d, e + 2 * f + 4 * g + 8 * h); }
    else if j == 4 { BitFrom(x, 16, a + 2 * b + 4 * c + 8 * d, e, f + 2 * g + 4 * h); }
    else if j == 5 { BitFrom(x, 32, a + 2 * b + 4 * c + 8 * d + 16 * e, f, g + 2 * h); }
    else if j == 6 { BitFrom(x, 64, a + 2 * b + 4 * c + 8 * d + 16 * e + 32 * f, g, h); }
    else { BitFrom(x, 128, a + 2 * b + 4 * c + 8 * d + 16 * e + 32 * f + 64 * g, h, 0); }
  }

  lemma BitFrom(x: nat, p: nat, low: nat, bit: nat, rest: nat)
    requires p > 0 && low < p && bit <= 1
    requires x == p * (bit + 2 * rest) + low
    ensures x / p % 2 == bit
  {
    DivUnique(x, p, bit + 2 * rest, low);
  }

  lemma DivUnique(x: nat, d: nat, q: nat, r: nat)
    requires d > 0 && x == d * q + r && r < d
    ensures x / d == q
  {
    var q', r' := x / d, x % d;
    assert d * (q' - q) == r - r';
    if q' > q { MulAtLeast(d, q' - q); }
    if q' < q { MulAtLeast(d, q - q'); }
  }

  lemma MulAtLeast(d: nat, k: nat)
    requires k >= 1
    ensures d * k >= d
  {}

  lemma PackedBit(values: seq<Word>, k: nat, j: nat)
    requires j < 8
    ensures TestBit(PackedByte(values, k), j) <==> Flag(values, 8 * k + j) == 1
  {
    var i := 8 * k;
    BitOfDigits(Flag(values, i), Flag(values, i + 1), Flag(values, i + 2), Flag(values, i + 3),
                Flag(values, i + 4), Flag(values, i + 5), Flag(values, i + 6), Flag(values, i + 7), j);
  }

  // One more flag sets at most one bit of one byte.
  lemma PackStep(values: seq<Word>, i: nat, k: nat)
    requires i < |values|
    ensures PackedByte(values[..i + 1], k) ==
              if k == i / 8 && values[i] != 0 then SetBit(PackedByte(values[..i], k), i % 8)
              else PackedByte(values[..i], k)
  {
    var before, after := values[..i], values[..i + 1];
    forall m: nat ensures Flag(after, m) == if m == i then Flag(values, i) else Flag(before, m) {}
    assert Flag(before, i) == 0;
    if k == i / 8 {
      assert i == 8 * k + i % 8;
      PackedBit(before, k, i % 8);
    }
  }

  lemma PackToStep(values: seq<Word>, i: nat, size: nat)
    requires i < |values| && i / 8 < size
    ensures PackTo(values[..i + 1], size) ==
              if values[i] != 0 then PackTo(values[..i], size)[i / 8 := SetBit(PackedByte(values[..i], i / 8), i % 8)]
              else PackTo(values[..i], size)
  {
    forall k: nat | k < size
      ensures PackTo(values[..i + 1], size)[k] ==
                if k == i / 8 && values[i] != 0 then SetBit(PackedByte(values[..i], k), i % 8)
                else PackTo(values[..i], size)[k]
    {
      PackStep(values, i, k);
    }
  }

  // ---- Words on the wire ----

  function WordBytes(ws: seq<Word>): (bytes: seq<Byte>)
    ensures |bytes| == 2 * |ws|
  {
    if ws == [] then []
    else WordBytes(ws[..|ws| - 1]) + [Hi(ws[|ws| - 1]), Lo(ws[|ws| - 1])]
  }

  function WordsOf(bytes: seq<Byte>, n: nat): (ws: seq<Word>)
    requires 2 * n <= |bytes|
    ensures |ws| == n
  {
    seq(n, i requires 0 <= i < n => Join(bytes[2 * i], bytes[2 * i + 1]))
  }

  function CoilsOf(bytes: seq<Byte>, n: nat): (coils: seq<bool>)
    requires ByteCount(n) <= |bytes|
    ensures |coils| == n
  {
    seq(n, i requires 0 <= i < n => TestBit(bytes[i / 8], i % 8))
  }

  function AsCoils(values: seq<Word>): seq<bool> {
    seq(|values|, i requires 0 <= i < |values| => values[i] != 0)
  }

  lemma WordBytesAppend(ws: seq<Word>, w: Word)
    ensures WordBytes(ws + [w]) == WordBytes(ws) + [Hi(w), Lo(w)]
  {
    assert (ws + [w])[..|ws|] == ws;
  }

  lemma {:induction false} WordBytesAt(ws: seq<Word>, i: nat)
    requires i < |ws|
    ensures WordBytes(ws)[2 * i] == Hi(ws[i]) && WordBytes(ws)[2 * i + 1] == Lo(ws[i])
    decreases |ws|
  {
    if i < |ws| - 1 { WordBytesAt(ws[..|ws| - 1], i); }
  }

  lemma WordReadBack(ws: seq<Word>, i: nat)
    requires i < |ws|
    ensures Join(WordBytes(ws)[2 * i], WordBytes(ws)[2 * i + 1]) == ws[i]
  {
    WordBytesAt(ws, i);
    JoinSplit(ws[i]);
  }

  lemma WordsOfIs(bytes: seq<Byte>, ws: seq<Word>)
    requires |bytes| == 2 * |ws|
    requires forall i :: 0 <= i < |ws| ==> Join(bytes[2 * i], bytes[2 * i + 1]) == ws[i]
    ensures WordsOf(bytes, |ws|) == ws
  {}

  lemma WordsRoundTrip(ws: seq<Word>)
    ensures WordsOf(WordBytes(ws), |ws|) == ws
  {
    forall i | 0 <= i < |ws| ensures Join(WordBytes(ws)[2 * i], WordBytes(ws)[2 * i + 1]) == ws[i] {
      WordReadBack(ws, i);
    }
    WordsOfIs(WordBytes(ws), ws);
  }

  lemma CoilsRoundTrip(values: seq<Word>)
    ensures CoilsOf(Pack(values), |values|) == AsCoils(values)
  {
    forall i | 0 <= i < |values| ensures CoilsOf(Pack(values), |values|)[i] == AsCoils(values)[i] {
      PackedBit(values, i / 8, i % 8);
      assert 8 * (i / 8) + i % 8 == i;
    }
  }

  // ---- Requests the client builds ----

  function ReadRequest(fc: Byte, address: Word, count: Word): seq<Byte> {
    [fc, Hi(address), Lo(address), Hi(count), Lo(count)]
  }

  function WriteRequest(fc: Byte, address: Word, values: seq<Word>): Option<seq<Byte>> {
    var n := |values|;
    if fc == 5 && n == 1 then Some([5, Hi(address), Lo(address), if values[0] != 0 then 255 else 0, 0])
    else if fc == 15 && n <= 1968 then
      Some([15, Hi(address), Lo(address), Hi(n), Lo(n), ByteCount(n)] + Pack(values))
    else if fc == 6 && n == 1 then Some([6, Hi(address), Lo(address), Hi(values[0]), Lo(values[0])])
    else if fc == 16 && n <= 123 then
      Some([16, Hi(address), Lo(address), Hi(n), Lo(n), 2 * n] + WordBytes(values))
    else None
  }

  /** A write request exists for one coil or register, up to 1968 coils and up to 123 registers. */
  lemma WriteRequestIff(fc: Byte, address: Word, values: seq<Word>)
    ensures WriteRequest(fc, address, values).Some? <==>
              ((fc == 5 || fc == 6) && |values| == 1) || (fc == 15 && |values| <= 1968) || (fc == 16 && |values| <= 123)
  {}

  method ClearBytes(pdu: array<Byte>, at: nat, size: nat)
    requires at + size <= pdu.Length
    modifies pdu
    ensures pdu[..] == old(pdu[..at]) + seq(size, _ => 0) + old(pdu[at + size..])
  {
    var k := 0;
    while k < size
      invariant 0 <= k <= size
      invariant forall m :: at <= m < at + k ==> pdu[m] == 0
      invariant pdu[..at] == old(pdu[..at]) && pdu[at + size..] == old(pdu[at + size..])
    {
      pdu[at + k] := 0;
      k := k + 1;
    }
    assert pdu[at..at + size] == seq(size, _ => 0);
    assert pdu[..] == pdu[..at] + pdu[at..at + size] + pdu[at + size..];
  }

  lemma UpdateMiddle<T>(head: seq<T>, mid: seq<T>, tail: seq<T>, k: nat, x: T)
    requires k < |mid|
    ensures (head + mid + tail)[|head| + k] == mid[k]
    ensures (head + mid + tail)[|head| + k := x] == head + mid[k := x] + tail
  {}

  // The `|= 1 << (i % 8)` of both packing loops.
  method OrBit(pdu: array<Byte>, at: nat, i: nat, ghost head: seq<Byte>, ghost mid: seq<Byte>, ghost tail: seq<Byte>)
    requires |head| == at && i / 8 < |mid|
    requires pdu[..] == head + mid + tail
    modifies pdu
    ensures pdu[..] == head + mid[i / 8 := SetBit(mid[i / 8], i % 8)] + tail
  {
    ghost var before := pdu[..];
    var k, j := i / 8, i % 8;
    UpdateMiddle(head, mid, tail, k, SetBit(mid[k], j));
    assert before[at + k] == mid[k];
    pdu[at + k] := SetBit(pdu[at + k], j);
    assert pdu[..] == before[at + k := SetBit(mid[k], j)];
  }

  lemma ByteIndex(i: nat, n: nat)
    requires i < n
    ensures i / 8 < ByteCount(n)
  {}

  method PackFlags(values: seq<Word>, pdu: array<Byte>, at: nat)
    requires at + ByteCount(|values|) <= pdu.Length
    modifies pdu
    ensures pdu[..] == old(pdu[..at]) + Pack(values) + old(pdu[at + ByteCount(|values|)..])
  {
    var size := ByteCount(|values|);
    ghost var head, tail := pdu[..at], pdu[at + size..];
    ClearBytes(pdu, at, size);
    assert values[..0] == [] && PackTo([], size) == seq(size, _ => 0);
    var i := 0;
    while i < |values|
      invariant 0 <= i <= |values|
      invariant pdu[..] == head + PackTo(values[..i], size) + tail
    {
      ByteIndex(i, |values|);
      PackToStep(values, i, size);
      if values[i] != 0 { OrBit(pdu, at, i, head, PackTo(values[..i], size), tail); }
      i := i + 1;
    }
    assert values[..|values|] == values;
  }

  method StoreWord(w: Word, pdu: array<Byte>, at: nat)
    requires at + 2 <= pdu.Length
    modifies pdu
    ensures pdu[..at + 2] == old(pdu[..at]) + [Hi(w), Lo(w)]
    ensures pdu[at + 2..] == old(pdu[at + 2..])
  {
    pdu[at] := Hi(w);
    pdu[at + 1] := Lo(w);
  }

  method StoreWordBytes(values: seq<Word>, pdu: array<Byte>, at: nat)
    requires at + 2 * |values| <= pdu.Length
    modifies pdu
    ensures pdu[..at + 2 * |values|] == old(pdu[..at]) + WordBytes(values)
    ensures pdu[at + 2 * |values|..] == old(pdu[at + 2 * |values|..])
  {
    ghost var tail := pdu[at + 2 * |values|..];
    var i := 0;
    while i < |values|
      invariant 0 <= i <= |values|
      invariant pdu[..at + 2 * i] == old(pdu[..at]) + WordBytes(values[..i])
      invariant pdu[at + 2 * |values|..] == tail
    {
      assert values[..i + 1] == values[..i] + [values[i]];
      WordBytesAppend(values[..i], values[i]);
      StoreWord(values[i], pdu, at + 2 * i);
      i := i + 1;
    }
    assert values[..|values|] == values;
  }

  method BuildWriteRequest(fc: Byte, address: Word, values: seq<Word>, pdu: array<Byte>) returns (size: int)
    requires pdu.Length == 260 && |values| < 0x1_0000
    modifies pdu
    ensures WriteRequest(fc, address, values).None? <==> size == -1
    ensures size != -1 ==> 5 <= size <= 253 && Some(pdu[..size]) == WriteRequest(fc, address, values)
  {
    var n := |values|;
    pdu[1] := Hi(address);
    pdu[2] := Lo(address);
    if fc == 5 && n == 1 {
      pdu[0], pdu[3], pdu[4] := 5, if values[0] != 0 then 255 else 0, 0;
      size := 5;
      assert pdu[..5] == [pdu[0], pdu[1], pdu[2], pdu[3], pdu[4]];
    } else if fc == 15 && n <= 1968 {
      pdu[0], pdu[3], pdu[4], pdu[5] := 15, Hi(n), Lo(n), ByteCount(n);
      assert pdu[..6] == [15, Hi(address), Lo(address), Hi(n), Lo(n), ByteCount(n)];
      PackFlags(values, pdu, 6);
      size := 6 + ByteCount(n);
      assert pdu[..size] == [15, Hi(address), Lo(address), Hi(n), Lo(n), ByteCount(n)] + Pack(values);
    } else if fc == 6 && n == 1 {
      pdu[0], pdu[3], pdu[4] := 6, Hi(values[0]), Lo(values[0]);
      size := 5;
      assert pdu[..5] == [pdu[0], pdu[1], pdu[2], pdu[3], pdu[4]];
    } else if fc == 16 && n <= 123 {
      pdu[0], pdu[3], pdu[4], pdu[5] := 16, Hi(n), Lo(n), 2 * n;
      assert pdu[..6] == [16, Hi(address), Lo(address), Hi(n), Lo(n), 2 * n];
      StoreWordBytes(values, pdu, 6);
      size := 6 + 2 * n;
      assert pdu[..size] == [16, Hi(address), Lo(address), Hi(n), Lo(n), 2 * n] + WordBytes(values);
    } else {
      size := -1;
    }
  }
}
