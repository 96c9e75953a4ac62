/** Checksums as remainders: long division of bit strings by a generator polynomial, and why a
    register that shifts right and mixes in a mask computes it. A bit string lists the
    coefficients from the highest power of x down. */
module LongDivision {
  import opened ChecksumRegister

  type Bits = seq<bool>

  // The sum over GF(2), aligned at the highest power; `b` may be the shorter.
  function Sum(a: Bits, b: Bits): (r: Bits)
    requires |b| <= |a|
    ensures |r| == |a|
  {
    seq(|a|, i requires 0 <= i < |a| => if i < |b| then a[i] != b[i] else a[i])
  }

  function Zeros(n: nat): (r: Bits)
    ensures |r| == n
  {
    seq(n, _ => false)
  }

  /** The polynomial of degree `w` whose terms are the powers given. */
  function Polynomial(powers: set<nat>, w: nat): (r: Bits)
    ensures |r| == w + 1
  {
    seq(w + 1, i requires 0 <= i <= w => w - i in powers)
  }

  /** The remainder on division by a generator of degree `w`: while more than w bits are left, the
      generator is subtracted if the first bit is set, and the first bit is dropped. */
  function Remainder(s: Bits, generator: Bits, w: nat): (r: Bits)
    requires |generator| == w + 1 && |s| >= w
    ensures |r| == w
    decreases |s|
  {
    if |s| == w then s
    else Remainder((if s[0] then Sum(s, generator) else s)[1..], generator, w)
  }

  lemma SumAppend(a: Bits, c: Bits, b: Bits, d: Bits)
    requires |a| == |b| && |c| == |d|
    ensures Sum(a + c, b + d) == Sum(a, b) + Sum(c, d)
  {}

  function Place(i: nat): bv8 {
    match i
    case 0 => 0x01
    case 1 => 0x02
    case 2 => 0x04
    case 3 => 0x08
    case 4 => 0x10
    case 5 => 0x20
    case 6 => 0x40
    case _ => 0x80
  }

  function ByteBit(b: bv8, i: nat): bool { b & Place(i) != 0 }

  /** A byte as it goes over the line, the low bit first. */
  function ByteBits(b: bv8): (r: Bits)
    ensures |r| == 8
  {
    seq(8, i requires 0 <= i < 8 => ByteBit(b, i))
  }

  lemma OneBitXored(a: bv8, b: bv8, m: bv8)
    requires m & (m - 1) == 0
    ensures (a ^ b) & m != 0 <==> (a & m != 0) != (b & m != 0)
  {}

  lemma BitXored(a: bv8, b: bv8, i: nat)
    ensures ByteBit(a ^ b, i) == (ByteBit(a, i) != ByteBit(b, i))
  {
    OneBitXored(a, b, Place(i));
  }

  lemma ByteXored(a: bv8, b: bv8)
    ensures ByteBits(a ^ b) == Sum(ByteBits(a), ByteBits(b))
  {
    forall i: nat | i < 8 ensures ByteBits(a ^ b)[i] == Sum(ByteBits(a), ByteBits(b))[i] {
      BitXored(a, b, i);
    }
  }

  lemma BitShifted(b: bv8, next: bv8, i: nat)
    requires i < 8
    ensures ByteBit((b >> 1) | (next << 7), i) == if i < 7 then ByteBit(b, i + 1) else ByteBit(next, 0)
  {}

  // A byte clocked to the right, with the low bit of the next byte coming in.
  lemma ByteShifted(b: bv8, next: bv8)
    ensures ByteBits((b >> 1) | (next << 7)) == ByteBits(b)[1..] + [ByteBits(next)[0]]
  {
    forall i: nat | i < 8 ensures ByteBits((b >> 1) | (next << 7))[i] == (ByteBits(b)[1..] + [ByteBits(next)[0]])[i] {
      BitShifted(b, next, i);
    }
  }

  lemma ZeroByte()
    ensures ByteBits(0) == Zeros(8)
  {
    forall i: nat | i < 8 ensures !ByteBits(0)[i] {
      assert 0 & Place(i) == 0;
    }
  }

  lemma OnesByte()
    ensures ByteBits(0xFF) == seq(8, _ => true)
  {
    forall i: nat | i < 8 ensures ByteBits(0xFF)[i] {
      assert 0xFF & Place(i) == Place(i) && Place(i) != 0;
    }
  }

  lemma SumZeros(a: Bits, b: Bits, n: nat)
    requires |b| + n == |a|
    ensures Sum(a, b + Zeros(n)) == Sum(a, b)
  {}

  function Message(data: seq<bv8>): Bits {
    if data == [] then [] else ByteBits(data[0]) + Message(data[1..])
  }

  /** `shift` clocks the register by one bit, and `bits` reads it, low bit first. */
  ghost predicate Divides<T(!new)>(r: Register<T>, shift: T -> T, bits: T -> Bits, generator: Bits, w: nat) {
    && |generator| == w + 1 && generator[0] && w >= 8
    && (forall c {:trigger bits(c)} :: |bits(c)| == w)
    && (forall c {:trigger shift(c)} ::
         bits(shift(c)) == (if bits(c)[0] then Sum(bits(c) + [false], generator) else bits(c) + [false])[1..])
    && (forall c, b {:trigger r.plus(c, r.low(b))} :: bits(r.plus(c, r.low(b))) == Sum(bits(c), ByteBits(b)))
    && (forall c {:trigger r.step(c)} :: r.step(c) == Iterate(shift, c, 8))
  }

  lemma SumTail(a: Bits, b: Bits)
    requires 0 < |b| <= |a|
    ensures Sum(a, b)[1..] == Sum(a[1..], b[1..])
  {}

  // One step of the division, with the register added to the front of the bits still to come.
  lemma StepOfSum(state: Bits, next: Bits, rest: Bits, generator: Bits, w: nat)
    requires |state| == w && |generator| == w + 1 && w > 0 && |rest| >= w
    requires next == (if state[0] then Sum(state + [false], generator) else state + [false])[1..]
    ensures var s := Sum([false] + rest, state);
            s[0] == state[0] && (if s[0] then Sum(s, generator) else s)[1..] == Sum(rest, next)
  {}

  // A leading zero bit clocks the register once.
  lemma ZeroClocks<T(!new)>(r: Register<T>, shift: T -> T, bits: T -> Bits, generator: Bits, w: nat, c: T, rest: Bits)
    requires Divides(r, shift, bits, generator, w) && |rest| >= w
    ensures Remainder(Sum([false] + rest, bits(c)), generator, w) == Remainder(Sum(rest, bits(shift(c))), generator, w)
  {
    StepOfSum(bits(c), bits(shift(c)), rest, generator, w);
  }

  lemma {:induction false} ZerosClock<T(!new)>(r: Register<T>, shift: T -> T, bits: T -> Bits, generator: Bits, w: nat,
                                               c: T, rest: Bits, n: nat)
    requires Divides(r, shift, bits, generator, w) && |rest| >= w
    ensures Remainder(Sum(Zeros(n) + rest, bits(c)), generator, w) == Remainder(Sum(rest, bits(Iterate(shift, c, n))), generator, w)
    decreases n
  {
    if n == 0 {
      assert Zeros(0) + rest == rest;
    } else {
      assert Zeros(n) + rest == Zeros(n - 1) + ([false] + rest);
      ZerosClock(r, shift, bits, generator, w, c, [false] + rest, n - 1);
      ZeroClocks(r, shift, bits, generator, w, Iterate(shift, c, n - 1), rest);
    }
  }

  lemma ByteAdded(rest: Bits, b: Bits, state: Bits)
    requires |b| == 8 <= |state| <= |rest| + 8
    ensures Sum(b + rest, state) == Sum(Zeros(8) + rest, Sum(state, b))
  {}

  /** The register after a message is the remainder of the message, followed by w zeros and with
      the preset added to its first w bits. */
  lemma {:induction false} FoldIsRemainder<T(!new)>(r: Register<T>, shift: T -> T, bits: T -> Bits, generator: Bits, w: nat,
                                                    preset: T, data: seq<bv8>)
    requires Divides(r, shift, bits, generator, w)
    ensures bits(Fold(r, preset, data)) == Remainder(Sum(Message(data) + Zeros(w), bits(preset)), generator, w)
    decreases |data|
  {
    if data == [] {
      assert [] + Zeros(w) == Zeros(w) && Sum(Zeros(w), bits(preset)) == bits(preset);
    } else {
      var b, rest := data[0], Message(data[1..]) + Zeros(w);
      var mixed := r.plus(preset, r.low(b));
      assert Message(data) + Zeros(w) == ByteBits(b) + rest;
      ByteAdded(rest, ByteBits(b), bits(preset));
      ZerosClock(r, shift, bits, generator, w, mixed, rest, 8);
      FoldIsRemainder(r, shift, bits, generator, w, r.step(mixed), data[1..]);
      FoldFirst(r, preset, data);
    }
  }
}
