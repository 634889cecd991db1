/**
 CRC-16/MODBUS as the Hacien plugin computes it, bit by bit, and what the code
 detects. Section 6.2.2 of the MODBUS over Serial Line Specification V1.02.
 */
module Crc {
  import opened Common

  const POLYNOMIAL: bv16 := 0xA001
  const INITIAL: bv16 := 0xFFFF

  function Xor(a: bv16, b: bv16): bv16 {
    a ^ b
  }

  function Bit(b: bool): bv16 {
    if b then 1 else 0
  }

  /** The n lowest bits of a number, the lowest first. */
  function ByteBits(b: nat, n: nat): (bits: seq<bool>)
    ensures |bits| == n
    decreases n
  {
    if n == 0 then [] else [b % 2 == 1] + ByteBits(b / 2, n - 1)
  }

  function Prepend(w: bv16, bit: bool): bv16 {
    (w << 1) | Bit(bit)
  }

  /** A word of at most 16 bits, the first bit lowest. */
  function Pack(bits: seq<bool>): bv16 {
    if bits == [] then 0 else Prepend(Pack(bits[1..]), bits[0])
  }

  /** A byte as the low half of a register. */
  function Low(b: Byte): bv16 {
    Pack(ByteBits(b, 8))
  }

  /** One turn of the inner loop. */
  function Shift(c: bv16): bv16 {
    if c & 1 == 1 then (c >> 1) ^ POLYNOMIAL else c >> 1
  }

  function Unshift(c: bv16): bv16 {
    if c & 0x8000 != 0 then ((c ^ POLYNOMIAL) << 1) | 1 else c << 1
  }

  function Shifts(c: bv16, n: nat): bv16
    decreases n
  {
    if n == 0 then c else Shifts(Shift(c), n - 1)
  }

  /** The register after the bytes of msg, starting from c. */
  function From(c: bv16, msg: seq<Byte>): bv16
    decreases |msg|
  {
    if msg == [] then c else From(Shifts(Xor(c, Low(msg[0])), 8), msg[1..])
  }

  function Of(msg: seq<Byte>): bv16 {
    From(INITIAL, msg)
  }

  /** `modbusCrc`: the two nested loops. */
  method Compute(msg: seq<Byte>) returns (crc: bv16)
    ensures crc == Of(msg)
  {
    hide Low, From;
    crc := 0xFFFF;
    assert msg[0..] == msg;
    for k := 0 to |msg|
      invariant From(crc, msg[k..]) == Of(msg)
    {
      FromStep(crc, msg, k);
      crc := crc ^ Low(msg[k]);
      ghost var start := crc;
      for i := 0 to 8
        invariant Shifts(crc, 8 - i) == Shifts(start, 8)
      {
        if crc & 1 == 1 {
          crc := crc >> 1;
          crc := crc ^ 0xA001;
        } else {
          crc := crc >> 1;
        }
      }
    }
    FromEnd(crc, msg);
  }

  lemma FromStep(c: bv16, msg: seq<Byte>, k: nat)
    requires k < |msg|
    ensures From(c, msg[k..]) == From(Shifts(c ^ Low(msg[k]), 8), msg[k + 1..])
  {
    assert msg[k..][1..] == msg[k + 1..];
  }

  lemma FromEnd(c: bv16, msg: seq<Byte>)
    ensures From(c, msg[|msg|..]) == c
  {
  }

  // ------------------------------------------------- algebra of the register

  lemma XorCancels(c: bv16, m: bv16)
    ensures Xor(Xor(c, m), m) == c && Xor(c, Xor(c, m)) == m
  {
  }

  lemma XorInjective(c: bv16, d: bv16, m: bv16)
    requires Xor(c, m) == Xor(d, m)
    ensures c == d
  {
    hide Xor;
    XorCancels(c, m);
    XorCancels(d, m);
  }

  lemma XorZero(c: bv16)
    ensures Xor(c, 0) == c && Xor(0, c) == c && Xor(c, c) == 0
  {
  }

  lemma XorEqual(a: bv16, b: bv16)
    requires Xor(a, b) == 0
    ensures a == b
  {
  }

  lemma XorAssoc(a: bv16, b: bv16, c: bv16)
    ensures Xor(Xor(a, b), c) == Xor(a, Xor(b, c))
  {
  }

  lemma XorSwap(a: bv16, b: bv16)
    ensures Xor(a, b) == Xor(b, a)
  {
  }

  lemma XorMiddle(a: bv16, b: bv16, c: bv16, d: bv16)
    ensures Xor(Xor(a, b), Xor(c, d)) == Xor(Xor(a, c), Xor(b, d))
  {
    hide Xor;
    XorAssoc(a, b, Xor(c, d));
    XorAssoc(b, c, d);
    XorSwap(b, c);
    XorAssoc(c, b, d);
    XorAssoc(a, c, Xor(b, d));
  }

  /** The shift step can be undone, so no two registers are ever confused. */
  lemma {:induction false} ShiftInvertible(c: bv16)
    ensures Unshift(Shift(c)) == c
  {
  }

  predicate Odd(c: bv16) {
    c & 1 == 1
  }

  lemma BothOdd(a: bv16, b: bv16)
    requires Odd(a) && Odd(b)
    ensures Shift(a ^ b) == Shift(a) ^ Shift(b)
  {
  }

  lemma FirstEven(a: bv16, b: bv16)
    requires !Odd(a) && Odd(b)
    ensures Shift(a ^ b) == Shift(a) ^ Shift(b)
  {
  }

  lemma BothEven(a: bv16, b: bv16)
    requires !Odd(a) && !Odd(b)
    ensures Shift(a ^ b) == Shift(a) ^ Shift(b)
  {
  }

  lemma AsXor(a: bv16, b: bv16)
    requires Shift(a ^ b) == Shift(a) ^ Shift(b)
    ensures Shift(Xor(a, b)) == Xor(Shift(a), Shift(b))
  {
    hide Shift;
  }

  lemma ShiftLinear(a: bv16, b: bv16)
    ensures Shift(Xor(a, b)) == Xor(Shift(a), Shift(b))
  {
    hide Shift, Xor, Odd;
    if Odd(b) {
      if Odd(a) { BothOdd(a, b); } else { FirstEven(a, b); }
      AsXor(a, b);
    } else {
      if Odd(a) { FirstEven(b, a); } else { BothEven(b, a); }
      AsXor(b, a);
      XorSwap(a, b);
      XorSwap(Shift(a), Shift(b));
    }
  }

  lemma {:induction false} ShiftsLinear(a: bv16, b: bv16, n: nat)
    ensures Shifts(Xor(a, b), n) == Xor(Shifts(a, n), Shifts(b, n))
    decreases n
  {
    hide Shift, Xor;
    if n > 0 {
      ShiftLinear(a, b);
      ShiftsLinear(Shift(a), Shift(b), n - 1);
    }
  }

  lemma {:induction false} ShiftsInjective(a: bv16, b: bv16, n: nat)
    requires Shifts(a, n) == Shifts(b, n)
    ensures a == b
    decreases n
  {
    hide Shift, Unshift;
    if n > 0 {
      ShiftsInjective(Shift(a), Shift(b), n - 1);
      ShiftInvertible(a);
      ShiftInvertible(b);
    }
  }

  lemma {:induction false} ShiftsAdd(c: bv16, m: nat, n: nat)
    ensures Shifts(c, m + n) == Shifts(Shifts(c, m), n)
    decreases m
  {
    hide Shift;
    if m > 0 {
      ShiftsAdd(Shift(c), m - 1, n);
    }
  }

  lemma {:induction false} FromConcat(c: bv16, a: seq<Byte>, b: seq<Byte>)
    ensures From(c, a + b) == From(From(c, a), b)
    decreases |a|
  {
    hide Shifts, Xor, Low;
    if a == [] {
      assert a + b == b;
    } else {
      assert (a + b)[1..] == a[1..] + b;
      FromConcat(Shifts(Xor(c, Low(a[0])), 8), a[1..], b);
    }
  }

  /** Equal bytes keep different registers different. */
  lemma {:induction false} FromInjective(c: bv16, d: bv16, msg: seq<Byte>)
    requires From(c, msg) == From(d, msg)
    ensures c == d
    decreases |msg|
  {
    hide Shifts, Xor, Low;
    if msg != [] {
      var m := Low(msg[0]);
      FromInjective(Shifts(Xor(c, m), 8), Shifts(Xor(d, m), 8), msg[1..]);
      ShiftsInjective(Xor(c, m), Xor(d, m), 8);
      XorInjective(c, d, m);
    }
  }

  // ------------------------------------------------- the code as a bit stream

  /** One bit at a time, least significant bit of each byte first. */
  function FromBits(c: bv16, bits: seq<bool>): bv16
    decreases |bits|
  {
    if bits == [] then c else FromBits(Shift(Xor(c, Bit(bits[0]))), bits[1..])
  }

  function Bits(msg: seq<Byte>): (bits: seq<bool>)
    ensures |bits| == 8 * |msg|
  {
    if msg == [] then [] else ByteBits(msg[0], 8) + Bits(msg[1..])
  }

  lemma {:induction false} FromBitsConcat(c: bv16, a: seq<bool>, b: seq<bool>)
    ensures FromBits(c, a + b) == FromBits(FromBits(c, a), b)
    decreases |a|
  {
    hide Shift, Xor, Bit;
    if a == [] {
      assert a + b == b;
    } else {
      assert (a + b)[1..] == a[1..] + b;
      FromBitsConcat(Shift(Xor(c, Bit(a[0]))), a[1..], b);
    }
  }

  lemma {:induction false} BitsInjective(c: bv16, d: bv16, bits: seq<bool>)
    requires FromBits(c, bits) == FromBits(d, bits)
    ensures c == d
    decreases |bits|
  {
    hide Shift, Unshift, Xor, Bit;
    if bits != [] {
      var m := Bit(bits[0]);
      BitsInjective(Shift(Xor(c, m)), Shift(Xor(d, m)), bits[1..]);
      ShiftInvertible(Xor(c, m));
      ShiftInvertible(Xor(d, m));
      XorInjective(c, d, m);
    }
  }

  function Half(w: bv16): bv16 {
    w >> 1
  }

  /** w needs no more than n bits. */
  predicate Below(w: bv16, n: nat)
    decreases n
  {
    if n == 0 then w == 0 else Below(Half(w), n - 1)
  }

  predicate TopClear(w: bv16) {
    w & 0x8000 == 0
  }

  lemma {:induction false} BelowMore(w: bv16, n: nat, m: nat)
    requires Below(w, n) && n <= m
    ensures Below(w, m)
    decreases m
  {
    hide Half;
    if n > 0 {
      BelowMore(Half(w), n - 1, m - 1);
    } else if m > 0 {
      HalfOfZero();
      BelowMore(Half(w), 0, m - 1);
    }
  }

  lemma HalfOfZero()
    ensures Half(0) == 0
  {
  }

  lemma BelowFive(w: bv16, n: nat)
    requires Below(w, n + 5)
    ensures Below(Half(Half(Half(Half(Half(w))))), n)
  {
    hide Half;
    var w1 := Half(w);
    var w2 := Half(w1);
    var w3 := Half(w2);
    var w4 := Half(w3);
    assert Below(w1, n + 4);
    assert Below(w2, n + 3);
    assert Below(w3, n + 2);
    assert Below(w4, n + 1);
  }

  lemma FiveHalves(w: bv16)
    ensures Half(Half(Half(Half(Half(w))))) == w >> 5
  {
  }

  lemma BelowFifteen(w: bv16)
    requires Below(w, 15)
    ensures TopClear(w)
  {
    hide Half, TopClear;
    BelowFive(w, 10);
    FiveHalves(w);
    BelowFive(w >> 5, 5);
    FiveHalves(w >> 5);
    BelowFive(w >> 5 >> 5, 0);
    FiveHalves(w >> 5 >> 5);
    NothingAboveFifteen(w);
  }

  lemma NothingAboveFifteen(w: bv16)
    requires w >> 5 >> 5 >> 5 == 0
    ensures TopClear(w)
  {
  }

  lemma PrependTail(w: bv16, bit: bool)
    requires TopClear(w)
    ensures Half(Prepend(w, bit)) == w && Prepend(w, bit) & 1 == Bit(bit)
  {
  }

  lemma BelowUnfold(w: bv16, v: bv16, n: nat)
    requires n > 0 && Half(w) == v && Below(v, n - 1)
    ensures Below(w, n)
  {
  }

  lemma {:induction false} PackBelow(bits: seq<bool>)
    requires |bits| <= 15
    ensures Below(Pack(bits), |bits|) && TopClear(Pack(bits))
  {
    hide Prepend, TopClear, Below, Half;
    if bits != [] {
      PackBelow(bits[1..]);
      PrependTail(Pack(bits[1..]), bits[0]);
      BelowUnfold(Pack(bits), Pack(bits[1..]), |bits|);
    } else {
      BelowZero();
    }
    BelowMore(Pack(bits), |bits|, 15);
    BelowFifteen(Pack(bits));
  }

  lemma BelowZero()
    ensures Below(0, 0)
  {
  }

  lemma ShiftDoubled(w: bv16)
    requires TopClear(w)
    ensures Shift(w << 1) == w
  {
  }

  lemma PrependXor(c: bv16, w: bv16, bit: bool)
    ensures Xor(c, Prepend(w, bit)) == Xor(Xor(c, Bit(bit)), w << 1)
  {
  }

  lemma PrependShift(c: bv16, w: bv16, bit: bool)
    requires TopClear(w)
    ensures Shift(Xor(c, Prepend(w, bit))) == Xor(Shift(Xor(c, Bit(bit))), w)
  {
    hide Shift, Xor, Prepend, TopClear, Bit;
    PrependXor(c, w, bit);
    ShiftLinear(Xor(c, Bit(bit)), w << 1);
    ShiftDoubled(w);
  }

  /** Up to 16 bits fed one by one act as one XOR before as many shifts. */
  lemma {:induction false} BitsAbsorbed(c: bv16, bits: seq<bool>)
    requires |bits| <= 16
    ensures FromBits(c, bits) == Shifts(Xor(c, Pack(bits)), |bits|)
    decreases |bits|
  {
    hide Shift, Xor, Prepend, TopClear, Bit;
    if bits == [] {
      XorZero(c);
    } else {
      var w := Pack(bits[1..]);
      PackBelow(bits[1..]);
      PrependShift(c, w, bits[0]);
      BitsAbsorbed(Shift(Xor(c, Bit(bits[0]))), bits[1..]);
    }
  }

  lemma PrependInjective(v: bv16, a: bool, w: bv16, b: bool)
    requires TopClear(v) && TopClear(w) && Prepend(v, a) == Prepend(w, b)
    ensures v == w && a == b
  {
    PrependTail(v, a);
    PrependTail(w, b);
  }

  lemma {:induction false} PackInjective(a: seq<bool>, b: seq<bool>)
    requires |a| == |b| <= 16 && Pack(a) == Pack(b)
    ensures a == b
    decreases |a|
  {
    hide Prepend, TopClear, Bit, Half, Below;
    if a != [] {
      PackBelow(a[1..]);
      PackBelow(b[1..]);
      PrependInjective(Pack(a[1..]), a[0], Pack(b[1..]), b[0]);
      PackInjective(a[1..], b[1..]);
      assert a == [a[0]] + a[1..] && b == [b[0]] + b[1..];
    }
  }

  /** The byte-wise code is the bit-wise code of the bit stream. */
  lemma {:induction false} CrcOfBits(c: bv16, msg: seq<Byte>)
    ensures From(c, msg) == FromBits(c, Bits(msg))
    decreases |msg|
  {
    hide Shifts, Xor, Pack, ByteBits;
    if msg != [] {
      BitsAbsorbed(c, ByteBits(msg[0], 8));
      FromBitsConcat(c, ByteBits(msg[0], 8), Bits(msg[1..]));
      CrcOfBits(Shifts(Xor(c, Low(msg[0])), 8), msg[1..]);
    }
  }

  // ------------------------------------------------- what is detected

  /** From one register, two bit strings of the same length up to 16 are never confused. */
  lemma WindowInjective(c: bv16, a: seq<bool>, b: seq<bool>)
    requires |a| == |b| <= 16 && FromBits(c, a) == FromBits(c, b)
    ensures a == b
  {
    hide FromBits, Pack, Shifts, Xor;
    BitsAbsorbed(c, a);
    BitsAbsorbed(c, b);
    ShiftsInjective(Xor(c, Pack(a)), Xor(c, Pack(b)), |a|);
    XorCancels(c, Pack(a));
    XorCancels(c, Pack(b));
    PackInjective(a, b);
  }

  /**
   Every error burst of at most 16 bits is detected, at every message length and
   wherever it falls on the bit stream.
   */
  lemma {:induction false} BurstDetected(
    m: seq<Byte>, n: seq<Byte>, before: seq<bool>, a: seq<bool>, b: seq<bool>, after: seq<bool>)
    requires Bits(m) == before + a + after && Bits(n) == before + b + after
    requires |a| == |b| <= 16 && a != b
    ensures Of(m) != Of(n)
  {
    hide From, FromBits, Bits;
    CrcOfBits(INITIAL, m);
    CrcOfBits(INITIAL, n);
    var c := FromBits(INITIAL, before);
    FromBitsConcat(INITIAL, before + a, after);
    FromBitsConcat(INITIAL, before + b, after);
    FromBitsConcat(INITIAL, before, a);
    FromBitsConcat(INITIAL, before, b);
    if Of(m) == Of(n) {
      BitsInjective(FromBits(c, a), FromBits(c, b), after);
      WindowInjective(c, a, b);
    }
  }

  lemma {:induction false} BitsConcat(a: seq<Byte>, b: seq<Byte>)
    ensures Bits(a + b) == Bits(a) + Bits(b)
  {
    if a == [] {
      assert a + b == b;
    } else {
      assert (a + b)[1..] == a[1..] + b;
      BitsConcat(a[1..], b);
    }
  }

  /** A corruption confined to one byte, or to two adjacent bytes, changes the code of any message. */
  lemma {:induction false} TwoBytesDetected(before: seq<Byte>, a: seq<Byte>, b: seq<Byte>, after: seq<Byte>)
    requires 1 <= |a| == |b| <= 2 && a != b
    ensures Of(before + a + after) != Of(before + b + after)
  {
    hide Of, Bits;
    BitsConcat(before + a, after);
    BitsConcat(before, a);
    BitsConcat(before + b, after);
    BitsConcat(before, b);
    if Bits(a) == Bits(b) {
      BytesOfBits(a, b);
    }
    BurstDetected(before + a + after, before + b + after, Bits(before), Bits(a), Bits(b), Bits(after));
  }

  /** The number a bit string spells, the first bit worth one. */
  function Number(bits: seq<bool>): nat {
    if bits == [] then 0 else (if bits[0] then 1 else 0) + 2 * Number(bits[1..])
  }

  function Pow2(n: nat): nat {
    if n == 0 then 1 else 2 * Pow2(n - 1)
  }

  lemma {:induction false} NumberOfByteBits(b: nat, n: nat)
    requires b < Pow2(n)
    ensures Number(ByteBits(b, n)) == b
    decreases n
  {
    if n > 0 {
      NumberOfByteBits(b / 2, n - 1);
      assert ByteBits(b, n)[1..] == ByteBits(b / 2, n - 1);
    }
  }

  lemma PowersOfTwo()
    ensures Pow2(8) == 256
  {
    assert Pow2(4) == 16;
  }

  lemma BitsOfFirst(a: seq<Byte>)
    requires a != []
    ensures Bits(a)[..8] == ByteBits(a[0], 8) && Bits(a)[8..] == Bits(a[1..])
  {
    hide ByteBits;
  }

  lemma {:induction false} BytesOfBits(a: seq<Byte>, b: seq<Byte>)
    requires |a| == |b| && Bits(a) == Bits(b)
    ensures a == b
  {
    hide ByteBits, Bits, Number, Pow2;
    if a != [] {
      BitsOfFirst(a);
      BitsOfFirst(b);
      PowersOfTwo();
      NumberOfByteBits(a[0], 8);
      NumberOfByteBits(b[0], 8);
      BytesOfBits(a[1..], b[1..]);
      assert a == [a[0]] + a[1..] && b == [b[0]] + b[1..];
    }
  }

  // ------------------------------------------------- which errors are not

  function XorBits(a: seq<bool>, b: seq<bool>): (x: seq<bool>)
    requires |a| == |b|
    ensures |x| == |a|
    decreases |a|
  {
    if a == [] then [] else [a[0] != b[0]] + XorBits(a[1..], b[1..])
  }

  lemma BitXor(a: bool, b: bool)
    ensures Bit(a != b) == Xor(Bit(a), Bit(b))
  {
  }

  lemma {:induction false} FromBitsLinear(c: bv16, d: bv16, a: seq<bool>, b: seq<bool>)
    requires |a| == |b|
    ensures Xor(FromBits(c, a), FromBits(d, b)) == FromBits(Xor(c, d), XorBits(a, b))
    decreases |a|
  {
    hide Shift, Xor, Bit;
    if a != [] {
      var ma, mb := Bit(a[0]), Bit(b[0]);
      FromBitsLinear(Shift(Xor(c, ma)), Shift(Xor(d, mb)), a[1..], b[1..]);
      ShiftLinear(Xor(c, ma), Xor(d, mb));
      XorMiddle(c, ma, d, mb);
      BitXor(a[0], b[0]);
      assert XorBits(a, b)[1..] == XorBits(a[1..], b[1..]);
    }
  }

  /** Two messages of one length share a code exactly when their difference, fed to a zero register, leaves zero. */
  lemma {:induction false} UndetectedErrors(m: seq<Byte>, n: seq<Byte>)
    requires |m| == |n|
    ensures Of(m) == Of(n) <==> FromBits(0, XorBits(Bits(m), Bits(n))) == 0
  {
    hide From, FromBits, Xor, Bits, XorBits;
    CrcOfBits(INITIAL, m);
    CrcOfBits(INITIAL, n);
    FromBitsLinear(INITIAL, INITIAL, Bits(m), Bits(n));
    XorZero(INITIAL);
    XorZero(Of(m));
    if FromBits(0, XorBits(Bits(m), Bits(n))) == 0 {
      XorEqual(Of(m), Of(n));
    }
  }

  predicate OddlyMany(bits: seq<bool>) {
    bits != [] && (bits[0] != OddlyMany(bits[1..]))
  }

  /** Whether the n lowest bits of a register hold an odd number of ones. */
  predicate Parity(c: bv16, n: nat)
    decreases n
  {
    n > 0 && ((c & 1 == 1) != Parity(Half(c), n - 1))
  }

  lemma XorLowBit(a: bv16, b: bv16)
    ensures (a ^ b) & 1 == (a & 1) ^ (b & 1)
  {
  }

  lemma LowBitCases(a: bv16)
    ensures a & 1 == 0 || a & 1 == 1
  {
  }

  lemma XorHalf(a: bv16, b: bv16)
    ensures (a ^ b) >> 1 == (a >> 1) ^ (b >> 1)
  {
  }

  lemma XorBit(a: bv16, b: bv16)
    ensures (Xor(a, b) & 1 == 1) == ((a & 1 == 1) != (b & 1 == 1))
  {
    XorLowBit(a, b);
    LowBitCases(a);
    LowBitCases(b);
  }

  lemma HalfXor(a: bv16, b: bv16)
    ensures Half(Xor(a, b)) == Xor(Half(a), Half(b))
  {
    XorHalf(a, b);
  }

  lemma {:induction false} ParityLinear(a: bv16, b: bv16, n: nat)
    ensures Parity(Xor(a, b), n) == (Parity(a, n) != Parity(b, n))
    decreases n
  {
    hide Xor, Half;
    if n > 0 {
      XorBit(a, b);
      HalfXor(a, b);
      ParityLinear(Half(a), Half(b), n - 1);
    }
  }

  lemma {:induction false} ParityBelow(w: bv16, n: nat)
    requires Below(w, n)
    ensures Parity(w, n + 1) == Parity(w, n)
    decreases n
  {
    hide Half;
    if n == 0 {
      HalfOfZero();
      assert !Parity(Half(w), 0);
    } else {
      ParityBelow(Half(w), n - 1);
    }
  }

  lemma PolynomialParity()
    ensures Parity(POLYNOMIAL, 16)
  {
    assert Parity(0x0001, 1) by { assert !Parity(Half(0x0001), 0); }
    assert Half(0x0002) == 0x0001 && Half(0x0005) == 0x0002 && Half(0x000A) == 0x0005 && Half(0x0014) == 0x000A;
    assert Half(0x0028) == 0x0014 && Half(0x0050) == 0x0028 && Half(0x00A0) == 0x0050 && Half(0x0140) == 0x00A0;
    assert Half(0x0280) == 0x0140 && Half(0x0500) == 0x0280 && Half(0x0A00) == 0x0500 && Half(0x1400) == 0x0A00;
    assert Half(0x2800) == 0x1400 && Half(0x5000) == 0x2800 && Half(0xA001) == 0x5000;
    assert Parity(0x0002, 2);
    assert !Parity(0x0005, 3);
    assert !Parity(0x000A, 4);
    assert !Parity(0x0014, 5);
    assert !Parity(0x0028, 6);
    assert !Parity(0x0050, 7);
    assert !Parity(0x00A0, 8);
    assert !Parity(0x0140, 9);
    assert !Parity(0x0280, 10);
    assert !Parity(0x0500, 11);
    assert !Parity(0x0A00, 12);
    assert !Parity(0x1400, 13);
    assert !Parity(0x2800, 14);
    assert !Parity(0x5000, 15);
  }

  lemma ShiftCases(c: bv16)
    ensures Shift(c) == if c & 1 == 1 then Xor(Half(c), POLYNOMIAL) else Half(c)
  {
  }

  /** The polynomial has an odd number of ones, which makes up for the one a shift drops. */
  lemma ShiftKeepsParity(c: bv16)
    ensures Parity(Shift(c), 16) == Parity(c, 16)
  {
    hide Shift, Xor, Half;
    ShiftCases(c);
    EveryWordBelow(c);
    assert Below(Half(c), 15);
    ParityBelow(Half(c), 15);
    ParityLinear(Half(c), POLYNOMIAL, 16);
    PolynomialParity();
  }

  lemma {:induction false} ParityOfZero(n: nat)
    ensures !Parity(0, n)
  {
    if n > 0 {
      HalfOfZero();
      ParityOfZero(n - 1);
    }
  }

  lemma BitTogglesParity(c: bv16, b: bool)
    ensures Parity(Xor(c, Bit(b)), 16) == (Parity(c, 16) != b)
  {
    hide Xor, Half;
    ParityLinear(c, Bit(b), 16);
    ParityOfZero(15);
    ParityOfZero(16);
    assert Half(1) == 0 by { HalfOfOne(); }
  }

  lemma HalfOfOne()
    ensures Half(1) == 0
  {
  }

  lemma {:induction false} ParityOfBits(c: bv16, bits: seq<bool>)
    ensures Parity(FromBits(c, bits), 16) == (Parity(c, 16) != OddlyMany(bits))
    decreases |bits|
  {
    hide Parity, Shift, Xor, Bit;
    if bits != [] {
      var d := Xor(c, Bit(bits[0]));
      BitTogglesParity(c, bits[0]);
      ShiftKeepsParity(d);
      ParityOfBits(Shift(d), bits[1..]);
    }
  }

  /** Every corruption of an odd number of bits is detected, wherever the bits are. */
  lemma {:induction false} OddErrorsDetected(m: seq<Byte>, n: seq<Byte>)
    requires |m| == |n| && OddlyMany(XorBits(Bits(m), Bits(n)))
    ensures Of(m) != Of(n)
  {
    hide FromBits, Parity, Bits, XorBits;
    UndetectedErrors(m, n);
    ParityOfBits(0, XorBits(Bits(m), Bits(n)));
    ParityOfZero(16);
  }

  // ------------------------------------------------- the code at the end of a frame

  function WordBits(c: bv16, n: nat): (bits: seq<bool>)
    ensures |bits| == n
    decreases n
  {
    if n == 0 then [] else [c & 1 == 1] + WordBits(Half(c), n - 1)
  }

  /** The register as the unsigned 16-bit number Python holds. */
  function Value(c: bv16): nat {
    Number(WordBits(c, 16))
  }

  lemma PrependBits(w: bv16, bit: bool)
    requires TopClear(w)
    ensures Half(Prepend(w, bit)) == w && (Prepend(w, bit) & 1 == 1) == bit
  {
  }

  lemma {:induction false} WordBitsOfPack(bits: seq<bool>)
    requires |bits| <= 16
    ensures WordBits(Pack(bits), |bits|) == bits
  {
    hide Half, Prepend, TopClear;
    if bits != [] {
      PackBelow(bits[1..]);
      PrependBits(Pack(bits[1..]), bits[0]);
      WordBitsOfPack(bits[1..]);
      assert bits == [bits[0]] + bits[1..];
    }
  }

  lemma UnprependWord(c: bv16)
    ensures Prepend(Half(c), c & 1 == 1) == c
  {
  }

  lemma {:induction false} PackOfWordBits(c: bv16, n: nat)
    requires Below(c, n)
    ensures Pack(WordBits(c, n)) == c
    decreases n
  {
    hide Half, Prepend;
    if n > 0 {
      UnprependWord(c);
      PackOfWordBits(Half(c), n - 1);
      assert WordBits(c, n)[1..] == WordBits(Half(c), n - 1);
    }
  }

  lemma AboveFive(w: bv16, n: nat)
    requires Below(Half(Half(Half(Half(Half(w))))), n)
    ensures Below(w, n + 5)
  {
    hide Half;
    var w1 := Half(w);
    var w2 := Half(w1);
    var w3 := Half(w2);
    var w4 := Half(w3);
    assert Below(w4, n + 1);
    assert Below(w3, n + 2);
    assert Below(w2, n + 3);
    assert Below(w1, n + 4);
  }

  lemma EveryWordBelow(w: bv16)
    ensures Below(w, 16)
  {
    hide Half;
    TopBit(w);
    assert Below(w >> 5 >> 5 >> 5, 1);
    FiveHalves(w >> 5 >> 5);
    AboveFive(w >> 5 >> 5, 1);
    FiveHalves(w >> 5);
    AboveFive(w >> 5, 6);
    FiveHalves(w);
    AboveFive(w, 11);
  }

  lemma TopBit(w: bv16)
    ensures Half(w >> 5 >> 5 >> 5) == 0
  {
  }

  /** x doubled n times. */
  function Scaled(x: nat, n: nat): nat
    decreases n
  {
    if n == 0 then x else 2 * Scaled(x, n - 1)
  }

  lemma ScaledByte(x: nat)
    ensures Scaled(x, 8) == 256 * x
  {
    assert Scaled(x, 4) == 16 * x;
  }

  lemma {:induction false} NumberConcat(a: seq<bool>, b: seq<bool>)
    ensures Number(a + b) == Number(a) + Scaled(Number(b), |a|)
  {
    if a == [] {
      assert a + b == b;
    } else {
      assert (a + b)[1..] == a[1..] + b;
      NumberConcat(a[1..], b);
    }
  }

  lemma {:induction false} NumberInjective(a: seq<bool>, b: seq<bool>)
    requires |a| == |b| && Number(a) == Number(b)
    ensures a == b
  {
    if a != [] {
      NumberInjective(a[1..], b[1..]);
      assert a == [a[0]] + a[1..] && b == [b[0]] + b[1..];
    }
  }

  /** Two bytes spell a register exactly when they are its low byte and then its high byte. */
  lemma PairIsValue(c: bv16, lo: Byte, hi: Byte)
    ensures Pack(ByteBits(lo, 8) + ByteBits(hi, 8)) == c <==> Value(c) == lo + 256 * hi
  {
    hide Pack, WordBits, ByteBits, Number, Pow2, Below, Scaled;
    var bits := ByteBits(lo, 8) + ByteBits(hi, 8);
    PowersOfTwo();
    NumberOfByteBits(lo, 8);
    NumberOfByteBits(hi, 8);
    NumberConcat(ByteBits(lo, 8), ByteBits(hi, 8));
    ScaledByte(hi);
    WordBitsOfPack(bits);
    EveryWordBelow(c);
    PackOfWordBits(c, 16);
    if Number(bits) == Value(c) {
      NumberInjective(bits, WordBits(c, 16));
    }
  }

  lemma {:induction false} ShiftsOfZero(n: nat)
    ensures Shifts(0, n) == 0
  {
    if n > 0 {
      ShiftsOfZero(n - 1);
    }
  }

  lemma BitsOfTwo(lo: Byte, hi: Byte)
    ensures Bits([lo, hi]) == ByteBits(lo, 8) + ByteBits(hi, 8)
  {
    hide ByteBits;
    assert [lo, hi][1..] == [hi] && [hi][1..] == [];
    assert Bits([hi]) == ByteBits(hi, 8) + [];
  }

  /** The residue law: a frame checks to zero exactly when it ends in its own code, low byte first. */
  lemma {:induction false} ResidueZero(body: seq<Byte>, lo: Byte, hi: Byte)
    ensures Of(body + [lo, hi]) == 0 <==> Value(Of(body)) == lo + 256 * hi
  {
    hide From, FromBits, Bits, ByteBits, Pack, Shifts, Xor, Value;
    var c, bits := Of(body), ByteBits(lo, 8) + ByteBits(hi, 8);
    FromConcat(INITIAL, body, [lo, hi]);
    CrcOfBits(c, [lo, hi]);
    BitsOfTwo(lo, hi);
    BitsAbsorbed(c, bits);
    PairIsValue(c, lo, hi);
    ShiftsOfZero(16);
    if Of(body + [lo, hi]) == 0 {
      ShiftsInjective(Xor(c, Pack(bits)), 0, 16);
      XorEqual(c, Pack(bits));
    }
    if Pack(bits) == c {
      XorZero(c);
    }
  }

  lemma {:induction false} NumberBound(bits: seq<bool>)
    ensures Number(bits) < Pow2(|bits|)
  {
    if bits != [] {
      NumberBound(bits[1..]);
    }
  }

  lemma ValueBound(c: bv16)
    ensures Value(c) < 0x1_0000
  {
    hide WordBits;
    NumberBound(WordBits(c, 16));
    assert Pow2(4) == 16;
    assert Pow2(8) == 256;
    assert Pow2(12) == 4096;
  }

  lemma ValueOfInitial()
    ensures Value(INITIAL) == 255 + 256 * 255
  {
    hide Pack, ByteBits, WordBits, Number;
    PairIsValue(INITIAL, 255, 255);
    OnesOfByte();
    var ones := Ones(8);
    OnesAre(8);
    PackOnes(ones + ones);
  }

  function Ones(n: nat): (s: seq<bool>)
    ensures |s| == n
  {
    if n == 0 then [] else [true] + Ones(n - 1)
  }

  lemma {:induction false} OnesAre(n: nat)
    ensures forall i :: 0 <= i < n ==> Ones(n)[i]
  {
    if n > 0 {
      OnesAre(n - 1);
    }
  }

  lemma OnesOfByte()
    ensures ByteBits(255, 8) == Ones(8)
  {
    assert ByteBits(0, 0) == Ones(0);
    assert ByteBits(1, 1) == Ones(1);
    assert ByteBits(3, 2) == Ones(2);
    assert ByteBits(7, 3) == Ones(3);
    assert ByteBits(15, 4) == Ones(4);
    assert ByteBits(31, 5) == Ones(5);
    assert ByteBits(63, 6) == Ones(6);
    assert ByteBits(127, 7) == Ones(7);
  }

  lemma FourOnes(bits: seq<bool>, k: nat)
    requires k + 4 <= |bits| && bits[k] && bits[k + 1] && bits[k + 2] && bits[k + 3]
    ensures Pack(bits[k..]) == (Pack(bits[k + 4..]) << 4) | 0xF
  {
    hide Pack;
    PackSuffix(bits, k + 3);
    PackSuffix(bits, k + 2);
    PackSuffix(bits, k + 1);
    PackSuffix(bits, k);
    PrependFour(Pack(bits[k + 4..]));
  }

  lemma PrependFour(w: bv16)
    ensures Prepend(Prepend(Prepend(Prepend(w, true), true), true), true) == (w << 4) | 0xF
  {
  }

  lemma PackOnes(bits: seq<bool>)
    requires |bits| == 16 && forall i :: 0 <= i < 16 ==> bits[i]
    ensures Pack(bits) == INITIAL
  {
    assert Pack(bits[16..]) == 0;
    hide Pack, Prepend;
    FourOnes(bits, 12);
    assert Pack(bits[12..]) == 0xF;
    FourOnes(bits, 8);
    assert Pack(bits[8..]) == 0xFF;
    FourOnes(bits, 4);
    assert Pack(bits[4..]) == 0xFFF;
    FourOnes(bits, 0);
    assert bits[0..] == bits;
  }

  lemma PackSuffix(bits: seq<bool>, k: nat)
    requires k < |bits|
    ensures Pack(bits[k..]) == Prepend(Pack(bits[k + 1..]), bits[k])
  {
    assert bits[k..][1..] == bits[k + 1..];
  }

  // ------------------------------------------------- a code worked out

  lemma PackStep(b: nat, n: nat)
    requires n > 0
    ensures Pack(ByteBits(b, n)) == Prepend(Pack(ByteBits(b / 2, n - 1)), b % 2 == 1)
  {
    hide Prepend;
    assert ByteBits(b, n)[1..] == ByteBits(b / 2, n - 1);
  }

  lemma PackNone(b: nat)
    ensures Pack(ByteBits(b, 0)) == 0
  {
  }

  /** Half a byte's worth of bits, put in front of those that are there. */
  function FourBits(w: bv16, b: nat): bv16 {
    Prepend(Prepend(Prepend(Prepend(w, b / 2 / 2 / 2 % 2 == 1), b / 2 / 2 % 2 == 1), b / 2 % 2 == 1), b % 2 == 1)
  }

  lemma PackFour(b: nat, n: nat)
    requires n >= 4
    ensures Pack(ByteBits(b, n)) == FourBits(Pack(ByteBits(b / 2 / 2 / 2 / 2, n - 4)), b)
  {
    hide Prepend, Pack, ByteBits;
    PackStep(b, n);
    PackStep(b / 2, n - 1);
    PackStep(b / 2 / 2, n - 2);
    PackStep(b / 2 / 2 / 2, n - 3);
  }

  /** Half a byte's worth of shifts. */
  function FourShifts(c: bv16): bv16 {
    Shift(Shift(Shift(Shift(c))))
  }

  lemma EightShifts(c: bv16)
    ensures Shifts(c, 8) == FourShifts(FourShifts(c))
  {
    hide Shift;
    ShiftsAdd(c, 2, 6);
    ShiftsAdd(Shift(Shift(c)), 2, 4);
    ShiftsAdd(Shift(Shift(Shift(Shift(c)))), 2, 2);
  }

  lemma LowByHalves(b: Byte)
    ensures Low(b) == FourBits(FourBits(0, b / 2 / 2 / 2 / 2), b)
  {
    hide Prepend, Pack, ByteBits;
    PackFour(b, 8);
    PackFour(b / 2 / 2 / 2 / 2, 4);
    PackNone(b / 2 / 2 / 2 / 2 / 2 / 2 / 2 / 2);
  }

  /** One byte taken in by the register, by way of the register half-way. */
  lemma ByteTaken(c: bv16, b: Byte, low: bv16, start: bv16, middle: bv16, end: bv16)
    requires Low(b) == low && Xor(c, low) == start && FourShifts(start) == middle && FourShifts(middle) == end
    ensures Shifts(Xor(c, Low(b)), 8) == end
  {
    hide Low, Shift, Shifts, Xor;
    EightShifts(start);
  }

  lemma Low1()
    ensures Low(1) == 1
  {
    hide Low;
    LowByHalves(1);
    assert FourBits(0, 0) == 0;
  }

  lemma Low3()
    ensures Low(3) == 3
  {
    hide Low;
    LowByHalves(3);
    assert FourBits(0, 0) == 0;
  }

  lemma Low2()
    ensures Low(2) == 2
  {
    hide Low;
    LowByHalves(2);
    assert FourBits(0, 0) == 0;
  }

  lemma Low0()
    ensures Low(0) == 0
  {
    hide Low;
    LowByHalves(0);
    assert FourBits(0, 0) == 0;
  }

  lemma Low243()
    ensures Low(243) == 243
  {
    hide Low;
    LowByHalves(243);
    assert FourBits(0, 15) == 15;
  }

  lemma Low248()
    ensures Low(248) == 248
  {
    hide Low;
    LowByHalves(248);
    assert FourBits(0, 15) == 15;
  }

  lemma Register1()
    ensures Shifts(Xor(0xFFFF, Low(1)), 8) == 0x807E
  {
    hide Low, Shifts;
    Low1();
    assert FourShifts(0xFFFE) == 0x87FE;
    assert FourShifts(0x87FE) == 0x807E;
    ByteTaken(0xFFFF, 1, 1, 0xFFFE, 0x87FE, 0x807E);
  }

  lemma Register2()
    ensures Shifts(Xor(0x807E, Low(3)), 8) == 0x2140
  {
    hide Low, Shifts;
    Low3();
    assert FourShifts(0x807D) == 0x9406;
    assert FourShifts(0x9406) == 0x2140;
    ByteTaken(0x807E, 3, 3, 0x807D, 0x9406, 0x2140);
  }

  lemma Register3()
    ensures Shifts(Xor(0x2140, Low(2)), 8) == 0x31A1
  {
    hide Low, Shifts;
    Low2();
    assert FourShifts(0x2142) == 0xDA15;
    assert FourShifts(0xDA15) == 0x31A1;
    ByteTaken(0x2140, 2, 2, 0x2142, 0xDA15, 0x31A1);
  }

  lemma Register4()
    ensures Shifts(Xor(0x31A1, Low(0)), 8) == 0xB8F0
  {
    hide Low, Shifts;
    Low0();
    assert FourShifts(0x31A1) == 0xCF1B;
    assert FourShifts(0xCF1B) == 0xB8F0;
    ByteTaken(0x31A1, 0, 0, 0x31A1, 0xCF1B, 0xB8F0);
  }

  lemma Register5()
    ensures Shifts(Xor(0xB8F0, Low(243)), 8) == 0x01F8
  {
    hide Low, Shifts;
    Low243();
    assert FourShifts(0xB803) == 0x1F80;
    assert FourShifts(0x1F80) == 0x01F8;
    ByteTaken(0xB8F0, 243, 243, 0xB803, 0x1F80, 0x01F8);
  }

  lemma Register6()
    ensures Shifts(Xor(0x01F8, Low(248)), 8) == 0x0001
  {
    hide Low, Shifts;
    Low248();
    assert FourShifts(0x0100) == 0x0010;
    assert FourShifts(0x0010) == 0x0001;
    ByteTaken(0x01F8, 248, 248, 0x0100, 0x0010, 0x0001);
  }

  lemma Register7()
    ensures Shifts(Xor(0x0001, Low(1)), 8) == 0x0000
  {
    hide Low, Shifts;
    Low1();
    assert FourShifts(0x0000) == 0x0000;
    assert FourShifts(0x0000) == 0x0000;
    ByteTaken(0x0001, 1, 1, 0x0000, 0x0000, 0x0000);
  }

  lemma FromCons(c: bv16, b: Byte, rest: seq<Byte>)
    ensures From(c, [b] + rest) == From(Shifts(Xor(c, Low(b)), 8), rest)
  {
    assert ([b] + rest)[1..] == rest;
  }

  /** A response of one register whose value gives a code with high byte 1. */
  lemma CodeEndsInOne()
    ensures Of([1, 3, 2, 0, 243, 248, 1]) == 0
  {
    hide Shifts, Xor, Low, From;
    Register1(); Register2(); Register3(); Register4(); Register5(); Register6(); Register7();
    FromCons(0xFFFF, 1, [3, 2, 0, 243, 248, 1]);
    FromCons(0x807E, 3, [2, 0, 243, 248, 1]);
    FromCons(0x2140, 2, [0, 243, 248, 1]);
    FromCons(0x31A1, 0, [243, 248, 1]);
    FromCons(0xB8F0, 243, [248, 1]);
    FromCons(0x01F8, 248, [1]);
    FromCons(0x0001, 1, []);
    FromNothing(0);
    assert [1] + [] == [1] && [248] + [1] == [248, 1] && [243] + [248, 1] == [243, 248, 1];
    assert [0] + [243, 248, 1] == [0, 243, 248, 1] && [2] + [0, 243, 248, 1] == [2, 0, 243, 248, 1];
    assert [3] + [2, 0, 243, 248, 1] == [3, 2, 0, 243, 248, 1];
    assert [1] + [3, 2, 0, 243, 248, 1] == [1, 3, 2, 0, 243, 248, 1];
  }

  /** No single byte checks to zero. */
  lemma OneByteFails(b: Byte)
    ensures Of([b]) != 0
  {
    hide Shifts, Xor, Low, From, Value;
    FromConcat(INITIAL, [b], [0]);
    assert [b] + [0] == [b, 0] && [0] + [] == [0] && [] + [b, 0] == [b, 0];
    FromCons(0, 0, []);
    Low0();
    XorZero(0);
    ShiftsOfZero(8);
    FromNothing(0);
    FromNothing(INITIAL);
    ResidueZero([], b, 0);
    ValueOfInitial();
  }

  lemma FromNothing(c: bv16)
    ensures From(c, []) == c
  {
  }
}
