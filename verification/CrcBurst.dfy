/**
 What the checksum detects: two messages of equal length that differ, but only inside some
 window of 32 consecutive bits, never have the same checksum.  The register is fed one
 message bit at a time (least significant bit of each byte first), which is what eight
 one-bit steps per byte amount to.
 */
module CrcBurst {
  import opened Crc32

  function HalfReg(r: Reg): Reg { Reg(Half(r.word)) }
  function DoubleReg(r: Reg): Reg { Reg(Double(r.word)) }
  predicate TopBit(r: Reg) { Top(r.word) }
  predicate OddBit(r: Reg) { Odd(r.word) == 1 }
  function BitReg(b: bool): Reg { if b then Reg(1) else ZERO }

  // ---------------------------------------------------------------------------
  // Halving and doubling
  // ---------------------------------------------------------------------------

  lemma HalveWord(w: bv32)
    ensures w == XorWord(if Odd(w) == 1 then 1 else 0, Double(Half(w)))
    ensures !Top(Half(w))
  {
  }

  lemma Halve(r: Reg)
    ensures r == Xor(BitReg(OddBit(r)), DoubleReg(HalfReg(r))) && !TopBit(HalfReg(r))
  {
    HalveWord(r.word);
    hide XorWord, Half, Double, Odd, Top;
  }

  lemma HalfOfDouble(w: bv32)
    requires !Top(w)
    ensures Half(Double(w)) == w
  {
  }

  lemma HalfPushed(bit: bv32, w: bv32)
    requires (bit == 0 || bit == 1) && !Top(w)
    ensures Half(XorWord(bit, Double(w))) == w
  {
    assert Half(0) == 0 && Half(1) == 0;
    hide XorWord, Half, Double, Top;
    HalfXor(bit, Double(w));
    HalfOfDouble(w);
    XorCommutes(0, w);
    XorZero(w);
  }

  lemma OddPushed(bit: bv32, w: bv32)
    requires bit == 0 || bit == 1
    ensures Odd(XorWord(bit, Double(w))) == bit
  {
  }

  lemma Push(b: bool, r: Reg)
    requires !TopBit(r)
    ensures HalfReg(Xor(BitReg(b), DoubleReg(r))) == r
    ensures OddBit(Xor(BitReg(b), DoubleReg(r))) == b
  {
    HalfPushed(if b then 1 else 0, r.word);
    OddPushed(if b then 1 else 0, r.word);
    hide XorWord, Half, Double, Odd, Top;
  }

  lemma StepDoubled(r: Reg)
    requires !TopBit(r)
    ensures BitStep(DoubleReg(r)) == r
  {
    DoubleStep(r.word);
    hide StepWord, Double, Top;
  }

  function HalfN(n: nat, r: Reg): Reg {
    if n == 0 then r else HalfN(n - 1, HalfReg(r))
  }

  lemma {:induction false} HalfAdd(m: nat, n: nat, r: Reg)
    ensures HalfN(m + n, r) == HalfN(n, HalfN(m, r))
  {
    hide HalfReg;
    if m > 0 {
      HalfAdd(m - 1, n, HalfReg(r));
    }
  }

  lemma {:induction false} HalfZero(n: nat)
    ensures HalfN(n, ZERO) == ZERO
  {
    if n > 0 {
      assert HalfReg(ZERO) == ZERO;
      HalfZero(n - 1);
    }
  }

  lemma HalfFour(r: Reg)
    ensures HalfN(4, r) == Down4(r)
  {
    HalfFourWord(r.word);
    var r1 := HalfReg(r);
    var r2 := HalfReg(r1);
    var r3 := HalfReg(r2);
    hide Half;
    assert HalfN(4, r) == HalfN(3, r1) == HalfN(2, r2) == HalfN(1, r3) == HalfN(0, HalfReg(r3));
  }

  lemma HalfFourWord(w: bv32)
    ensures Half(Half(Half(Half(w)))) == w >> 4
  {
  }

  function Down28(w: bv32): bv32 { w >> 28 }

  lemma DownSevenTimes(w: bv32)
    ensures ((((((w >> 4) >> 4) >> 4) >> 4) >> 4) >> 4) >> 4 == Down28(w)
  {
  }

  lemma HalfTwentyEight(r: Reg)
    ensures HalfN(28, r) == Reg(Down28(r.word))
  {
    var r1 := Down4(r);
    var r2 := Down4(r1);
    var r3 := Down4(r2);
    var r4 := Down4(r3);
    var r5 := Down4(r4);
    var r6 := Down4(r5);
    var r7 := Down4(r6);
    assert r7 == Reg(Down28(r.word)) by { DownSevenTimes(r.word); }
    hide Down4, Down28, HalfReg;
    HalfFour(r); HalfFour(r1); HalfFour(r2); HalfFour(r3); HalfFour(r4); HalfFour(r5); HalfFour(r6);
    HalfAdd(4, 24, r); HalfAdd(4, 20, r1); HalfAdd(4, 16, r2); HalfAdd(4, 12, r3); HalfAdd(4, 8, r4); HalfAdd(4, 4, r5);
  }

  lemma TopSurvives(w: bv32)
    requires Half(Half(Half(Down28(w)))) == 0
    ensures !Top(w)
  {
  }

  /** A value that vanishes after at most 31 halvings leaves the top bit free. */
  lemma FitsNotTop(n: nat, r: Reg)
    requires n <= 31 && HalfN(n, r) == ZERO
    ensures !TopBit(r)
  {
    hide Half, Down28, Top;
    HalfAdd(n, 31 - n, r);
    HalfZero(31 - n);
    HalfTwentyEight(r);
    HalfAdd(28, 3, r);
    var s := HalfN(28, r);
    assert HalfN(3, s) == HalfN(2, HalfReg(s)) == HalfN(1, HalfReg(HalfReg(s))) == HalfReg(HalfReg(HalfReg(s)));
    TopSurvives(r.word);
  }

  // ---------------------------------------------------------------------------
  // Packing up to 32 message bits into a register value
  // ---------------------------------------------------------------------------

  function Pack(bits: seq<bool>): Reg {
    if bits == [] then ZERO else Xor(BitReg(bits[0]), DoubleReg(Pack(bits[1..])))
  }

  function Unpack(n: nat, r: Reg): (bits: seq<bool>)
    ensures |bits| == n
  {
    if n == 0 then [] else [OddBit(r)] + Unpack(n - 1, HalfReg(r))
  }

  lemma {:induction false} PackFits(bits: seq<bool>)
    requires |bits| <= 32
    ensures HalfN(|bits|, Pack(bits)) == ZERO
    ensures bits != [] ==> !TopBit(Pack(bits[1..]))
    decreases |bits|
  {
    hide HalfReg, DoubleReg, TopBit, BitReg, Xor, OddBit;
    if bits != [] {
      PackFits(bits[1..]);
      FitsNotTop(|bits| - 1, Pack(bits[1..]));
      Push(bits[0], Pack(bits[1..]));
    }
  }

  lemma {:induction false} UnpackPack(bits: seq<bool>)
    requires |bits| <= 32
    ensures Unpack(|bits|, Pack(bits)) == bits
    decreases |bits|
  {
    hide HalfReg, DoubleReg, TopBit, BitReg, Xor, OddBit;
    if bits != [] {
      PackFits(bits);
      Push(bits[0], Pack(bits[1..]));
      UnpackPack(bits[1..]);
      assert [bits[0]] + bits[1..] == bits;
    }
  }

  lemma {:induction false} PackUnpack(n: nat, r: Reg)
    requires HalfN(n, r) == ZERO
    ensures Pack(Unpack(n, r)) == r
    decreases n
  {
    hide HalfReg, DoubleReg, TopBit, BitReg, Xor, OddBit;
    if n > 0 {
      Halve(r);
      PackUnpack(n - 1, HalfReg(r));
      assert Unpack(n, r)[1..] == Unpack(n - 1, HalfReg(r));
    }
  }

  // ---------------------------------------------------------------------------
  // Feeding the register one message bit at a time
  // ---------------------------------------------------------------------------

  function BitRun(c: Reg, bits: seq<bool>): Reg
    decreases |bits|
  {
    if bits == [] then c else BitRun(BitStep(Xor(c, BitReg(bits[0]))), bits[1..])
  }

  lemma {:induction false} BitRunConcat(c: Reg, a: seq<bool>, b: seq<bool>)
    ensures BitRun(c, a + b) == BitRun(BitRun(c, a), b)
    decreases |a|
  {
    hide BitStep, Xor, BitReg;
    if a == [] {
      assert a + b == b;
    } else {
      assert (a + b)[1..] == a[1..] + b;
      BitRunConcat(BitStep(Xor(c, BitReg(a[0]))), a[1..], b);
    }
  }

  /** Up to 32 bits fed one by one amount to xoring them in at once and stepping. */
  lemma {:induction false} BitRunPack(c: Reg, bits: seq<bool>)
    requires |bits| <= 32
    ensures BitRun(c, bits) == Bits(|bits|, Xor(c, Pack(bits)))
    decreases |bits|
  {
    hide HalfReg, DoubleReg, TopBit, BitReg, Xor, OddBit, BitStep;
    if bits == [] {
      XorLaws(c, ZERO, ZERO);
    } else {
      var b, rest := BitReg(bits[0]), Pack(bits[1..]);
      PackFits(bits);
      XorLaws(c, b, DoubleReg(rest));
      BitStepLinear(Xor(c, b), DoubleReg(rest));
      StepDoubled(rest);
      BitRunPack(BitStep(Xor(c, b)), bits[1..]);
    }
  }

  /** Different windows of at most 32 bits drive the register apart. */
  lemma WindowInjective(c: Reg, a: seq<bool>, b: seq<bool>)
    requires |a| == |b| <= 32
    requires BitRun(c, a) == BitRun(c, b)
    ensures a == b
  {
    hide Xor, Bits, Pack;
    BitRunPack(c, a);
    BitRunPack(c, b);
    BitsInjective(|a|, Xor(c, Pack(a)), Xor(c, Pack(b)));
    XorCancel(c, Pack(a), Pack(b));
    UnpackPack(a);
    UnpackPack(b);
  }

  /** Once apart, equal bits keep the registers apart. */
  lemma {:induction false} SuffixInjective(c: Reg, d: Reg, bits: seq<bool>)
    requires BitRun(c, bits) == BitRun(d, bits)
    ensures c == d
    decreases |bits|
  {
    hide Xor, BitStep, BitReg;
    if bits != [] {
      var b := BitReg(bits[0]);
      SuffixInjective(BitStep(Xor(c, b)), BitStep(Xor(d, b)), bits[1..]);
      BitStepInjective(Xor(c, b), Xor(d, b));
      XorLaws(c, b, ZERO);
      XorLaws(d, b, ZERO);
      XorCancel(b, c, d);
    }
  }

  // ---------------------------------------------------------------------------
  // Messages as bit strings
  // ---------------------------------------------------------------------------

  function ByteBits(b: bv8): seq<bool> {
    Unpack(8, Byte(b))
  }

  /** The message bits in transmission order: least significant bit of each byte first. */
  function MessageBits(data: seq<bv8>): (bits: seq<bool>)
    ensures |bits| == 8 * |data|
  {
    if data == [] then [] else ByteBits(data[0]) + MessageBits(data[1..])
  }

  lemma DownTwice(b: bv8)
    ensures ((b as bv32) >> 4) >> 4 == 0
  {
  }

  lemma ByteFits(b: bv8)
    ensures HalfN(8, Byte(b)) == ZERO
  {
    DownTwice(b);
    HalfFour(Byte(b));
    HalfFour(Down4(Byte(b)));
    hide HalfReg;
    HalfAdd(4, 4, Byte(b));
  }

  lemma {:induction false} RunIsBitRun(c: Reg, data: seq<bv8>)
    ensures Run(c, data) == BitRun(c, MessageBits(data))
    decreases |data|
  {
    hide Xor, Bits, BitStep, BitReg, Byte, Pack;
    if data != [] {
      var bits := ByteBits(data[0]);
      ByteFits(data[0]);
      PackUnpack(8, Byte(data[0]));
      BitRunPack(c, bits);
      BitRunConcat(c, bits, MessageBits(data[1..]));
      RunIsBitRun(Bits(8, Xor(c, Byte(data[0]))), data[1..]);
    }
  }

  lemma ByteInjective(a: bv8, b: bv8)
    requires Byte(a) == Byte(b)
    ensures a == b
  {
    assert a as bv32 == b as bv32 ==> a == b;
  }

  lemma ByteBitsInjective(a: bv8, b: bv8)
    requires ByteBits(a) == ByteBits(b)
    ensures a == b
  {
    hide Byte, Unpack, Pack;
    ByteFits(a);
    ByteFits(b);
    PackUnpack(8, Byte(a));
    PackUnpack(8, Byte(b));
    ByteInjective(a, b);
  }

  lemma {:induction false} MessageBitsInjective(a: seq<bv8>, b: seq<bv8>)
    requires |a| == |b| && MessageBits(a) == MessageBits(b)
    ensures a == b
    decreases |a|
  {
    hide ByteBits;
    if a != [] {
      ByteBitsLength(a[0]);
      ByteBitsLength(b[0]);
      assert ByteBits(a[0]) == MessageBits(a)[..8] && ByteBits(b[0]) == MessageBits(b)[..8];
      assert MessageBits(a[1..]) == MessageBits(a)[8..] && MessageBits(b[1..]) == MessageBits(b)[8..];
      ByteBitsInjective(a[0], b[0]);
      MessageBitsInjective(a[1..], b[1..]);
      assert a == [a[0]] + a[1..] && b == [b[0]] + b[1..];
    }
  }

  lemma ByteBitsLength(b: bv8)
    ensures |ByteBits(b)| == 8
  {
  }

  lemma {:induction false} MessageBitAt(data: seq<bv8>, k: nat, j: nat)
    requires k < |data| && j < 8
    ensures |ByteBits(data[k])| == 8
    ensures MessageBits(data)[8 * k + j] == ByteBits(data[k])[j]
    decreases k
  {
    hide ByteBits;
    ByteBitsLength(data[0]);
    ByteBitsLength(data[k]);
    if k > 0 {
      MessageBitAt(data[1..], k - 1, j);
    }
  }

  // ---------------------------------------------------------------------------
  // The burst theorems
  // ---------------------------------------------------------------------------

  /** `a` and `b` agree outside the 32 bits starting at bit `start`. */
  ghost predicate DifferWithinBurst(a: seq<bv8>, b: seq<bv8>, start: nat) {
    && |a| == |b|
    && forall i :: 0 <= i < 8 * |a| && MessageBits(a)[i] != MessageBits(b)[i] ==> start <= i < start + 32
  }

  lemma SplitBurst(p: seq<bool>, q: seq<bool>, start: nat) returns (end: nat)
    requires |p| == |q| && start <= |p|
    requires forall i :: 0 <= i < |p| && p[i] != q[i] ==> start <= i < start + 32
    ensures start <= end <= |p| && end - start <= 32
    ensures p[..start] == q[..start] && p[end..] == q[end..]
  {
    end := if start + 32 <= |p| then start + 32 else |p|;
  }

  lemma BurstMovesRegister(c: Reg, p: seq<bool>, q: seq<bool>, start: nat)
    requires |p| == |q| && start <= |p|
    requires forall i :: 0 <= i < |p| && p[i] != q[i] ==> start <= i < start + 32
    requires BitRun(c, p) == BitRun(c, q)
    ensures p == q
  {
    hide BitRun;
    var end := SplitBurst(p, q, start);
    var head, tail := p[..start], p[end..];
    var d := BitRun(c, head);
    assert p == head + (p[start..end] + tail) && q == head + (q[start..end] + tail);
    BitRunConcat(c, head, p[start..end] + tail);
    BitRunConcat(c, head, q[start..end] + tail);
    BitRunConcat(d, p[start..end], tail);
    BitRunConcat(d, q[start..end], tail);
    SuffixInjective(BitRun(d, p[start..end]), BitRun(d, q[start..end]), tail);
    WindowInjective(d, p[start..end], q[start..end]);
  }

  /** Every error burst of at most 32 bits, at any bit offset of any message, is detected. */
  lemma BurstDetected(a: seq<bv8>, b: seq<bv8>, start: nat, previous: bv32)
    requires DifferWithinBurst(a, b, start) && a != b
    ensures Checksum(a, previous) != Checksum(b, previous)
  {
    hide Run, MessageBits, BitRun, Not;
    if Checksum(a, previous) == Checksum(b, previous) {
      var c := Not(Reg(previous));
      NotNot(Run(c, a));
      NotNot(Run(c, b));
      assert Not(Run(c, a)) == Not(Run(c, b));
      RunIsBitRun(c, a);
      RunIsBitRun(c, b);
      var from := if start <= 8 * |a| then start else 0;
      BurstMovesRegister(c, MessageBits(a), MessageBits(b), from);
      MessageBitsInjective(a, b);
    }
  }

  /** A change confined to four consecutive bytes is such a burst. */
  lemma FourBytesAreABurst(a: seq<bv8>, b: seq<bv8>, first: nat)
    requires |a| == |b|
    requires forall k :: 0 <= k < |a| && a[k] != b[k] ==> first <= k < first + 4
    ensures DifferWithinBurst(a, b, 8 * first)
  {
    hide MessageBits, ByteBits;
    forall i | 0 <= i < 8 * |a| && MessageBits(a)[i] != MessageBits(b)[i]
      ensures 8 * first <= i < 8 * first + 32
    {
      var k, j := i / 8, i % 8;
      MessageBitAt(a, k, j);
      MessageBitAt(b, k, j);
    }
  }
}
