/**
 CRC-32 as computed by base/src/fast_crc32.cpp: the reflected polynomial of section 8
 of RFC 1952.  This module is the mathematical side: the one-bit step, its linearity over
 GF(2), the look-up tables defined by their recurrence, and composition over chunks.
 */
module Crc32 {

  const POLYNOMIAL: bv32 := 0xEDB88320

  /** The 32-bit shift register. */
  datatype Reg = Reg(word: bv32)

  const ZERO := Reg(0)

  function XorWord(a: bv32, b: bv32): bv32 {
    a ^ b
  }

  function Xor(a: Reg, b: Reg): Reg {
    Reg(XorWord(a.word, b.word))
  }

  lemma XorCommutes(a: bv32, b: bv32)
    ensures XorWord(a, b) == XorWord(b, a)
  {
  }

  lemma XorAssociates(a: bv32, b: bv32, c: bv32)
    ensures XorWord(XorWord(a, b), c) == XorWord(a, XorWord(b, c))
  {
  }

  lemma XorZero(a: bv32)
    ensures XorWord(a, a) == 0 && XorWord(a, 0) == a
  {
  }

  lemma XorLaws(a: Reg, b: Reg, c: Reg)
    ensures Xor(a, b) == Xor(b, a)
    ensures Xor(Xor(a, b), c) == Xor(a, Xor(b, c))
    ensures Xor(a, a) == ZERO && Xor(a, ZERO) == a
  {
    hide XorWord;
    XorCommutes(a.word, b.word);
    XorAssociates(a.word, b.word, c.word);
    XorZero(a.word);
  }

  lemma XorCancel(a: Reg, b: Reg, c: Reg)
    requires Xor(a, b) == Xor(a, c)
    ensures b == c
  {
    hide Xor;
    XorLaws(a, a, b);
    XorLaws(a, a, c);
    XorLaws(b, ZERO, ZERO);
    XorLaws(c, ZERO, ZERO);
  }

  // ---------------------------------------------------------------------------
  // The one-bit step: linear over GF(2) and injective
  // ---------------------------------------------------------------------------

  function Half(w: bv32): bv32 { w >> 1 }
  function Odd(w: bv32): bv32 { w & 1 }

  function Feedback(bit: bv32): bv32 {
    if bit == 1 then POLYNOMIAL else 0
  }

  function StepWord(w: bv32): bv32 {
    XorWord(Half(w), Feedback(Odd(w)))
  }

  /** Shift one bit out of the register; the bit shifted out decides the feedback. */
  function BitStep(c: Reg): Reg {
    Reg(StepWord(c.word))
  }

  lemma OddIsBit(w: bv32)
    ensures Odd(w) == 0 || Odd(w) == 1
  {
  }

  lemma FeedbackByMask(bit: bv32)
    requires bit == 0 || bit == 1
    ensures Feedback(bit) == (0 - bit) & POLYNOMIAL
  {
  }

  lemma FeedbackByProduct(bit: bv32)
    requires bit == 0 || bit == 1
    ensures Feedback(bit) == bit * POLYNOMIAL
  {
  }

  /** The branch-free spelling of the bitwise loop. */
  lemma StepByMask(w: bv32)
    ensures StepWord(w) == (w >> 1) ^ ((0 - (w & 1)) & POLYNOMIAL)
  {
    OddIsBit(w);
    hide Feedback;
    FeedbackByMask(Odd(w));
  }

  /** The spelling of the table generator. */
  lemma StepByProduct(w: bv32)
    ensures StepWord(w) == (w >> 1) ^ ((w & 1) * POLYNOMIAL)
  {
    OddIsBit(w);
    hide Feedback;
    FeedbackByProduct(Odd(w));
  }

  lemma HalfXor(a: bv32, b: bv32)
    ensures Half(XorWord(a, b)) == XorWord(Half(a), Half(b))
  {
  }

  lemma OddXor(a: bv32, b: bv32)
    ensures Odd(XorWord(a, b)) == XorWord(Odd(a), Odd(b))
  {
  }

  lemma XorSwap(a: bv32, b: bv32, p: bv32, q: bv32)
    ensures XorWord(XorWord(a, b), XorWord(p, q)) == XorWord(XorWord(a, p), XorWord(b, q))
  {
    hide XorWord;
    XorAssociates(a, b, XorWord(p, q));
    XorAssociates(b, p, q);
    XorCommutes(b, p);
    XorAssociates(p, b, q);
    XorAssociates(a, p, XorWord(b, q));
  }

  lemma FeedbackLinear(p: bv32, q: bv32)
    requires (p == 0 || p == 1) && (q == 0 || q == 1)
    ensures Feedback(XorWord(p, q)) == XorWord(Feedback(p), Feedback(q))
  {
  }

  lemma StepWordLinear(a: bv32, b: bv32)
    ensures StepWord(XorWord(a, b)) == XorWord(StepWord(a), StepWord(b))
  {
    hide XorWord, Half, Odd, Feedback;
    HalfXor(a, b);
    OddXor(a, b);
    OddIsBit(a);
    OddIsBit(b);
    FeedbackLinear(Odd(a), Odd(b));
    XorSwap(Half(a), Half(b), Feedback(Odd(a)), Feedback(Odd(b)));
  }

  lemma BitStepLinear(a: Reg, b: Reg)
    ensures BitStep(Xor(a, b)) == Xor(BitStep(a), BitStep(b))
  {
    hide StepWord, XorWord;
    StepWordLinear(a.word, b.word);
  }

  lemma StepWordInjective(a: bv32, b: bv32)
    requires StepWord(a) == StepWord(b)
    ensures a == b
  {
  }

  /** The step loses nothing: the polynomial's top bit records whether feedback was added. */
  lemma BitStepInjective(a: Reg, b: Reg)
    requires BitStep(a) == BitStep(b)
    ensures a == b
  {
    hide StepWord;
    StepWordInjective(a.word, b.word);
  }

  // ---------------------------------------------------------------------------
  // Any number of one-bit steps
  // ---------------------------------------------------------------------------

  function Bits(n: nat, c: Reg): Reg {
    if n == 0 then c else Bits(n - 1, BitStep(c))
  }

  lemma {:induction false} BitsLinear(n: nat, a: Reg, b: Reg)
    ensures Bits(n, Xor(a, b)) == Xor(Bits(n, a), Bits(n, b))
  {
    hide BitStep, Xor;
    if n > 0 {
      BitStepLinear(a, b);
      BitsLinear(n - 1, BitStep(a), BitStep(b));
    }
  }

  lemma {:induction false} BitsInjective(n: nat, a: Reg, b: Reg)
    requires Bits(n, a) == Bits(n, b)
    ensures a == b
  {
    hide BitStep;
    if n > 0 {
      BitsInjective(n - 1, BitStep(a), BitStep(b));
      BitStepInjective(a, b);
    }
  }

  lemma {:induction false} BitsAdd(m: nat, n: nat, c: Reg)
    ensures Bits(m + n, c) == Bits(n, Bits(m, c))
  {
    hide BitStep;
    if m > 0 {
      BitsAdd(m - 1, n, BitStep(c));
    }
  }

  lemma {:induction false} BitsZero(n: nat)
    ensures Bits(n, ZERO) == ZERO
  {
    if n > 0 {
      BitsZero(n - 1);
    }
  }

  // ---------------------------------------------------------------------------
  // Bytes and nibbles: the table look-up identities
  // ---------------------------------------------------------------------------

  function Byte(b: bv8): Reg { Reg(b as bv32) }
  function Up8Word(w: bv32): bv32 { w << 8 }
  function Up4Word(w: bv32): bv32 { w << 4 }
  function Up8(c: Reg): Reg { Reg(Up8Word(c.word)) }
  function Down8Word(w: bv32): bv32 { w >> 8 }
  function Down4Word(w: bv32): bv32 { w >> 4 }
  function Low8Word(w: bv32): bv32 { w & 0xFF }
  function Low4Word(w: bv32): bv32 { w & 0xF }
  function Down8(c: Reg): Reg { Reg(Down8Word(c.word)) }
  function Low8(c: Reg): Reg { Reg(Low8Word(c.word)) }
  function Up4(c: Reg): Reg { Reg(Up4Word(c.word)) }
  function Down4(c: Reg): Reg { Reg(Down4Word(c.word)) }
  function Low4(c: Reg): Reg { Reg(Low4Word(c.word)) }
  predicate Fits24(c: Reg) { c.word & 0xFF00_0000 == 0 }
  predicate Fits28(c: Reg) { c.word & 0xF000_0000 == 0 }

  function Double(w: bv32): bv32 { w << 1 }
  predicate Top(w: bv32) { w & 0x8000_0000 != 0 }

  lemma DoubleStep(w: bv32)
    requires !Top(w)
    ensures StepWord(Double(w)) == w
  {
  }

  lemma DoubleFourTimes(w: bv32)
    ensures Up4Word(w) == Double(Double(Double(Double(w))))
  {
  }

  lemma NotTop0(w: bv32)
    requires w & 0xF000_0000 == 0
    ensures !Top(w)
  {
  }

  lemma NotTop1(w: bv32)
    requires w & 0xF000_0000 == 0
    ensures !Top(Double(w))
  {
  }

  lemma NotTop2(w: bv32)
    requires w & 0xF000_0000 == 0
    ensures !Top(Double(Double(w)))
  {
  }

  lemma NotTop3(w: bv32)
    requires w & 0xF000_0000 == 0
    ensures !Top(Double(Double(Double(w))))
  {
  }

  lemma FourStepsDown(w: bv32)
    requires w & 0xF000_0000 == 0
    ensures StepWord(StepWord(StepWord(StepWord(Up4Word(w))))) == w
  {
    hide StepWord, Up4Word, Double, Top;
    NotTop0(w);
    NotTop1(w);
    NotTop2(w);
    NotTop3(w);
    DoubleFourTimes(w);
    DoubleStep(Double(Double(Double(w))));
    DoubleStep(Double(Double(w)));
    DoubleStep(Double(w));
    DoubleStep(w);
  }

  /** A value four places up comes down four places in four steps, feeding nothing back. */
  lemma Bits4Up(c: Reg)
    requires Fits28(c)
    ensures Bits(4, Up4(c)) == c
  {
    hide StepWord, Up4Word;
    FourStepsDown(c.word);
    var c0 := Up4(c);
    var c1 := BitStep(c0);
    var c2 := BitStep(c1);
    var c3 := BitStep(c2);
    FourSteps(c0, c1, c2, c3, c);
  }

  lemma FourSteps(c0: Reg, c1: Reg, c2: Reg, c3: Reg, c4: Reg)
    requires BitStep(c0) == c1 && BitStep(c1) == c2 && BitStep(c2) == c3 && BitStep(c3) == c4
    ensures Bits(4, c0) == c4
  {
    hide BitStep;
    assert Bits(4, c0) == Bits(3, c1) == Bits(2, c2) == Bits(1, c3) == Bits(0, c4);
  }

  lemma UpWords(w: bv32)
    requires w & 0xFF00_0000 == 0
    ensures Up8Word(w) == Up4Word(Up4Word(w))
    ensures w & 0xF000_0000 == 0 && Up4Word(w) & 0xF000_0000 == 0
  {
  }

  lemma Up8IsUp4Twice(c: Reg)
    requires Fits24(c)
    ensures Up8(c) == Up4(Up4(c)) && Fits28(c) && Fits28(Up4(c))
  {
    hide Up4Word, Up8Word;
    UpWords(c.word);
  }

  lemma Bits8Up(n: nat, c: Reg)
    requires Fits24(c)
    ensures Bits(8 + n, Up8(c)) == Bits(n, c)
  {
    Up8IsUp4Twice(c);
    hide BitStep, Up4, Up8, Fits24, Fits28;
    Bits4Up(Up4(c));
    Bits4Up(c);
    BitsAdd(4, 4, Up8(c));
    BitsAdd(8, n, Up8(c));
  }

  lemma SplitNibble(c: Reg)
    ensures c == Xor(Low4(c), Up4(Down4(c))) && Fits28(Down4(c))
  {
    var w := c.word;
    assert w == (w & 0xF) ^ ((w >> 4) << 4);
    assert (w >> 4) & 0xF000_0000 == 0;
  }

  lemma SplitByte(c: Reg)
    ensures c == Xor(Low8(c), Up8(Down8(c))) && Fits24(Down8(c))
  {
    var w := c.word;
    assert w == (w & 0xFF) ^ ((w >> 8) << 8);
    assert (w >> 8) & 0xFF00_0000 == 0;
  }

  /** One half-byte look-up replaces four one-bit steps. */
  lemma Bits4Split(c: Reg)
    ensures Bits(4, c) == Xor(Bits(4, Low4(c)), Down4(c))
  {
    SplitNibble(c);
    hide BitStep, Xor, Low4, Up4, Down4, Fits28;
    BitsLinear(4, Low4(c), Up4(Down4(c)));
    Bits4Up(Down4(c));
  }

  /** One byte look-up replaces eight one-bit steps. */
  lemma Bits8Split(c: Reg)
    ensures Bits(8, c) == Xor(Bits(8, Low8(c)), Down8(c))
  {
    SplitByte(c);
    hide BitStep, Xor, Low8, Up8, Down8, Fits24;
    BitsLinear(8, Low8(c), Up8(Down8(c)));
    Bits8Up(0, Down8(c));
  }

  // ---------------------------------------------------------------------------
  // The checksum of a byte string
  // ---------------------------------------------------------------------------

  /** The register after the bytes of `data`, starting from register value `c`. */
  function Run(c: Reg, data: seq<bv8>): Reg
    decreases |data|
  {
    if data == [] then c else Run(Bits(8, Xor(c, Byte(data[0]))), data[1..])
  }

  /** The checksum of `data` continued from the checksum `previous`. */
  function Checksum(data: seq<bv8>, previous: bv32): bv32 {
    Not(Run(Not(Reg(previous)), data)).word
  }

  function NotWord(w: bv32): bv32 { !w }
  function Not(r: Reg): Reg { Reg(NotWord(r.word)) }

  lemma NotNot(r: Reg)
    ensures Not(Not(r)) == r
  {
    hide NotWord;
    NotNotWord(r.word);
  }

  lemma NotNotWord(w: bv32)
    ensures NotWord(NotWord(w)) == w
  {
  }

  lemma {:induction false} RunConcat(c: Reg, a: seq<bv8>, b: seq<bv8>)
    ensures Run(c, a + b) == Run(Run(c, a), b)
    decreases |a|
  {
    hide Bits, Xor, Byte;
    if a == [] {
      assert a + b == b;
    } else {
      assert (a + b)[1..] == a[1..] + b;
      RunConcat(Bits(8, Xor(c, Byte(a[0]))), a[1..], b);
    }
  }

  lemma RunSnoc(c: Reg, data: seq<bv8>, i: nat)
    requires i < |data|
    ensures Run(c, data[..i + 1]) == Bits(8, Xor(Run(c, data[..i]), Byte(data[i])))
  {
    hide Bits, Xor, Byte;
    assert data[..i + 1] == data[..i] + [data[i]];
    RunConcat(c, data[..i], [data[i]]);
    assert [data[i]][1..] == [];
  }

  /** The checksum composes: a second call continues exactly where the first one stopped. */
  lemma ChecksumConcat(a: seq<bv8>, b: seq<bv8>, previous: bv32)
    ensures Checksum(a + b, previous) == Checksum(b, Checksum(a, previous))
  {
    hide Run, Not;
    RunConcat(Not(Reg(previous)), a, b);
    NotNot(Run(Not(Reg(previous)), a));
  }

  // ---------------------------------------------------------------------------
  // The look-up tables, by the recurrence that generates them
  // ---------------------------------------------------------------------------

  function Lookup(slice: nat, i: Reg): Reg {
    if slice == 0 then Bits(8, i)
    else Xor(Down8(Lookup(slice - 1, i)), Lookup(0, Low8(Lookup(slice - 1, i))))
  }

  /** Row `slice` of the table holds what 8 * (slice + 1) one-bit steps do to a byte. */
  lemma {:induction false} LookupIsBits(slice: nat, i: Reg)
    ensures Lookup(slice, i) == Bits(8 * (slice + 1), i)
  {
    hide Bits, Xor, Down8, Low8;
    if slice > 0 {
      var prev := Lookup(slice - 1, i);
      LookupIsBits(slice - 1, i);
      Bits8Split(prev);
      BitsAdd(8 * slice, 8, i);
      XorLaws(Down8(prev), Bits(8, Low8(prev)), ZERO);
    }
  }

  /** Byte `k` of a register, counted from the low end. */
  function Part(k: nat, x: Reg): Reg {
    if k == 0 then Low8(x) else Part(k - 1, Down8(x))
  }

  lemma DownFour(x: Reg)
    ensures Down8(Down8(Down8(Down8(x)))) == ZERO
  {
    assert (((x.word >> 8) >> 8) >> 8) >> 8 == 0;
  }

  /** The low byte can be stepped apart from the others, which stand eight places up. */
  lemma StepDown(n: nat, x: Reg)
    ensures Bits(8 + n, x) == Xor(Bits(8 + n, Low8(x)), Bits(n, Down8(x)))
  {
    SplitByte(x);
    hide BitStep, Xor, Low8, Up8, Down8, Fits24;
    BitsLinear(8 + n, Low8(x), Up8(Down8(x)));
    Bits8Up(n, Down8(x));
  }

  /** Four look-ups replace 32 + 8k one-bit steps on a whole word. */
  lemma WordLookup(k: nat, x: Reg)
    ensures Bits(32 + 8 * k, x) ==
            Xor(Xor(Xor(Lookup(k, Part(3, x)), Lookup(k + 1, Part(2, x))),
                    Lookup(k + 2, Part(1, x))), Lookup(k + 3, Part(0, x)))
  {
    DownFour(x);
    hide Bits, Xor, Low8, Down8, Lookup;
    var x1 := Down8(x);
    var x2 := Down8(x1);
    var x3 := Down8(x2);
    assert Part(0, x) == Low8(x) && Part(1, x) == Low8(x1);
    assert Part(2, x) == Part(1, x1) == Part(0, x2) == Low8(x2);
    assert Part(3, x) == Part(2, x1) == Part(1, x2) == Part(0, x3) == Low8(x3);
    StepDown(24 + 8 * k, x);
    StepDown(16 + 8 * k, x1);
    StepDown(8 + 8 * k, x2);
    StepDown(8 * k, x3);
    BitsZero(8 * k);
    LookupIsBits(k, Low8(x3));
    LookupIsBits(k + 1, Low8(x2));
    LookupIsBits(k + 2, Low8(x1));
    LookupIsBits(k + 3, Low8(x));
    XorFour(Lookup(k + 3, Low8(x)), Lookup(k + 2, Low8(x1)), Lookup(k + 1, Low8(x2)), Lookup(k, Low8(x3)));
  }

  lemma XorFour(a: Reg, b: Reg, c: Reg, d: Reg)
    ensures Xor(a, Xor(b, Xor(c, Xor(d, ZERO)))) == Xor(Xor(Xor(d, c), b), a)
  {
    hide Xor;
    XorLaws(d, ZERO, ZERO);
    XorLaws(c, d, ZERO);
    XorLaws(b, Xor(d, c), ZERO);
    XorLaws(a, Xor(Xor(d, c), b), ZERO);
  }

  // ---------------------------------------------------------------------------
  // Absorbing several bytes at once
  // ---------------------------------------------------------------------------

  /** The register value a little-endian load makes of the bytes of `data`. */
  function Word(data: seq<bv8>): Reg {
    if data == [] then ZERO else Xor(Byte(data[0]), Up8(Word(data[1..])))
  }

  lemma {:induction false} WordFits(data: seq<bv8>)
    requires |data| <= 3
    ensures Fits24(Word(data))
    ensures |data| <= 2 ==> Word(data).word & 0xFFFF_0000 == 0
    ensures |data| <= 1 ==> Word(data).word & 0xFFFF_FF00 == 0
    ensures |data| <= 0 ==> Word(data).word == 0
  {
    if data != [] {
      WordFits(data[1..]);
      var b, w := data[0], Word(data[1..]).word;
      assert (b as bv32) & 0xFFFF_FF00 == 0;
      if |data| == 3 {
        assert w & 0xFFFF_0000 == 0;
        assert ((b as bv32) ^ (w << 8)) & 0xFF00_0000 == 0;
      } else if |data| == 2 {
        assert w & 0xFFFF_FF00 == 0;
        assert ((b as bv32) ^ (w << 8)) & 0xFFFF_0000 == 0;
        assert ((b as bv32) ^ (w << 8)) & 0xFF00_0000 == 0;
      } else {
        assert w == 0;
        assert ((b as bv32) ^ (w << 8)) & 0xFFFF_FF00 == 0;
      }
    }
  }

  /** Xoring up to four bytes into the register and stepping past them absorbs them all. */
  lemma {:induction false} AbsorbWord(c: Reg, data: seq<bv8>)
    requires |data| <= 4
    ensures Bits(8 * |data|, Xor(c, Word(data))) == Run(c, data)
    decreases |data|
  {
    XorLaws(c, ZERO, ZERO);
    if data != [] {
      var b, rest := Byte(data[0]), Word(data[1..]);
      WordFits(data[1..]);
      hide BitStep, Xor, Up8, Fits24, Byte;
      XorLaws(c, b, Up8(rest));
      BitsLinear(8, Xor(c, b), Up8(rest));
      Bits8Up(0, rest);
      BitsAdd(8, 8 * |data[1..]|, Xor(c, Word(data)));
      AbsorbWord(Bits(8, Xor(c, b)), data[1..]);
    }
  }
}
