/**
 The eight loops of base/src/fast_crc32.cpp (little-endian branches) and the chunk loop of
 FileFastCRC32, each proved to return the checksum that Crc32.Checksum defines.  The local
 `crc` holds the complemented register, as in the source.
 */
module FastCrc32 {
  import opened Prelude
  import opened Crc32

  lemma RunNothing(c: Reg, data: seq<bv8>)
    ensures Run(c, data[..0]) == c
  {
  }

  lemma RunAll(c: Reg, data: seq<bv8>)
    ensures Run(c, data[..|data|]) == Run(c, data)
  {
    hide Run;
    assert data[..|data|] == data;
  }

  // ---------------------------------------------------------------------------
  // The bitwise loop
  // ---------------------------------------------------------------------------

  lemma StepIs(c: Reg, next: bv32)
    requires next == StepWord(c.word)
    ensures BitStep(c) == Reg(next)
  {
    hide StepWord;
  }

  /** Eight rounds of the branch-free one-bit step. */
  method EightBits(start: Reg) returns (crc: Reg)
    ensures crc == Bits(8, start)
  {
    hide BitStep, XorWord;
    crc := start;
    for j := 0 to 8
      invariant Bits(8 - j, crc) == Bits(8, start)
    {
      StepByMask(crc.word);
      var next := (crc.word >> 1) ^ ((0 - (crc.word & 1)) & POLYNOMIAL);
      StepIs(crc, next);
      crc := Reg(next);
    }
  }

  method Bitwise(data: seq<bv8>, previous: bv32) returns (result: bv32)
    ensures result == Checksum(data, previous)
  {
    hide Run, Bits, Xor, Byte, Not;
    var start := Not(Reg(previous));
    var crc := start;
    RunNothing(start, data);
    for i := 0 to |data|
      invariant crc == Run(start, data[..i])
    {
      RunSnoc(start, data, i);
      crc := EightBits(Xor(crc, Byte(data[i])));
    }
    RunAll(start, data);
    result := Not(crc).word;
  }

  // ---------------------------------------------------------------------------
  // The half-byte loop
  // ---------------------------------------------------------------------------

  const CRC32_LOOKUP16: seq<bv32> := [
    0x00000000, 0x1DB71064, 0x3B6E20C8, 0x26D930AC, 0x76DC4190, 0x6B6B51F4, 0x4DB26158, 0x5005713C,
    0xEDB88320, 0xF00F9344, 0xD6D6A3E8, 0xCB61B38C, 0x9B64C2B0, 0x86D3D2D4, 0xA00AE278, 0xBDBDF21C
  ]

  function Lookup16(i: bv32): bv32
    requires i <= 0xF
  {
    CRC32_LOOKUP16[i as int]
  }

  function FourWordSteps(w: bv32): bv32 {
    StepWord(StepWord(StepWord(StepWord(w))))
  }

  lemma Bits4IsFourWordSteps(w: bv32)
    ensures Bits(4, Reg(w)) == Reg(FourWordSteps(w))
  {
    hide StepWord;
    var c1 := BitStep(Reg(w));
    var c2 := BitStep(c1);
    FourSteps(Reg(w), c1, c2, BitStep(c2), Reg(FourWordSteps(w)));
  }

  lemma Table0(i: bv32)
    requires i <= 3
    ensures Lookup16(i) == FourWordSteps(i)
  {
    if i == 0 {} else if i == 1 {} else if i == 2 {} else {}
  }

  lemma Table1(i: bv32)
    requires 4 <= i <= 7
    ensures Lookup16(i) == FourWordSteps(i)
  {
    if i == 4 {} else if i == 5 {} else if i == 6 {} else {}
  }

  lemma Table2(i: bv32)
    requires 8 <= i <= 11
    ensures Lookup16(i) == FourWordSteps(i)
  {
    if i == 8 {} else if i == 9 {} else if i == 10 {} else {}
  }

  lemma Table3(i: bv32)
    requires 12 <= i <= 15
    ensures Lookup16(i) == FourWordSteps(i)
  {
    if i == 12 {} else if i == 13 {} else if i == 14 {} else {}
  }

  /** The literal half-byte table is what four one-bit steps make of each nibble. */
  lemma Lookup16IsBits(i: bv32)
    requires i <= 0xF
    ensures Reg(Lookup16(i)) == Bits(4, Reg(i))
  {
    hide FourWordSteps, Lookup16, Bits;
    if i <= 3 { Table0(i); } else if i <= 7 { Table1(i); } else if i <= 11 { Table2(i); } else { Table3(i); }
    Bits4IsFourWordSteps(i);
  }

  lemma Low4Fits(r: Reg)
    ensures Low4(r).word <= 0xF
  {
    assert r.word & 0xF <= 0xF;
  }

  function HighNibble(b: bv8): Reg { Byte(b >> 4) }

  /** One half-byte round: `n` supplies the nibble in its low four bits. */
  function NibbleStep(c: Reg, n: Reg): Reg {
    Low4Fits(Xor(c, n));
    Xor(Reg(Lookup16(Low4(Xor(c, n)).word)), Down4(c))
  }

  lemma LowNibbleWord(c: bv32, n: bv32)
    ensures Low4Word(XorWord(c, n)) == Low4Word(XorWord(c, Low4Word(n)))
  {
  }

  lemma HighNibblesWord(c: bv32, n: bv32)
    ensures Down4Word(XorWord(c, Low4Word(n))) == Down4Word(c)
  {
  }

  lemma NibbleParts(c: Reg, n: Reg)
    ensures Low4(Xor(c, n)) == Low4(Xor(c, Low4(n))) && Down4(Xor(c, Low4(n))) == Down4(c)
  {
    hide XorWord, Low4Word, Down4Word;
    LowNibbleWord(c.word, n.word);
    HighNibblesWord(c.word, n.word);
  }

  lemma NibbleStepIsBits(c: Reg, n: Reg)
    ensures NibbleStep(c, n) == Bits(4, Xor(c, Low4(n)))
  {
    hide Bits, Xor, Low4, Down4, Lookup16;
    NibbleParts(c, n);
    Low4Fits(Xor(c, n));
    Lookup16IsBits(Low4(Xor(c, n)).word);
    Bits4Split(Xor(c, Low4(n)));
  }

  lemma SplitByteWord(b: bv8)
    ensures b as bv32 == ((b as bv32) & 0xF) ^ (((b >> 4) as bv32) << 4)
    ensures ((b >> 4) as bv32) & 0xF == (b >> 4) as bv32
    ensures ((b >> 4) as bv32) & 0xF000_0000 == 0
  {
  }

  lemma SplitIntoNibbles(b: bv8)
    ensures Byte(b) == Xor(Low4(Byte(b)), Up4(HighNibble(b)))
    ensures Low4(HighNibble(b)) == HighNibble(b) && Fits28(HighNibble(b))
  {
    SplitByteWord(b);
  }

  lemma TwoNibbles(c: Reg, b: bv8)
    ensures NibbleStep(NibbleStep(c, Byte(b)), HighNibble(b)) == Bits(8, Xor(c, Byte(b)))
  {
    SplitIntoNibbles(b);
    hide Bits, Xor, Low4, Up4, Fits28, HighNibble, Byte, NibbleStep;
    var lo, hi := Low4(Byte(b)), HighNibble(b);
    NibbleStepIsBits(c, Byte(b));
    NibbleStepIsBits(Bits(4, Xor(c, lo)), hi);
    XorLaws(c, lo, Up4(hi));
    BitsLinear(4, Xor(c, lo), Up4(hi));
    Bits4Up(hi);
    BitsAdd(4, 4, Xor(c, Byte(b)));
  }

  method HalfByte(data: seq<bv8>, previous: bv32) returns (result: bv32)
    ensures result == Checksum(data, previous)
  {
    hide Run, Bits, Xor, Byte, Not, NibbleStep, HighNibble;
    var start := Not(Reg(previous));
    var crc := start;
    RunNothing(start, data);
    for i := 0 to |data|
      invariant crc == Run(start, data[..i])
    {
      RunSnoc(start, data, i);
      TwoNibbles(crc, data[i]);
      crc := NibbleStep(crc, Byte(data[i]));
      crc := NibbleStep(crc, HighNibble(data[i]));
    }
    RunAll(start, data);
    result := Not(crc).word;
  }

  // ---------------------------------------------------------------------------
  // The one-byte loop, also the tail of every slicing loop
  // ---------------------------------------------------------------------------

  /** One round of the standard algorithm: a single look-up in row 0. */
  function ByteStep(c: Reg, b: bv8): Reg {
    Xor(Down8(c), Lookup(0, Xor(Low8(c), Byte(b))))
  }

  lemma LowByteWord(c: bv32, b: bv8)
    ensures Low8Word(XorWord(c, b as bv32)) == XorWord(Low8Word(c), b as bv32)
  {
  }

  lemma HighBytesWord(c: bv32, b: bv8)
    ensures Down8Word(XorWord(c, b as bv32)) == Down8Word(c)
  {
  }

  lemma ByteParts(c: Reg, b: bv8)
    ensures Low8(Xor(c, Byte(b))) == Xor(Low8(c), Byte(b)) && Down8(Xor(c, Byte(b))) == Down8(c)
  {
    hide XorWord, Low8Word, Down8Word;
    LowByteWord(c.word, b);
    HighBytesWord(c.word, b);
  }

  lemma ByteStepIsBits(c: Reg, b: bv8)
    ensures ByteStep(c, b) == Bits(8, Xor(c, Byte(b)))
  {
    ByteParts(c, b);
    hide Bits, Xor, Low8, Down8, Byte;
    Bits8Split(Xor(c, Byte(b)));
    XorLaws(Down8(c), Bits(8, Xor(Low8(c), Byte(b))), ZERO);
  }

  /** The tail loop: the bytes from offset `from` on, one look-up each. */
  method TailBytes(start: Reg, data: seq<bv8>, from: nat, crc0: Reg) returns (crc: Reg)
    requires from <= |data| && crc0 == Run(start, data[..from])
    ensures crc == Run(start, data)
  {
    hide Run, Bits, Xor, Byte, ByteStep;
    crc := crc0;
    for i := from to |data|
      invariant crc == Run(start, data[..i])
    {
      RunSnoc(start, data, i);
      ByteStepIsBits(crc, data[i]);
      crc := ByteStep(crc, data[i]);
    }
    RunAll(start, data);
  }

  method OneByte(data: seq<bv8>, previous: bv32) returns (result: bv32)
    ensures result == Checksum(data, previous)
  {
    hide Run, Not;
    var start := Not(Reg(previous));
    RunNothing(start, data);
    var crc := TailBytes(start, data, 0, start);
    result := Not(crc).word;
  }

  // ---------------------------------------------------------------------------
  // Slicing
  // ---------------------------------------------------------------------------

  /** The four look-ups of one word, rows `k` to `k + 3`, high byte first. */
  function WordSlices(k: nat, x: Reg): Reg {
    Xor(Xor(Xor(Lookup(k, Part(3, x)), Lookup(k + 1, Part(2, x))),
            Lookup(k + 2, Part(1, x))), Lookup(k + 3, Part(0, x)))
  }

  lemma WordSlicesAreBits(k: nat, x: Reg)
    ensures WordSlices(k, x) == Bits(32 + 8 * k, x)
  {
    hide Bits, Xor, Lookup, Part;
    WordLookup(k, x);
  }

  /** The 32-bit word that a little-endian load finds at offset `i`. */
  function LoadWord(data: seq<bv8>, i: nat): Reg
    requires i + 4 <= |data|
  {
    Word(data[i..i + 4])
  }

  lemma RunWord(c: Reg, data: seq<bv8>, i: nat)
    requires i + 4 <= |data|
    ensures Run(c, data[..i + 4]) == Bits(32, Xor(Run(c, data[..i]), LoadWord(data, i)))
  {
    hide Run, Bits, Xor, Word;
    assert data[..i + 4] == data[..i] + data[i..i + 4];
    RunConcat(c, data[..i], data[i..i + 4]);
    AbsorbWord(Run(c, data[..i]), data[i..i + 4]);
  }

  /** Stepping past a word in the register and then `n` further bits. */
  lemma Pipeline(n: nat, x: Reg, w: Reg)
    ensures Bits(n, Xor(Bits(32, x), w)) == Xor(Bits(32 + n, x), Bits(n, w))
  {
    hide BitStep, Xor;
    BitsLinear(n, Bits(32, x), w);
    BitsAdd(32, n, x);
  }

  /** One round of slicing-by-8 on the eight bytes at offset `i`. */
  function EightBytes(crc: Reg, data: seq<bv8>, i: nat): Reg
    requires i + 8 <= |data|
  {
    var one := Xor(LoadWord(data, i), crc);
    var two := LoadWord(data, i + 4);
    Xor(WordSlices(0, two), WordSlices(4, one))
  }

  lemma EightBytesStep(c: Reg, data: seq<bv8>, i: nat)
    requires i + 8 <= |data|
    ensures EightBytes(Run(c, data[..i]), data, i) == Run(c, data[..i + 8])
  {
    hide Run, Bits, Xor, WordSlices, LoadWord;
    var one := Xor(LoadWord(data, i), Run(c, data[..i]));
    var two := LoadWord(data, i + 4);
    XorLaws(LoadWord(data, i), Run(c, data[..i]), ZERO);
    RunWord(c, data, i);
    RunWord(c, data, i + 4);
    Pipeline(32, one, two);
    WordSlicesAreBits(0, two);
    WordSlicesAreBits(4, one);
    XorLaws(Bits(64, one), Bits(32, two), ZERO);
  }

  /** One round of slicing-by-16 on the sixteen bytes at offset `i`. */
  function SixteenBytes(crc: Reg, data: seq<bv8>, i: nat): Reg
    requires i + 16 <= |data|
  {
    var one := Xor(LoadWord(data, i), crc);
    var two := LoadWord(data, i + 4);
    var three := LoadWord(data, i + 8);
    var four := LoadWord(data, i + 12);
    Xor(Xor(Xor(WordSlices(0, four), WordSlices(4, three)), WordSlices(8, two)), WordSlices(12, one))
  }

  lemma ReverseFour(a: Reg, b: Reg, c: Reg, d: Reg)
    ensures Xor(Xor(Xor(a, b), c), d) == Xor(Xor(Xor(d, c), b), a)
  {
    hide Xor;
    XorLaws(Xor(a, b), c, d);
    XorLaws(a, b, Xor(c, d));
    XorLaws(Xor(d, c), b, a);
    XorLaws(c, d, ZERO);
    XorLaws(a, b, ZERO);
    XorLaws(b, a, Xor(c, d));
    XorLaws(Xor(a, b), Xor(c, d), ZERO);
    XorLaws(b, a, ZERO);
  }

  lemma SixteenBytesStep(c: Reg, data: seq<bv8>, i: nat)
    requires i + 16 <= |data|
    ensures SixteenBytes(Run(c, data[..i]), data, i) == Run(c, data[..i + 16])
  {
    hide Run, Bits, Xor, WordSlices, LoadWord;
    var one := Xor(LoadWord(data, i), Run(c, data[..i]));
    var two, three, four := LoadWord(data, i + 4), LoadWord(data, i + 8), LoadWord(data, i + 12);
    XorLaws(LoadWord(data, i), Run(c, data[..i]), ZERO);
    RunWord(c, data, i);
    RunWord(c, data, i + 4);
    RunWord(c, data, i + 8);
    RunWord(c, data, i + 12);
    var r2 := Xor(Bits(32, one), two);
    var r3 := Xor(Bits(32, r2), three);
    Pipeline(32, r3, four);
    Pipeline(64, r2, three);
    Pipeline(96, one, two);
    WordSlicesAreBits(0, four);
    WordSlicesAreBits(4, three);
    WordSlicesAreBits(8, two);
    WordSlicesAreBits(12, one);
    ReverseFour(WordSlices(0, four), WordSlices(4, three), WordSlices(8, two), WordSlices(12, one));
  }

  method SliceBy4(data: seq<bv8>, previous: bv32) returns (result: bv32)
    ensures result == Checksum(data, previous)
  {
    hide Run, Bits, Xor, Not, WordSlices, LoadWord;
    var start := Not(Reg(previous));
    var crc, i := start, 0;
    RunNothing(start, data);
    while |data| - i >= 4
      invariant i <= |data| && crc == Run(start, data[..i])
    {
      RunWord(start, data, i);
      XorLaws(LoadWord(data, i), crc, ZERO);
      var one := Xor(LoadWord(data, i), crc);
      WordSlicesAreBits(0, one);
      crc, i := WordSlices(0, one), i + 4;
    }
    crc := TailBytes(start, data, i, crc);
    result := Not(crc).word;
  }

  method SliceBy8(data: seq<bv8>, previous: bv32) returns (result: bv32)
    ensures result == Checksum(data, previous)
  {
    hide Run, Not, EightBytes;
    var start := Not(Reg(previous));
    var crc, i := start, 0;
    RunNothing(start, data);
    while |data| - i >= 8
      invariant i <= |data| && crc == Run(start, data[..i])
    {
      EightBytesStep(start, data, i);
      crc, i := EightBytes(crc, data, i), i + 8;
    }
    crc := TailBytes(start, data, i, crc);
    result := Not(crc).word;
  }

  method SliceBy4x8(data: seq<bv8>, previous: bv32) returns (result: bv32)
    ensures result == Checksum(data, previous)
  {
    hide Run, Not, EightBytes;
    var start := Not(Reg(previous));
    var crc, i := start, 0;
    RunNothing(start, data);
    while |data| - i >= 32
      invariant i <= |data| && crc == Run(start, data[..i])
    {
      var block := i;
      for unrolling := 0 to 4
        invariant i == block + 8 * unrolling && crc == Run(start, data[..i])
      {
        EightBytesStep(start, data, i);
        crc, i := EightBytes(crc, data, i), i + 8;
      }
    }
    crc := TailBytes(start, data, i, crc);
    result := Not(crc).word;
  }

  /** Slicing-by-16; the look-ahead only decides how much is left to the tail loop. */
  method SliceBy16Prefetch(data: seq<bv8>, previous: bv32, prefetchAhead: nat) returns (result: bv32)
    ensures result == Checksum(data, previous)
  {
    hide Run, Not, SixteenBytes;
    var start := Not(Reg(previous));
    var crc, i := start, 0;
    RunNothing(start, data);
    while |data| - i >= 64 + prefetchAhead
      invariant i <= |data| && crc == Run(start, data[..i])
    {
      var block := i;
      for unrolling := 0 to 4
        invariant i == block + 16 * unrolling && crc == Run(start, data[..i])
      {
        SixteenBytesStep(start, data, i);
        crc, i := SixteenBytes(crc, data, i), i + 16;
      }
    }
    crc := TailBytes(start, data, i, crc);
    result := Not(crc).word;
  }

  method SliceBy16(data: seq<bv8>, previous: bv32) returns (result: bv32)
    ensures result == Checksum(data, previous)
  {
    hide Run, Not, SixteenBytes;
    var start := Not(Reg(previous));
    var crc, i := start, 0;
    RunNothing(start, data);
    while |data| - i >= 64
      invariant i <= |data| && crc == Run(start, data[..i])
    {
      var block := i;
      for unrolling := 0 to 4
        invariant i == block + 16 * unrolling && crc == Run(start, data[..i])
      {
        SixteenBytesStep(start, data, i);
        crc, i := SixteenBytes(crc, data, i), i + 16;
      }
    }
    crc := TailBytes(start, data, i, crc);
    result := Not(crc).word;
  }

  // ---------------------------------------------------------------------------
  // The file loop
  // ---------------------------------------------------------------------------

  lemma ChecksumOfNothing(previous: bv32)
    ensures Checksum([], previous) == previous
  {
    hide Not;
    NotNot(Reg(previous));
  }

  /** `chunks` holds what the successive freads returned; None stands for a file that cannot be opened. */
  method FileChecksum(chunks: Option<seq<seq<bv8>>>) returns (result: bv32)
    ensures chunks.None? ==> result == 0
    ensures chunks.Some? ==> result == Checksum(Flatten(chunks.value), 0)
  {
    hide Checksum;
    result := 0;
    if chunks.None? { return; }
    ChecksumOfNothing(0);
    assert Flatten(chunks.value[..0]) == [];
    for i := 0 to |chunks.value|
      invariant result == Checksum(Flatten(chunks.value[..i]), 0)
    {
      var chunk := chunks.value[i];
      FlattenSnoc(chunks.value, i);
      ChecksumConcat(Flatten(chunks.value[..i]), chunk, 0);
      if |chunk| > 0 {
        result := SliceBy16(chunk, result);
      } else {
        ChecksumOfNothing(result);
      }
    }
    assert chunks.value[..|chunks.value|] == chunks.value;
  }

  // ---------------------------------------------------------------------------
  // The published check value
  // ---------------------------------------------------------------------------

  lemma ByteResult(c: bv32, b: bv8, r: bv32)
    requires FourWordSteps(FourWordSteps(XorWord(c, b as bv32))) == r
    ensures Bits(8, Xor(Reg(c), Byte(b))) == Reg(r)
  {
    hide FourWordSteps, XorWord, BitStep;
    var w := XorWord(c, b as bv32);
    Bits4IsFourWordSteps(w);
    Bits4IsFourWordSteps(FourWordSteps(w));
    BitsAdd(4, 4, Reg(w));
  }

  lemma CheckByte1()
    ensures Bits(8, Xor(Reg(0xFFFFFFFF), Byte(0x31))) == Reg(0x7C231048)
  {
    hide Bits;
    ByteResult(0xFFFFFFFF, 0x31, 0x7C231048);
  }

  lemma CheckByte2()
    ensures Bits(8, Xor(Reg(0x7C231048), Byte(0x32))) == Reg(0xB0ACBB32)
  {
    hide Bits;
    ByteResult(0x7C231048, 0x32, 0xB0ACBB32);
  }

  lemma CheckByte3()
    ensures Bits(8, Xor(Reg(0xB0ACBB32), Byte(0x33))) == Reg(0x77B79C2D)
  {
    hide Bits;
    ByteResult(0xB0ACBB32, 0x33, 0x77B79C2D);
  }

  lemma CheckByte4()
    ensures Bits(8, Xor(Reg(0x77B79C2D), Byte(0x34))) == Reg(0x641C1F5C)
  {
    hide Bits;
    ByteResult(0x77B79C2D, 0x34, 0x641C1F5C);
  }

  lemma CheckByte5()
    ensures Bits(8, Xor(Reg(0x641C1F5C), Byte(0x35))) == Reg(0x340AC5E3)
  {
    hide Bits;
    ByteResult(0x641C1F5C, 0x35, 0x340AC5E3);
  }

  lemma CheckByte6()
    ensures Bits(8, Xor(Reg(0x340AC5E3), Byte(0x36))) == Reg(0xF68D2C9E)
  {
    hide Bits;
    ByteResult(0x340AC5E3, 0x36, 0xF68D2C9E);
  }

  lemma CheckByte7()
    ensures Bits(8, Xor(Reg(0xF68D2C9E), Byte(0x37))) == Reg(0xAFFC9660)
  {
    hide Bits;
    ByteResult(0xF68D2C9E, 0x37, 0xAFFC9660);
  }

  lemma CheckByte8()
    ensures Bits(8, Xor(Reg(0xAFFC9660), Byte(0x38))) == Reg(0x651F2550)
  {
    hide Bits;
    ByteResult(0xAFFC9660, 0x38, 0x651F2550);
  }

  lemma CheckByte9()
    ensures Bits(8, Xor(Reg(0x651F2550), Byte(0x39))) == Reg(0x340BC6D9)
  {
    hide Bits;
    ByteResult(0x651F2550, 0x39, 0x340BC6D9);
  }

  /** A list of registers in which each follows from the one before is the run. */
  lemma {:induction false} RunFollows(regs: seq<Reg>, data: seq<bv8>)
    requires |regs| == |data| + 1
    requires forall i :: 0 <= i < |data| ==> Bits(8, Xor(regs[i], Byte(data[i]))) == regs[i + 1]
    ensures Run(regs[0], data) == regs[|data|]
    decreases |data|
  {
    hide Bits, Xor, Byte;
    if data != [] {
      var rs, ds := regs[1..], data[1..];
      forall i | 0 <= i < |ds| ensures Bits(8, Xor(rs[i], Byte(ds[i]))) == rs[i + 1] {
        assert Bits(8, Xor(regs[i + 1], Byte(data[i + 1]))) == regs[i + 1 + 1];
      }
      RunFollows(rs, ds);
    }
  }

  const CHECK_DATA: seq<bv8> := [0x31, 0x32, 0x33, 0x34, 0x35, 0x36, 0x37, 0x38, 0x39]
  const CHECK_REGS: seq<Reg> := [
    Reg(0xFFFFFFFF), Reg(0x7C231048), Reg(0xB0ACBB32), Reg(0x77B79C2D), Reg(0x641C1F5C),
    Reg(0x340AC5E3), Reg(0xF68D2C9E), Reg(0xAFFC9660), Reg(0x651F2550), Reg(0x340BC6D9)]

  lemma CheckRun()
    ensures Run(Reg(0xFFFFFFFF), CHECK_DATA) == Reg(0x340BC6D9)
  {
    hide Run, Bits, Xor, Byte;
    CheckByte1();
    CheckByte2();
    CheckByte3();
    CheckByte4();
    CheckByte5();
    CheckByte6();
    CheckByte7();
    CheckByte8();
    CheckByte9();
    RunFollows(CHECK_REGS, CHECK_DATA);
  }

  /** The checksum of "123456789" is 0xCBF43926, the check value published for this CRC. */
  lemma CheckValue()
    ensures Checksum([0x31, 0x32, 0x33, 0x34, 0x35, 0x36, 0x37, 0x38, 0x39], 0) == 0xCBF43926
  {
    CheckRun();
    hide Run;
    assert Not(Reg(0)) == Reg(0xFFFFFFFF) && Not(Reg(0x340BC6D9)) == Reg(0xCBF43926);
  }
}
