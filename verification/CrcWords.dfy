/**
  Working out the CRC of given bytes: the register as a 16-bit word, shifted
  and exclusive-ored as the source does it.
 */
module CrcWords {
  import opened Bytes
  import opened Crc16

  /** The register s holds the word c. */
  predicate Is(s: Reg, c: bv16) {
    && s[0] == (c & 0x8000 != 0) && s[1] == (c & 0x4000 != 0) && s[2] == (c & 0x2000 != 0) && s[3] == (c & 0x1000 != 0)
    && s[4] == (c & 0x0800 != 0) && s[5] == (c & 0x0400 != 0) && s[6] == (c & 0x0200 != 0) && s[7] == (c & 0x0100 != 0)
    && s[8] == (c & 0x0080 != 0) && s[9] == (c & 0x0040 != 0)
    && s[10] == (c & 0x0020 != 0) && s[11] == (c & 0x0010 != 0)
    && s[12] == (c & 0x0008 != 0) && s[13] == (c & 0x0004 != 0)
    && s[14] == (c & 0x0002 != 0) && s[15] == (c & 0x0001 != 0)
  }

  function Shift(c: bv16): bv16 {
    if c & 0x8000 != 0 then (c << 1) ^ 0x1021 else c << 1
  }

  function Shift8(c: bv16): bv16 {
    Shift(Shift(Shift(Shift(Shift(Shift(Shift(Shift(c))))))))
  }

  /** The word after one more byte, as crc16 computes it. */
  function ByteWord(c: bv16, b: bv16): bv16 {
    Shift8(c ^ (b << 8))
  }

  lemma ShiftBits0(c: bv16)
    ensures (Shift(c) & 0x8000 != 0) == (c & 0x4000 != 0)
    ensures (Shift(c) & 0x4000 != 0) == (c & 0x2000 != 0)
    ensures (Shift(c) & 0x2000 != 0) == (c & 0x1000 != 0)
    ensures (Shift(c) & 0x1000 != 0) == ((c & 0x0800 != 0) != (c & 0x8000 != 0))
  {}

  lemma ShiftBits1(c: bv16)
    ensures (Shift(c) & 0x0800 != 0) == (c & 0x0400 != 0)
    ensures (Shift(c) & 0x0400 != 0) == (c & 0x0200 != 0)
    ensures (Shift(c) & 0x0200 != 0) == (c & 0x0100 != 0)
    ensures (Shift(c) & 0x0100 != 0) == (c & 0x0080 != 0)
  {}

  lemma ShiftBits2(c: bv16)
    ensures (Shift(c) & 0x0080 != 0) == (c & 0x0040 != 0)
    ensures (Shift(c) & 0x0040 != 0) == (c & 0x0020 != 0)
    ensures (Shift(c) & 0x0020 != 0) == ((c & 0x0010 != 0) != (c & 0x8000 != 0))
    ensures (Shift(c) & 0x0010 != 0) == (c & 0x0008 != 0)
  {}

  lemma ShiftBits3(c: bv16)
    ensures (Shift(c) & 0x0008 != 0) == (c & 0x0004 != 0)
    ensures (Shift(c) & 0x0004 != 0) == (c & 0x0002 != 0)
    ensures (Shift(c) & 0x0002 != 0) == (c & 0x0001 != 0)
    ensures (Shift(c) & 0x0001 != 0) == (c & 0x8000 != 0)
  {}

  lemma PolyBits(i: nat)
    requires i < 16
    ensures POLY[i] <==> i == 3 || i == 10 || i == 15
  {}

  lemma StepAt(s: Reg, i: nat)
    requires i < 16
    ensures BitStep(s)[i] == ((i < 15 && s[i + 1]) != (s[0] && (i == 3 || i == 10 || i == 15)))
  {
    PolyBits(i);
  }

  lemma ShiftIs(s: Reg, c: bv16)
    requires Is(s, c)
    ensures Is(BitStep(s), Shift(c))
  {
    hide BitStep, Shift;
    StepAt(s, 0); StepAt(s, 1); StepAt(s, 2); StepAt(s, 3);
    StepAt(s, 4); StepAt(s, 5); StepAt(s, 6); StepAt(s, 7);
    StepAt(s, 8); StepAt(s, 9); StepAt(s, 10); StepAt(s, 11);
    StepAt(s, 12); StepAt(s, 13); StepAt(s, 14); StepAt(s, 15);
    ShiftBits0(c);
    ShiftBits1(c);
    ShiftBits2(c);
    ShiftBits3(c);
  }

  lemma Shift8Is(s: Reg, c: bv16)
    requires Is(s, c)
    ensures Is(Steps(s, 8), Shift8(c))
  {
    hide Is, BitStep, Shift;
    assert Steps(s, 0) == s;
    ShiftIs(s, c);
    ShiftIs(Steps(s, 1), Shift(c));
    ShiftIs(Steps(s, 2), Shift(Shift(c)));
    ShiftIs(Steps(s, 3), Shift(Shift(Shift(c))));
    ShiftIs(Steps(s, 4), Shift(Shift(Shift(Shift(c)))));
    ShiftIs(Steps(s, 5), Shift(Shift(Shift(Shift(Shift(c))))));
    ShiftIs(Steps(s, 6), Shift(Shift(Shift(Shift(Shift(Shift(c)))))));
    ShiftIs(Steps(s, 7), Shift(Shift(Shift(Shift(Shift(Shift(Shift(c))))))));
  }

  /** The byte b is the word w. */
  predicate IsByte(b: byte, w: bv16) {
    var s := ByteBits(b);
    && s[0] == (w & 0x80 != 0) && s[1] == (w & 0x40 != 0) && s[2] == (w & 0x20 != 0) && s[3] == (w & 0x10 != 0)
    && s[4] == (w & 0x08 != 0) && s[5] == (w & 0x04 != 0) && s[6] == (w & 0x02 != 0) && s[7] == (w & 0x01 != 0)
  }

  lemma MixBits0(c: bv16, w: bv16)
    ensures ((c ^ (w << 8)) & 0x8000 != 0) == ((c & 0x8000 != 0) != (w & 0x80 != 0))
    ensures ((c ^ (w << 8)) & 0x4000 != 0) == ((c & 0x4000 != 0) != (w & 0x40 != 0))
    ensures ((c ^ (w << 8)) & 0x2000 != 0) == ((c & 0x2000 != 0) != (w & 0x20 != 0))
    ensures ((c ^ (w << 8)) & 0x1000 != 0) == ((c & 0x1000 != 0) != (w & 0x10 != 0))
  {}

  lemma MixBits1(c: bv16, w: bv16)
    ensures ((c ^ (w << 8)) & 0x0800 != 0) == ((c & 0x0800 != 0) != (w & 0x08 != 0))
    ensures ((c ^ (w << 8)) & 0x0400 != 0) == ((c & 0x0400 != 0) != (w & 0x04 != 0))
    ensures ((c ^ (w << 8)) & 0x0200 != 0) == ((c & 0x0200 != 0) != (w & 0x02 != 0))
    ensures ((c ^ (w << 8)) & 0x0100 != 0) == ((c & 0x0100 != 0) != (w & 0x01 != 0))
  {}

  lemma MixBits2(c: bv16, w: bv16)
    ensures ((c ^ (w << 8)) & 0x0080 != 0) == (c & 0x0080 != 0)
    ensures ((c ^ (w << 8)) & 0x0040 != 0) == (c & 0x0040 != 0)
    ensures ((c ^ (w << 8)) & 0x0020 != 0) == (c & 0x0020 != 0)
    ensures ((c ^ (w << 8)) & 0x0010 != 0) == (c & 0x0010 != 0)
  {}

  lemma MixBits3(c: bv16, w: bv16)
    ensures ((c ^ (w << 8)) & 0x0008 != 0) == (c & 0x0008 != 0)
    ensures ((c ^ (w << 8)) & 0x0004 != 0) == (c & 0x0004 != 0)
    ensures ((c ^ (w << 8)) & 0x0002 != 0) == (c & 0x0002 != 0)
    ensures ((c ^ (w << 8)) & 0x0001 != 0) == (c & 0x0001 != 0)
  {}

  lemma MixAt(s: Reg, w: seq<bool>, i: nat)
    requires |w| == 8 && i < 16
    ensures Xor(s, Pad(w))[i] == (s[i] != (i < 8 && w[i]))
  {}

  lemma MixIs(s: Reg, c: bv16, b: byte, w: bv16)
    requires Is(s, c) && IsByte(b, w)
    ensures Is(Xor(s, Pad(ByteBits(b))), c ^ (w << 8))
  {
    hide Xor, Pad, ByteBits;
    var bits := ByteBits(b);
    MixAt(s, bits, 0); MixAt(s, bits, 1); MixAt(s, bits, 2); MixAt(s, bits, 3);
    MixAt(s, bits, 4); MixAt(s, bits, 5); MixAt(s, bits, 6); MixAt(s, bits, 7);
    MixAt(s, bits, 8); MixAt(s, bits, 9); MixAt(s, bits, 10); MixAt(s, bits, 11);
    MixAt(s, bits, 12); MixAt(s, bits, 13); MixAt(s, bits, 14); MixAt(s, bits, 15);
    MixBits0(c, w);
    MixBits1(c, w);
    MixBits2(c, w);
    MixBits3(c, w);
  }

  /** The register after one more byte is the word after one more byte. */
  lemma ByteIs(s: seq<byte>, c: bv16, b: byte, w: bv16)
    requires Is(CrcFrom(INIT, s), c) && IsByte(b, w)
    ensures Is(CrcFrom(INIT, s + [b]), ByteWord(c, w))
  {
    hide Is, IsByte, Xor, Pad, ByteBits, Steps, Shift8;
    var reg := CrcFrom(INIT, s);
    MixIs(reg, c, b, w);
    Shift8Is(Xor(reg, Pad(ByteBits(b))), c ^ (w << 8));
    assert (s + [b])[..|s|] == s;
  }

  function One(x: bool): nat {
    if x then 1 else 0
  }

  lemma LowBit(v: nat, n: nat, x: bool)
    ensures |BitsOf(2 * v + One(x), n + 1)| == n + 1
    ensures BitsOf(2 * v + One(x), n + 1)[n] == x
    ensures forall i | 0 <= i < n :: BitsOf(2 * v + One(x), n + 1)[i] == BitsOf(v, n)[i]
  {
    assert (2 * v + One(x)) / 2 == v && (2 * v + One(x)) % 2 == One(x);
  }

  lemma EightBits(b: byte, a7: bool, a6: bool, a5: bool, a4: bool, a3: bool, a2: bool, a1: bool, a0: bool)
    requires b == 128 * One(a7) + 64 * One(a6) + 32 * One(a5) + 16 * One(a4)
                  + 8 * One(a3) + 4 * One(a2) + 2 * One(a1) + One(a0)
    ensures var s := ByteBits(b);
            && s[0] == a7 && s[1] == a6 && s[2] == a5 && s[3] == a4
            && s[4] == a3 && s[5] == a2 && s[6] == a1 && s[7] == a0
  {
    hide BitsOf;
    var v1 := One(a7);
    var v2 := 2 * v1 + One(a6);
    var v3 := 2 * v2 + One(a5);
    var v4 := 2 * v3 + One(a4);
    var v5 := 2 * v4 + One(a3);
    var v6 := 2 * v5 + One(a2);
    var v7 := 2 * v6 + One(a1);
    LowBit(0, 0, a7);
    LowBit(v1, 1, a6);
    LowBit(v2, 2, a5);
    LowBit(v3, 3, a4);
    LowBit(v4, 4, a3);
    LowBit(v5, 5, a2);
    LowBit(v6, 6, a1);
    LowBit(v7, 7, a0);
  }

  /** The word after n bytes of s takes in byte n. */
  lemma Next(s: seq<byte>, n: nat, c: bv16, w: bv16, d: bv16)
    requires n < |s| && Is(CrcFrom(INIT, s[..n]), c) && IsByte(s[n], w) && d == ByteWord(c, w)
    ensures Is(CrcFrom(INIT, s[..n + 1]), d)
  {
    hide Is, IsByte, CrcFrom, ByteWord;
    ByteIs(s[..n], c, s[n], w);
    assert s[..n + 1] == s[..n] + [s[n]];
  }

  // ---------------------------------------------------------------- Whole messages

  /** A byte as a word. */
  function WordOf(b: byte): bv16 {
    var s := ByteBits(b);
    (if s[0] then 0x80 else 0) | (if s[1] then 0x40 else 0) | (if s[2] then 0x20 else 0) | (if s[3] then 0x10 else 0)
    | (if s[4] then 0x08 else 0) | (if s[5] then 0x04 else 0) | (if s[6] then 0x02 else 0) | (if s[7] then 0x01 else 0)
  }

  lemma WordIsByte(b: byte)
    ensures IsByte(b, WordOf(b))
  {
    hide ByteBits;
  }

  /** The word crc16 is left with: 0xFFFF, taking in one byte after another. */
  function MessageWord(s: seq<byte>): bv16 {
    if s == [] then 0xFFFF else ByteWord(MessageWord(s[..|s| - 1]), WordOf(s[|s| - 1]))
  }

  lemma {:induction false} MessageIs(s: seq<byte>)
    ensures Is(CrcFrom(INIT, s), MessageWord(s))
  {
    hide IsByte, ByteWord, ByteStep, WordOf;
    if s != [] {
      var n := |s| - 1;
      MessageIs(s[..n]);
      WordIsByte(s[n]);
      ByteIs(s[..n], MessageWord(s[..n]), s[n], WordOf(s[n]));
      assert s == s[..n] + [s[n]];
    }
  }

  function WordBits(c: bv16): Reg {
    [c & 0x8000 != 0, c & 0x4000 != 0, c & 0x2000 != 0, c & 0x1000 != 0,
     c & 0x0800 != 0, c & 0x0400 != 0, c & 0x0200 != 0, c & 0x0100 != 0,
     c & 0x0080 != 0, c & 0x0040 != 0, c & 0x0020 != 0, c & 0x0010 != 0,
     c & 0x0008 != 0, c & 0x0004 != 0, c & 0x0002 != 0, c & 0x0001 != 0]
  }

  /** The number a word stands for in base two. */
  function Number(c: bv16): nat {
    Value(WordBits(c))
  }

  lemma IsItsBits(s: Reg, c: bv16)
    requires Is(s, c)
    ensures s == WordBits(c)
  {
    assert |s| == |WordBits(c)| == 16;
  }

  /** The CRC of a message is the number crc16 returns for it. */
  lemma CrcIsMessageWord(s: seq<byte>)
    ensures Crc(s) == Number(MessageWord(s))
  {
    hide Is, CrcFrom, MessageWord, WordBits, Value;
    MessageIs(s);
    IsItsBits(CrcFrom(INIT, s), MessageWord(s));
  }

  lemma {:induction false} AllOnesValue(s: seq<bool>)
    requires forall i | 0 <= i < |s| :: s[i]
    ensures Value(s) == Pow2(|s|) - 1
  {
    if s != [] {
      AllOnesValue(s[..|s| - 1]);
    }
  }

  lemma CrcOfAllOnes(s: seq<byte>)
    requires Is(CrcFrom(INIT, s), 0xFFFF)
    ensures Crc(s) == 0xFFFF
  {
    hide CrcFrom;
    Pow2Eight();
    var reg := CrcFrom(INIT, s);
    assert forall i | 0 <= i < 16 :: reg[i];
    AllOnesValue(reg);
  }

  /** The bytes the computations below go through. */
  lemma BytesUsed()
    ensures IsByte(0x53, 0x53) && IsByte(0x43, 0x43) && IsByte(0x4F, 0x4F) && IsByte(0x00, 0x00) && IsByte(0x01, 0x01)
    ensures IsByte(0x27, 0x27) && IsByte(0xD0, 0xD0) && IsByte(0x84, 0x84) && IsByte(0x7A, 0x7A) && IsByte(0xFF, 0xFF)
  {
    hide ByteBits;
    EightBits(0x53, false, true, false, true, false, false, true, true);
    EightBits(0x43, false, true, false, false, false, false, true, true);
    EightBits(0x4F, false, true, false, false, true, true, true, true);
    EightBits(0x00, false, false, false, false, false, false, false, false);
    EightBits(0x01, false, false, false, false, false, false, false, true);
    EightBits(0x27, false, false, true, false, false, true, true, true);
    EightBits(0xD0, true, true, false, true, false, false, false, false);
    EightBits(0x84, true, false, false, false, false, true, false, false);
    EightBits(0x7A, false, true, true, true, true, false, true, false);
    EightBits(0xFF, true, true, true, true, true, true, true, true);
  }

  lemma Start(s: seq<byte>)
    ensures Is(CrcFrom(INIT, s[..0]), 0xFFFF)
  {}

  /** The first twelve bytes of a header of length 0x847A whose image CRC is still erased. */
  const ShortHeader: seq<byte> := [0x53, 0x43, 0x4F, 0x53, 0x00, 0x01, 0x00, 0x00, 0x84, 0x7A, 0xFF, 0xFF]

  /** The first twelve bytes of a header of length 0x27D0FF whose image CRC is still erased. */
  const LongHeader: seq<byte> := [0x53, 0x43, 0x4F, 0x53, 0x00, 0x01, 0x00, 0x27, 0xD0, 0xFF, 0xFF, 0xFF]

  /** Erased bytes are its CRC. */
  lemma ShortHeaderCrc()
    ensures Crc(ShortHeader) == 0xFFFF
  {
    hide Is, IsByte, CrcFrom, Crc;
    BytesUsed();
    var s := ShortHeader;
    Start(s);
    Next(s, 0, 0xFFFF, 0x53, 0x8B66);
    Next(s, 1, 0x8B66, 0x43, 0x3E44);
    Next(s, 2, 0x3E44, 0x4F, 0x2AB6);
    Next(s, 3, 0x2AB6, 0x53, 0x59BE);
    Next(s, 4, 0x59BE, 0x00, 0x75DC);
    Next(s, 5, 0x75DC, 0x01, 0xE213);
    Next(s, 6, 0xE213, 0x00, 0xCE6C);
    Next(s, 7, 0xCE6C, 0x00, 0x5482);
    Next(s, 8, 0x5482, 0x84, 0x497D);
    Next(s, 9, 0x497D, 0x7A, 0x7B30);
    Next(s, 10, 0x7B30, 0xFF, 0xE10C);
    Next(s, 11, 0xE10C, 0xFF, 0xFFFF);
    assert s[..12] == s;
    CrcOfAllOnes(s);
  }

  /** Erased bytes are its CRC. */
  lemma LongHeaderCrc()
    ensures Crc(LongHeader) == 0xFFFF
  {
    hide Is, IsByte, CrcFrom, Crc;
    BytesUsed();
    var s := LongHeader;
    Start(s);
    Next(s, 0, 0xFFFF, 0x53, 0x8B66);
    Next(s, 1, 0x8B66, 0x43, 0x3E44);
    Next(s, 2, 0x3E44, 0x4F, 0x2AB6);
    Next(s, 3, 0x2AB6, 0x53, 0x59BE);
    Next(s, 4, 0x59BE, 0x00, 0x75DC);
    Next(s, 5, 0x75DC, 0x01, 0xE213);
    Next(s, 6, 0xE213, 0x00, 0xCE6C);
    Next(s, 7, 0xCE6C, 0x27, 0x0007);
    Next(s, 8, 0x0007, 0xD0, 0xCC7D);
    Next(s, 9, 0xCC7D, 0xFF, 0x7B30);
    Next(s, 10, 0x7B30, 0xFF, 0xE10C);
    Next(s, 11, 0xE10C, 0xFF, 0xFFFF);
    assert s[..12] == s;
    CrcOfAllOnes(s);
  }
}
