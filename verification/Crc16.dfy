/**
  CRC-16/CCITT-FALSE (polynomial 0x1021, start value 0xFFFF) and its algebra.

  The 16-bit register is a string of bits, most significant first, so that
  exclusive-or and shifting are statements about single bits.
 */
module Crc16 {
  import opened Bytes

  type Reg = r: seq<bool> | |r| == 16 witness Zeros(16)

  function Zeros(n: nat): (z: seq<bool>)
    ensures |z| == n && forall i | 0 <= i < n :: !z[i]
  {
    seq(n, _ => false)
  }

  function Xor(a: seq<bool>, b: seq<bool>): (x: seq<bool>)
    requires |a| == |b|
    ensures |x| == |a| && forall i | 0 <= i < |a| :: x[i] == (a[i] != b[i])
  {
    seq(|a|, i requires 0 <= i < |a| => a[i] != b[i])
  }

  /** 0x1021 */
  const POLY: Reg := [false, false, false, true, false, false, false, false,
                      false, false, true, false, false, false, false, true]

  /** 0xFFFF */
  const INIT: Reg := [true, true, true, true, true, true, true, true,
                      true, true, true, true, true, true, true, true]

  function BitStep(c: Reg): Reg {
    if c[0] then Xor(c[1..] + [false], POLY) else c[1..] + [false]
  }

  function Steps(c: Reg, n: nat): Reg {
    if n == 0 then c else BitStep(Steps(c, n - 1))
  }

  function ByteStep(c: Reg, b: byte): Reg {
    Steps(Xor(c, Pad(ByteBits(b))), 8)
  }

  function CrcFrom(c: Reg, s: seq<byte>): Reg {
    if s == [] then c else ByteStep(CrcFrom(c, s[..|s| - 1]), s[|s| - 1])
  }

  function Crc(s: seq<byte>): (r: u16) {
    Pow2Eight();
    Value(CrcFrom(INIT, s))
  }

  /** The byte and bit loops that update the register in place. */
  method Compute(p: array<byte>, len: nat) returns (r: u16)
    requires len <= p.Length
    ensures r == Crc(p[..len])
  {
    var crc: Reg := INIT;
    for i := 0 to len
      invariant crc == CrcFrom(INIT, p[..i])
    {
      ghost var before := crc;
      crc := Xor(crc, Pad(ByteBits(p[i])));
      ghost var mixed := crc;
      for bit := 0 to 8
        invariant crc == Steps(mixed, bit)
      {
        if crc[0] {
          crc := Xor(crc[1..] + [false], POLY);
        } else {
          crc := crc[1..] + [false];
        }
      }
      assert p[..i + 1][..i] == p[..i];
    }
    Pow2Eight();
    r := Value(crc);
  }

  // ------------------------------------------------------------ bit feeding

  /** The register after the bits of w have been shifted through it one by one. */
  function Feed(c: Reg, w: seq<bool>): Reg
    decreases |w|
  {
    if w == [] then c else Feed(BitStep(c[0 := c[0] != w[0]]), w[1..])
  }

  /** The message as one string of bits. */
  function MessageBits(s: seq<byte>): (w: seq<bool>)
    ensures |w| == 8 * |s|
  {
    if s == [] then [] else MessageBits(s[..|s| - 1]) + ByteBits(s[|s| - 1])
  }

  lemma {:induction false} StepsFront(c: Reg, n: nat)
    requires n > 0
    ensures Steps(c, n) == Steps(BitStep(c), n - 1)
  {
    if n > 1 {
      StepsFront(c, n - 1);
    }
  }

  lemma AbsorbOne(c: Reg, x: bool, r: seq<bool>)
    requires |r| == 15
    ensures BitStep(Xor(c, [x] + r)) == Xor(BitStep(c[0 := c[0] != x]), r + [false])
  {}

  /** w at the top of the register, zeros below it. */
  function Pad(w: seq<bool>): Reg
    requires |w| <= 16
  {
    w + Zeros(16 - |w|)
  }

  lemma PadTail(w: seq<bool>)
    requires 0 < |w| <= 16
    ensures Pad(w) == [w[0]] + Pad(w)[1..]
    ensures Pad(w)[1..] + [false] == Pad(w[1..])
  {}

  /** Feeding up to sixteen bits is adding them at the top and shifting them all out. */
  lemma {:induction false} FeedIsSteps(c: Reg, w: seq<bool>)
    requires |w| <= 16
    ensures Feed(c, w) == Steps(Xor(c, Pad(w)), |w|)
    decreases |w|
  {
    if w == [] {
      assert Xor(c, Pad(w)) == c;
    } else {
      PadTail(w);
      AbsorbOne(c, w[0], Pad(w)[1..]);
      StepsFront(Xor(c, Pad(w)), |w|);
      FeedIsSteps(BitStep(c[0 := c[0] != w[0]]), w[1..]);
    }
  }

  lemma {:induction false} FeedAppend(c: Reg, v: seq<bool>, w: seq<bool>)
    ensures Feed(c, v + w) == Feed(Feed(c, v), w)
    decreases |v|
  {
    if v == [] {
      assert v + w == w;
    } else {
      assert (v + w)[1..] == v[1..] + w;
      FeedAppend(BitStep(c[0 := c[0] != v[0]]), v[1..], w);
    }
  }

  /** The byte-wise register and the bit-wise register agree on every message. */
  lemma {:induction false} CrcIsFeed(c: Reg, s: seq<byte>)
    ensures CrcFrom(c, s) == Feed(c, MessageBits(s))
  {
    if s != [] {
      var init, last := s[..|s| - 1], s[|s| - 1];
      CrcIsFeed(c, init);
      FeedAppend(c, MessageBits(init), ByteBits(last));
      FeedIsSteps(CrcFrom(c, init), ByteBits(last));
    }
  }

  // ----------------------------------------------------------- injectivity

  lemma BitStepInjective(c: Reg, d: Reg)
    requires BitStep(c) == BitStep(d)
    ensures c == d
  {
    assert BitStep(c)[15] == c[0] && BitStep(d)[15] == d[0];
    forall i | 1 <= i < 16
      ensures c[i] == d[i]
    {
      assert BitStep(c)[i - 1] == (c[i] != (c[0] && POLY[i - 1]));
      assert BitStep(d)[i - 1] == (d[i] != (d[0] && POLY[i - 1]));
    }
  }

  lemma {:induction false} StepsInjective(c: Reg, d: Reg, n: nat)
    requires Steps(c, n) == Steps(d, n)
    ensures c == d
  {
    if n > 0 {
      BitStepInjective(Steps(c, n - 1), Steps(d, n - 1));
      StepsInjective(c, d, n - 1);
    }
  }

  lemma {:induction false} FeedInjective(c: Reg, d: Reg, w: seq<bool>)
    requires Feed(c, w) == Feed(d, w)
    ensures c == d
    decreases |w|
  {
    if w != [] {
      var c', d' := c[0 := c[0] != w[0]], d[0 := d[0] != w[0]];
      FeedInjective(BitStep(c'), BitStep(d'), w[1..]);
      BitStepInjective(c', d');
      forall i | 0 <= i < 16
        ensures c[i] == d[i]
      {
        assert c'[i] == d'[i];
      }
    }
  }

  /** Two different words of at most sixteen bits drive one register to different places. */
  lemma FeedDistinguishes(c: Reg, v: seq<bool>, w: seq<bool>)
    requires |v| == |w| <= 16 && v != w
    ensures Feed(c, v) != Feed(c, w)
  {
    if Feed(c, v) == Feed(c, w) {
      FeedIsSteps(c, v);
      FeedIsSteps(c, w);
      StepsInjective(Xor(c, Pad(v)), Xor(c, Pad(w)), |v|);
      forall i | 0 <= i < |v|
        ensures v[i] == w[i]
      {
        assert Xor(c, Pad(v))[i] == Xor(c, Pad(w))[i];
      }
      assert false;
    }
  }

  // ------------------------------------------------------- error detection

  lemma FeedPieces(c: Reg, p: seq<bool>, v: seq<bool>, w: seq<bool>, q: seq<bool>)
    requires |v| == |w| <= 16 && v != w
    ensures Feed(c, p + v + q) != Feed(c, p + w + q)
  {
    FeedAppend(c, p + v, q);
    FeedAppend(c, p + w, q);
    FeedAppend(c, p, v);
    FeedAppend(c, p, w);
    FeedDistinguishes(Feed(c, p), v, w);
    if Feed(c, p + v + q) == Feed(c, p + w + q) {
      FeedInjective(Feed(c, p + v), Feed(c, p + w), q);
    }
  }

  lemma CrcPieces(a: seq<byte>, b: seq<byte>, p: seq<bool>, v: seq<bool>, w: seq<bool>, q: seq<bool>)
    requires MessageBits(a) == p + v + q && MessageBits(b) == p + w + q
    requires |v| == |w| <= 16 && v != w
    ensures Crc(a) != Crc(b)
  {
    CrcIsFeed(INIT, a);
    CrcIsFeed(INIT, b);
    FeedPieces(INIT, p, v, w, q);
    if Crc(a) == Crc(b) {
      ValueInjective(CrcFrom(INIT, a), CrcFrom(INIT, b));
    }
  }

  lemma ThreeCut<T>(s: seq<T>, i: nat, j: nat)
    requires i <= j <= |s|
    ensures s == s[..i] + s[i..j] + s[j..]
  {}

  /** The bit strings differ, and only inside one window of sixteen bits. */
  ghost predicate Burst(v: seq<bool>, w: seq<bool>, k: nat) {
    && |v| == |w| && v != w
    && forall i | 0 <= i < |v| && !(k <= i < k + 16) :: v[i] == w[i]
  }

  /** Every burst of at most sixteen damaged bits, at any bit position, changes the CRC. */
  lemma BurstDetected(a: seq<byte>, b: seq<byte>, k: nat)
    requires Burst(MessageBits(a), MessageBits(b), k)
    ensures Crc(a) != Crc(b)
  {
    var v, w := MessageBits(a), MessageBits(b);
    assert k < |v|;
    var hi := if k + 16 < |v| then k + 16 else |v|;
    assert v[..k] == w[..k] && v[hi..] == w[hi..];
    ThreeCut(v, k, hi);
    ThreeCut(w, k, hi);
    CrcPieces(a, b, v[..k], v[k..hi], w[k..hi], v[hi..]);
  }

  lemma {:induction false} MessageBitsAppend(s: seq<byte>, t: seq<byte>)
    ensures MessageBits(s + t) == MessageBits(s) + MessageBits(t)
  {
    if t == [] {
      assert s + t == s;
    } else {
      var n := |t| - 1;
      MessageBitsAppend(s, t[..n]);
      assert (s + t)[..|s + t| - 1] == s + t[..n];
    }
  }

  lemma {:induction false} MessageBitsInjective(s: seq<byte>, t: seq<byte>)
    requires |s| == |t| && MessageBits(s) == MessageBits(t)
    ensures s == t
  {
    if s != [] {
      var n := |s| - 1;
      assert MessageBits(s)[..8 * n] == MessageBits(s[..n]) && MessageBits(s)[8 * n..] == ByteBits(s[n]);
      assert MessageBits(t)[..8 * n] == MessageBits(t[..n]) && MessageBits(t)[8 * n..] == ByteBits(t[n]);
      MessageBitsInjective(s[..n], t[..n]);
      ByteBitsInjective(s[n], t[n]);
      assert s == s[..n] + [s[n]] && t == t[..n] + [t[n]];
    }
  }

  /** Equal-length byte strings that differ, but only inside bytes k and k + 1. */
  ghost predicate DamagedPair(a: seq<byte>, b: seq<byte>, k: nat) {
    && |a| == |b| && a != b
    && forall i | 0 <= i < |a| && i != k && i != k + 1 :: a[i] == b[i]
  }

  lemma MessageBitsThree(s: seq<byte>, t: seq<byte>, u: seq<byte>)
    ensures MessageBits(s + t + u) == MessageBits(s) + MessageBits(t) + MessageBits(u)
  {
    MessageBitsAppend(s + t, u);
    MessageBitsAppend(s, t);
  }

  /** Damage confined to two adjacent bytes always changes the CRC. */
  lemma PairDetected(a: seq<byte>, b: seq<byte>, k: nat)
    requires DamagedPair(a, b, k)
    ensures Crc(a) != Crc(b)
  {
    assert k < |a|;
    var hi := if k + 2 < |a| then k + 2 else |a|;
    assert a[..k] == b[..k] && a[hi..] == b[hi..];
    ThreeCut(a, k, hi);
    ThreeCut(b, k, hi);
    MessageBitsThree(a[..k], a[k..hi], a[hi..]);
    MessageBitsThree(a[..k], b[k..hi], a[hi..]);
    if MessageBits(a[k..hi]) == MessageBits(b[k..hi]) {
      MessageBitsInjective(a[k..hi], b[k..hi]);
    }
    CrcPieces(a, b, MessageBits(a[..k]), MessageBits(a[k..hi]), MessageBits(b[k..hi]), MessageBits(a[hi..]));
  }

  // --------------------------------------------------------------- residue

  lemma {:induction false} ZeroSteps(c: Reg, n: nat)
    ensures c == Zeros(16) <==> Steps(c, n) == Zeros(16)
  {
    if n > 0 {
      ZeroSteps(c, n - 1);
      assert BitStep(Zeros(16)) == Zeros(16);
      if Steps(c, n) == Zeros(16) {
        BitStepInjective(Steps(c, n - 1), Zeros(16));
      }
    }
  }

  lemma XorToZero(c: Reg, w: Reg)
    ensures Xor(c, w) == Zeros(16) <==> c == w
  {
    if Xor(c, w) == Zeros(16) {
      forall i | 0 <= i < 16
        ensures c[i] == w[i]
      {
        assert Xor(c, w)[i] == Zeros(16)[i];
      }
    }
  }

  /** A sixteen-bit word clears the register exactly when it equals the register. */
  lemma FeedToZero(c: Reg, w: seq<bool>)
    requires |w| == 16
    ensures Feed(c, w) == Zeros(16) <==> c == w
  {
    FeedIsSteps(c, w);
    assert Pad(w) == w;
    ZeroSteps(Xor(c, w), 16);
    XorToZero(c, w);
  }

  lemma WordBits(hi: byte, lo: byte)
    ensures MessageBits([hi, lo]) == ByteBits(hi) + ByteBits(lo)
    ensures Value(MessageBits([hi, lo])) == U16(hi, lo)
  {
    assert [hi, lo][..1] == [hi] && [hi][..0] == [];
    assert MessageBits([hi]) == MessageBits([]) + ByteBits(hi);
    Pow2Eight();
    ValueAppend(ByteBits(hi), ByteBits(lo));
    ValueOfBits(hi, 8);
    ValueOfBits(lo, 8);
  }

  lemma {:induction false} ValueZeros(n: nat)
    ensures Value(Zeros(n)) == 0
  {
    if n > 0 {
      ValueZeros(n - 1);
      assert Zeros(n)[..n - 1] == Zeros(n - 1);
    }
  }

  /**
    Appending a big-endian word gives CRC zero exactly when the word is the
    CRC of what precedes it, so checking a stored CRC and checking for residue
    zero are one test.
   */
  lemma Residue(m: seq<byte>, hi: byte, lo: byte)
    ensures Crc(m + [hi, lo]) == 0 <==> Crc(m) == U16(hi, lo)
  {
    var c, w := CrcFrom(INIT, m), MessageBits([hi, lo]);
    WordBits(hi, lo);
    assert Crc(m) == U16(hi, lo) <==> c == w by {
      if Crc(m) == U16(hi, lo) {
        ValueInjective(c, w);
      }
    }
    var r := CrcFrom(INIT, m + [hi, lo]);
    assert r == Feed(c, w) by {
      CrcIsFeed(INIT, m);
      CrcIsFeed(INIT, m + [hi, lo]);
      MessageBitsAppend(m, [hi, lo]);
      FeedAppend(INIT, MessageBits(m), w);
    }
    FeedToZero(c, w);
    assert Crc(m + [hi, lo]) == 0 <==> r == Zeros(16) by {
      ValueZeros(16);
      if Value(r) == 0 {
        ValueInjective(r, Zeros(16));
      }
    }
  }
}
