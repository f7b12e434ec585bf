/**
  Machine bytes and words as bounded integers, their big-endian encodings, and
  the block write that every memory of the card is updated with.
 */
module Bytes {
  type byte = b: int | 0 <= b < 0x100
  type u16 = v: int | 0 <= v < 0x1_0000
  type u32 = v: int | 0 <= v < 0x1_0000_0000

  /** What an erased cell of EEPROM or flash reads as. */
  const ERASED: byte := 0xFF

  function Fill(n: nat, b: byte): (s: seq<byte>)
    ensures |s| == n && forall i | 0 <= i < n :: s[i] == b
  {
    seq(n, _ => b)
  }

  function U16(hi: byte, lo: byte): u16 {
    0x100 * hi + lo
  }

  function U32(a: byte, b: byte, c: byte, d: byte): u32 {
    0x100_0000 * a + 0x1_0000 * b + 0x100 * c + d
  }

  /** The number two or four big-endian bytes denote. */
  function Num16(s: seq<byte>): u16
    requires |s| == 2
  {
    U16(s[0], s[1])
  }

  function Num32(s: seq<byte>): u32
    requires |s| == 4
  {
    U32(s[0], s[1], s[2], s[3])
  }

  /** The two bytes that denote v; `Be16Bytes` computes them, `Num16Injective` makes them unique. */
  ghost function Be16(v: u16): (s: seq<byte>)
    ensures |s| == 2 && Num16(s) == v
  {
    assert Num16([v / 0x100, v % 0x100]) == v;
    var s: seq<byte> :| |s| == 2 && Num16(s) == v;
    s
  }

  ghost function Be32(v: u32): (s: seq<byte>)
    ensures |s| == 4 && Num32(s) == v
  {
    Be32Exists(v);
    var s: seq<byte> :| |s| == 4 && Num32(s) == v;
    s
  }

  lemma Be32Exists(v: u32)
    ensures Num32([v / 0x100_0000, v / 0x1_0000 % 0x100, v / 0x100 % 0x100, v % 0x100]) == v
  {
    assert v / 0x100 == 0x100 * (v / 0x1_0000) + v / 0x100 % 0x100;
    assert v / 0x1_0000 == 0x100 * (v / 0x100_0000) + v / 0x1_0000 % 0x100;
  }

  lemma LastDigit(q: int, r: byte, q': int, r': byte)
    requires 0x100 * q + r == 0x100 * q' + r'
    ensures q == q' && r == r'
  {}

  lemma Num16Injective(s: seq<byte>, t: seq<byte>)
    requires |s| == |t| == 2 && Num16(s) == Num16(t)
    ensures s == t
  {
    LastDigit(s[0], s[1], t[0], t[1]);
  }

  lemma Num32Injective(s: seq<byte>, t: seq<byte>)
    requires |s| == |t| == 4 && Num32(s) == Num32(t)
    ensures s == t
  {
    var p: int, q: int := U16(s[0], s[1]), U16(t[0], t[1]);
    LastDigit(0x100 * p + s[2], s[3], 0x100 * q + t[2], t[3]);
    LastDigit(p, s[2], q, t[2]);
    LastDigit(s[0], s[1], t[0], t[1]);
  }

  lemma Be16Bytes(v: u16)
    ensures Be16(v) == [v / 0x100, v % 0x100]
  {
    Num16Injective(Be16(v), [v / 0x100, v % 0x100]);
  }

  lemma Be32Bytes(v: u32)
    ensures Be32(v) == [v / 0x100_0000, v / 0x1_0000 % 0x100, v / 0x100 % 0x100, v % 0x100]
  {
    Be32Exists(v);
    Num32Injective(Be32(v), [v / 0x100_0000, v / 0x1_0000 % 0x100, v / 0x100 % 0x100, v % 0x100]);
  }

  /** Memory `m` with the block `d` stored at offset `at`. */
  function Splice(m: seq<byte>, at: nat, d: seq<byte>): (r: seq<byte>)
    requires at + |d| <= |m|
    ensures |r| == |m|
    ensures forall i | 0 <= i < |m| :: r[i] == if at <= i < at + |d| then d[i - at] else m[i]
  {
    m[..at] + d + m[at + |d|..]
  }

  /** Two adjacent blocks stored one after the other are one block. */
  lemma SpliceAppend(m: seq<byte>, at: nat, a: seq<byte>, b: seq<byte>)
    requires at + |a| + |b| <= |m|
    ensures Splice(Splice(m, at, a), at + |a|, b) == Splice(m, at, a + b)
  {}

  /** The byte-by-byte copy every layer stores blocks with. */
  method CopyInto(dst: array<byte>, at: nat, src: seq<byte>)
    requires at + |src| <= dst.Length
    modifies dst
    ensures dst[..] == Splice(old(dst[..]), at, src)
  {
    for i := 0 to |src|
      invariant dst[..] == Splice(old(dst[..]), at, src[..i])
    {
      dst[at + i] := src[i];
      assert src[..i + 1] == src[..i] + [src[i]];
    }
    assert src[..|src|] == src;
  }

  method PutU16(p: array<byte>, at: nat, v: u16)
    requires at + 2 <= p.Length
    modifies p
    ensures p[..] == Splice(old(p[..]), at, Be16(v))
  {
    Be16Bytes(v);
    p[at] := v / 0x100;
    p[at + 1] := v % 0x100;
  }

  method PutU32(p: array<byte>, at: nat, v: u32)
    requires at + 4 <= p.Length
    modifies p
    ensures p[..] == Splice(old(p[..]), at, Be32(v))
  {
    hide Be32, Num32;
    var b0: byte, b1: byte := v / 0x100_0000, v / 0x1_0000 % 0x100;
    var b2: byte, b3: byte := v / 0x100 % 0x100, v % 0x100;
    Be32Bytes(v);
    p[at], p[at + 1], p[at + 2], p[at + 3] := b0, b1, b2, b3;
    assert p[..] == Splice(old(p[..]), at, [b0, b1, b2, b3]);
  }

  lemma SliceOfSlice(s: seq<byte>, a: nat, b: nat, i: nat, j: nat)
    requires a <= b <= |s| && i <= j <= b - a
    ensures s[a..b][i..j] == s[a + i..a + j]
  {
    var l, r := s[a..b][i..j], s[a + i..a + j];
    assert |l| == |r|;
    assert forall k | 0 <= k < |l| :: l[k] == r[k];
  }

  lemma SpliceRead(m: seq<byte>, at: nat, d: seq<byte>)
    requires at + |d| <= |m|
    ensures Splice(m, at, d)[at..at + |d|] == d
  {}

  /** A read that does not meet the written block sees the old bytes. */
  lemma SpliceElsewhere(m: seq<byte>, at: nat, d: seq<byte>, lo: nat, hi: nat)
    requires at + |d| <= |m| && lo <= hi <= |m|
    requires hi <= at || at + |d| <= lo
    ensures Splice(m, at, d)[lo..hi] == m[lo..hi]
  {}

  /** The low n bits of v, most significant first. */
  function BitsOf(v: nat, n: nat): (s: seq<bool>)
    ensures |s| == n
  {
    if n == 0 then [] else BitsOf(v / 2, n - 1) + [v % 2 == 1]
  }

  function ByteBits(b: byte): (s: seq<bool>)
    ensures |s| == 8
  {
    BitsOf(b, 8)
  }

  function Pow2(n: nat): (p: nat)
    ensures p >= 1
  {
    if n == 0 then 1 else 2 * Pow2(n - 1)
  }

  /** The number a string of bits denotes, most significant first. */
  function Value(s: seq<bool>): (v: nat)
    ensures v < Pow2(|s|)
  {
    if s == [] then 0 else 2 * Value(s[..|s| - 1]) + (if s[|s| - 1] then 1 else 0)
  }

  lemma {:induction false} ValueOfBits(v: nat, n: nat)
    requires v < Pow2(n)
    ensures Value(BitsOf(v, n)) == v
  {
    if n > 0 {
      ValueOfBits(v / 2, n - 1);
      assert BitsOf(v, n)[..n - 1] == BitsOf(v / 2, n - 1);
    }
  }

  lemma Doubled(p: nat, v: nat, x: nat, b: nat)
    ensures 2 * (p * v + x) + b == (2 * p) * v + (2 * x + b)
  {}

  lemma {:induction false} ValueAppend(s: seq<bool>, t: seq<bool>)
    ensures Value(s + t) == Pow2(|t|) * Value(s) + Value(t)
  {
    if t == [] {
      assert s + t == s;
    } else {
      var n := |t| - 1;
      ValueAppend(s, t[..n]);
      assert (s + t)[..|s + t| - 1] == s + t[..n];
      Doubled(Pow2(n), Value(s), Value(t[..n]), if t[n] then 1 else 0);
    }
  }

  lemma {:induction false} ValueInjective(s: seq<bool>, t: seq<bool>)
    requires |s| == |t| && Value(s) == Value(t)
    ensures s == t
  {
    if s != [] {
      var n := |s| - 1;
      assert s[n] == t[n];
      ValueInjective(s[..n], t[..n]);
      assert s == s[..n] + [s[n]] && t == t[..n] + [t[n]];
    }
  }

  lemma Pow2Eight()
    ensures Pow2(8) == 0x100 && Pow2(16) == 0x1_0000
  {}

  lemma ByteBitsInjective(a: byte, b: byte)
    requires ByteBits(a) == ByteBits(b)
    ensures a == b
  {
    Pow2Eight();
    ValueOfBits(a, 8);
    ValueOfBits(b, 8);
  }
}
