/** Two bytes that make any message have the CRC of any other. */
module CrcMasking {
  import opened Bytes
  import opened Crc16

  lemma {:induction false} BitsOfValue(s: seq<bool>)
    ensures BitsOf(Value(s), |s|) == s
  {
    if s != [] {
      BitsOfValue(s[..|s| - 1]);
    }
  }

  /** Any word of bits is two bytes. */
  lemma WordFromBits(w: seq<bool>) returns (x: byte, y: byte)
    requires |w| == 16
    ensures MessageBits([x, y]) == w
  {
    Pow2Eight();
    x, y := Value(w[..8]), Value(w[8..]);
    BitsOfValue(w[..8]);
    BitsOfValue(w[8..]);
    WordBits(x, y);
  }

  /** Two bytes after any change can be chosen so that the CRC does not see the change. */
  lemma TwoBytesMask(p: seq<byte>, p': seq<byte>, a: byte, b: byte) returns (x: byte, y: byte)
    ensures Crc(p' + [x, y]) == Crc(p + [a, b])
  {
    hide CrcFrom, Feed, MessageBits, Steps, Value;
    var c, d, w := CrcFrom(INIT, p), CrcFrom(INIT, p'), MessageBits([a, b]);
    CrcOfTail(p, a, b);
    x, y := WordFromBits(Xor(Xor(w, c), d));
    CrcOfTail(p', x, y);
    Cancelled(c, d, w);
  }

  /** Shifting in the difference of two registers as well makes them equal. */
  lemma Cancelled(c: Reg, d: Reg, w: seq<bool>)
    requires |w| == 16
    ensures Feed(d, Xor(Xor(w, c), d)) == Feed(c, w)
  {
    hide Feed, Steps;
    var v := Xor(Xor(w, c), d);
    FeedIsSteps(c, w);
    FeedIsSteps(d, v);
    assert Pad(w) == w && Pad(v) == v;
    assert Xor(d, v) == Xor(c, w);
  }

  lemma CrcOfTail(p: seq<byte>, a: byte, b: byte)
    ensures |MessageBits([a, b])| == 16
    ensures CrcFrom(INIT, p + [a, b]) == Feed(CrcFrom(INIT, p), MessageBits([a, b]))
  {
    CrcIsFeed(INIT, p);
    CrcIsFeed(INIT, p + [a, b]);
    MessageBitsAppend(p, [a, b]);
    FeedAppend(INIT, MessageBits(p), MessageBits([a, b]));
  }

  /** Equal so far, equal after more of the same. */
  lemma SameTail(s: seq<byte>, t: seq<byte>, z: seq<byte>)
    requires Crc(s) == Crc(t)
    ensures Crc(s + z) == Crc(t + z)
  {
    hide CrcFrom, Feed, MessageBits, Value;
    ValueInjective(CrcFrom(INIT, s), CrcFrom(INIT, t));
    CrcOfTwo(s, z);
    CrcOfTwo(t, z);
  }

  lemma CrcOfTwo(s: seq<byte>, z: seq<byte>)
    ensures CrcFrom(INIT, s + z) == Feed(CrcFrom(INIT, s), MessageBits(z))
  {
    hide CrcFrom, Feed, MessageBits;
    CrcIsFeed(INIT, s);
    CrcIsFeed(INIT, s + z);
    MessageBitsAppend(s, z);
    FeedAppend(INIT, MessageBits(s), MessageBits(z));
  }
}
