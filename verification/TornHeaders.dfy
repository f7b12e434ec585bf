/**
  Half-written headers that do not read BLANK: two images, and the cut inside
  VERIFY that shows it for each. The CRC of the part already stored happens
  to be FFFF, which is what the erased bytes after it say.
 */
module TornHeaders {
  import opened Bytes
  import opened BootHeader
  import opened BootLoader
  import opened Crc16
  import opened CrcWords
  import opened LoaderScript
  import opened BootTearing
  import CF = CodeFlash
  import BH = BootHistory
  import HT = HostTool
  import M = CrcMasking

  // -------------------------------------------------------- a cut script

  /** ERASE, the blocks of an image in order, and a VERIFY of claimed cut after n stores. */
  ghost function CutScript(image: seq<byte>, claimed: seq<byte>, n: nat): seq<BH.Event>
    requires |claimed| < 0x1_0000_0000
  {
    Events([EraseCmd()] + LoadCmds(image, HT.InOrder(Blocks(|image|)))) + [BH.Cut(VerifyCmd(claimed), n)]
  }

  /** VERIFY of any plausible part of what was loaded is accepted over an erased header. */
  lemma PrefixVerifies(chip: Chip, image: seq<byte>, claimed: seq<byte>, size: nat, hdrSize: nat)
    requires 0 < |claimed| <= |image| <= size < 0x1_0000_0000 && HDR_SIZE <= hdrSize
    requires claimed == image[..|claimed|] && Plausible(claimed, chip)
    ensures var l, data := Full(image, size, hdrSize), Be32(|claimed|) + Be16(Crc(claimed));
            DoVerify(chip, l, data).0 == SW_OK && BH.ClaimedImage(l, data) == claimed
  {
    hide Crc, Plausible, CF.Clears;
    var l, data := Full(image, size, hdrSize), Be32(|claimed|) + Be16(Crc(claimed));
    VerifyOpOf(claimed);
    assert l.osflash[..|claimed|] == claimed;
    assert data[..4] == Be32(|claimed|);
    var raw := Serialised(|claimed|, Crc(claimed));
    forall i | 0 <= i < |raw|
      ensures CF.Clears(l.oshdr[0 + i], raw[i])
    {
      CF.ClearsExtremes(raw[i]);
    }
  }

  /** The VERIFY of such a script, cut after n stores. */
  lemma CutVerifyReads(chip: Chip, image: seq<byte>, claimed: seq<byte>, size: nat, hdrSize: nat, n: nat)
    requires 0 < |claimed| <= |image| <= size < 0x1_0000_0000 && HDR_SIZE <= hdrSize && n <= 14
    requires claimed == image[..|claimed|] && Plausible(claimed, chip)
    ensures var l, data := Full(image, size, hdrSize), Be32(|claimed|) + Be16(Crc(claimed));
            var t := BH.TornVerify(chip, l, data, n);
            && t.osflash == l.osflash
            && |t.oshdr| >= HDR_SIZE && t.oshdr[..14] == BH.TornSeal(claimed, NOTHING, n)
            && SlotOf(t.oshdr, t.osflash) == TornReading(t.osflash, claimed, n)
  {
    hide Plausible, Crc, DoVerify, SlotOf, TornReading, SealReading, BH.ClaimedImage, Sealed;
    var l, data := Full(image, size, hdrSize), Be32(|claimed|) + Be16(Crc(claimed));
    VerifyOpOf(claimed);
    PrefixVerifies(chip, image, claimed, size, hdrSize);
    TornVerifyReads(chip, l, data, n);
    assert BH.VerifyRaw(data) == Serialised(|claimed|, Crc(claimed));
    assert BH.TornVerify(chip, l, data, n).oshdr[..14] == BH.TornSeal(claimed, NOTHING, n);
  }

  /** What such a script leaves behind. */
  lemma CutScriptReads(chip: Chip, l: Loader, image: seq<byte>, claimed: seq<byte>, n: nat)
    requires BH.WholePages(chip, l) && HDR_SIZE <= |l.oshdr| && |l.osflash| < 0x1_0000_0000
    requires 0 < |claimed| <= |image| <= |l.osflash| && |image| <= MAX_IMAGE && n <= 14
    requires claimed == image[..|claimed|] && Plausible(claimed, chip)
    ensures var t := BH.Run(chip, l, CutScript(image, claimed, n));
            && t.osflash == SlotFlash(image, |l.osflash|)
            && |t.oshdr| >= HDR_SIZE && t.oshdr[..14] == BH.TornSeal(claimed, NOTHING, n)
            && SlotOf(t.oshdr, t.osflash) == TornReading(t.osflash, claimed, n)
  {
    hide Plausible, Crc, DoVerify, SlotOf, TornReading, Handle, AllAccepted, VerifyCmd, BH.OpOf, BH.TornSeal,
      BH.TornVerify;
    var size, hdrSize, order := |l.osflash|, |l.oshdr|, HT.InOrder(Blocks(|image|));
    HT.InOrderCovers(image);
    var cmds := [EraseCmd()] + LoadCmds(image, order);
    var states := LoadPhase(chip, l, image, order);
    LastState(chip, cmds, states);
    AcceptedRun(chip, cmds, states);
    var es := CutScript(image, claimed, n);
    assert es[..|es| - 1] == Events(cmds);
    VerifyOpOf(claimed);
    PrefixVerifies(chip, image, claimed, size, hdrSize);
    CutVerifyReads(chip, image, claimed, size, hdrSize, n);
  }

  // --------------------------------------------------- a DAMAGED half header

  /** A plausible image of n bytes that ends in the two given. */
  ghost function Padded(n: nat, x: byte, y: byte): (img: seq<byte>)
    requires n >= 10
    ensures |img| == n
  {
    HT.VECTORS + Fill(n - 10, ERASED) + [x, y]
  }

  lemma PaddedPlausible(n: nat, x: byte, y: byte)
    requires n >= 10
    ensures Plausible(Padded(n, x, y), HT.SCV1)
    ensures n >= 11 ==> Plausible(Padded(n, x, y)[..n - 1], HT.SCV1)
  {
    var img := Padded(n, x, y);
    assert img[0] == 0 && img[1] == 0x40 && img[2] == 0 && img[3] == 0x20;
    assert img[4] == 1 && img[5] == 0x20 && img[6] == 0 && img[7] == 0;
  }

  /** Of two images that differ in the last byte only, one has a CRC other than FFFF. */
  lemma SomeOtherCrc(n: nat) returns (y: byte)
    requires n >= 10
    ensures Crc(Padded(n, ERASED, y)) != 0xFFFF
  {
    hide Crc;
    var a, b := Padded(n, ERASED, 0), Padded(n, ERASED, 1);
    assert a[n - 1] == 0 && b[n - 1] == 1;
    PairDetected(a, b, n - 2);
    y := if Crc(a) != 0xFFFF then 0 else 1;
  }

  lemma ShortSeal(osflash: seq<byte>, img: seq<byte>)
    requires |img| == 0x847A && Crc(img) != 0xFFFF
    ensures TornReading(osflash, img, 10) == Damaged
  {
    hide Crc, Sealed, Num32, BH.TornSeal, Be32, Be16;
    ShortHeaderCrc();
    SealStart(img, 10);
    LengthBytes();
    SealedFields(|img|, Crc(img));
    var t := BH.TornSeal(img, NOTHING, 10);
    SealPrefix(img, 10);
    JoinHeader(t);
    assert t[..12] == ShortHeader;
    assert Num16([ERASED, ERASED]) == 0xFFFF;
  }

  /** With nine bytes stored the low byte of the length is missing, with ten none. */
  lemma SealPrefix(img: seq<byte>, n: nat)
    requires |img| < 0x1_0000_0000 && 9 <= n <= 10
    ensures var t := BH.TornSeal(img, NOTHING, n);
            && t[..6] == MAGIC + [0x00, 0x01]
            && t[6..10] == if n == 10 then Be32(|img|) else Be32(|img|)[..3] + [ERASED]
  {
    hide Crc, Sealed, Num32, Num16, Be16, Be32;
    SealedFields(|img|, Crc(img));
    Be16Bytes(VERSION);
    PrefixSlices(Sealed(|img|, Crc(img)), n);
  }

  lemma PrefixSlices(s: seq<byte>, n: nat)
    requires |s| == 14 && 9 <= n <= 10
    ensures var t := s[..n] + NOTHING[n..];
            && t[..6] == s[..4] + s[4..6]
            && t[6..10] == if n == 10 then s[6..10] else s[6..10][..3] + [ERASED]
  {
    assert NOTHING[9] == ERASED;
  }

  lemma JoinHeader(t: seq<byte>)
    requires |t| == 14
    ensures t[..12] == t[..6] + t[6..10] + t[10..12]
  {}

  lemma LengthBytes()
    ensures Be32(0x847A) == [0x00, 0x00, 0x84, 0x7A] && Be32(0x27D0FE) == [0x00, 0x27, 0xD0, 0xFE]
    ensures Num32([0x00, 0x27, 0xD0, 0xFF]) == 0x27D0FF
  {
    Num32Injective(Be32(0x847A), [0x00, 0x00, 0x84, 0x7A]);
    Num32Injective(Be32(0x27D0FE), [0x00, 0x27, 0xD0, 0xFE]);
  }

  /**
    A half-written header need not read BLANK: on the part itself, an image of
    0x847A bytes whose VERIFY is cut after ten stores leaves a slot that reads
    DAMAGED.
   */
  lemma HalfHeaderReadsDamaged(l: Loader) returns (image: seq<byte>)
    requires HT.OnScv1(l)
    ensures |image| == 0x847A && Plausible(image, HT.SCV1)
    ensures var t := BH.Run(HT.SCV1, l, CutScript(image, image, 10)); SlotOf(t.oshdr, t.osflash) == Damaged
  {
    hide Plausible, Crc, SlotOf, TornReading, BH.Run, CutScript;
    var y := SomeOtherCrc(0x847A);
    image := Padded(0x847A, ERASED, y);
    PaddedPlausible(0x847A, ERASED, y);
    assert image[..|image|] == image;
    CutScriptReads(HT.SCV1, l, image, image, 10);
    ShortSeal(BH.Run(HT.SCV1, l, CutScript(image, image, 10)).osflash, image);
  }

  // ------------------------------------------- an offer that was not verified

  lemma LongSeal(osflash: seq<byte>, claimed: seq<byte>)
    requires |claimed| == 0x27D0FE && 0x27D0FF <= |osflash| && Crc(osflash[..0x27D0FF]) == 0xFFFF
    ensures Num32(BH.TornSeal(claimed, NOTHING, 9)[6..10]) == 0x27D0FF
    ensures TornReading(osflash, claimed, 9) == Loaded
  {
    hide Crc, Sealed, Num32, BH.TornSeal, Be32, Be16;
    LongHeaderCrc();
    SealStart(claimed, 9);
    LengthBytes();
    var t := BH.TornSeal(claimed, NOTHING, 9);
    SealPrefix(claimed, 9);
    assert t[6..10] == [0x00, 0x27, 0xD0, 0xFF];
    JoinHeader(t);
    assert t[..12] == LongHeader;
    assert Num16([ERASED, ERASED]) == 0xFFFF;
  }

  /**
    A VERIFY cut inside the length can make the slot offer an image that no
    VERIFY saw: with room for 0x27D0FF bytes, a VERIFY of the first 0x27D0FE
    of them cut after nine stores leaves all of them LOADED.
   */
  lemma CutVerifyOffersMore(l: Loader) returns (image: seq<byte>)
    requires BH.WholePages(HT.SCV1, l) && HDR_SIZE <= |l.oshdr| && 0x27D0FF <= |l.osflash| < 0x1_0000_0000
    ensures |image| == 0x27D0FF
    ensures var t := BH.Run(HT.SCV1, l, CutScript(image, image[..0x27D0FE], 9));
            SlotOf(t.oshdr, t.osflash) == Loaded && BH.Offered(t) == image
  {
    hide Plausible, Crc, SlotOf, TornReading, BH.Run, CutScript, BH.TornSeal, Num32;
    var x, y := M.TwoBytesMask(LongHeader[..10], HT.VECTORS + Fill(0x27D0FF - 10, ERASED), ERASED, ERASED);
    LongHeaderCrc();
    assert LongHeader[..10] + [ERASED, ERASED] == LongHeader;
    image := Padded(0x27D0FF, x, y);
    var claimed := image[..0x27D0FE];
    PaddedPlausible(0x27D0FF, x, y);
    CutScriptReads(HT.SCV1, l, image, claimed, 9);
    var t := BH.Run(HT.SCV1, l, CutScript(image, claimed, 9));
    assert t.osflash[..0x27D0FF] == image;
    LongSeal(t.osflash, claimed);
    BH.OfferedFields(t);
    BH.OfferIsPrefix(t);
    assert t.oshdr[6..10] == t.oshdr[..14][6..10];
  }
}
