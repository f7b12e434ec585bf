/**
  An ACTIVE slot is meant to hold a plausible image after every command
  (tests/fuzz/fuzz_boot.c, invariant 6). LOAD stays open after VERIFY and
  ACTIVATE, so the promise fails: bits can be cleared in a way the CRC does
  not see. This module says which LOADs keep it safe, over whole runs, and
  gives two ways of breaking it.
 */
module BootForgery {
  import opened Bytes
  import opened BootHeader
  import opened BootLoader
  import opened Crc16
  import opened CrcMasking
  import opened LoaderScript
  import CF = CodeFlash
  import BH = BootHistory
  import HT = HostTool

  /** Whatever the slot offers looks like code for this chip. */
  predicate Honest(chip: Chip, l: Loader) {
    BH.Offers(l) ==> Plausible(BH.Offered(l), chip)
  }

  // ---------------------------------------------------------- the safe states

  /** The header is sealed and its length lies inside the image region. */
  predicate Describes(oshdr: seq<byte>, size: nat) {
    |oshdr| >= HDR_SIZE && Parse(oshdr).Some? && 0 < Parse(oshdr).value.length <= size
  }

  /** Stack pointer and reset vector, as eight bytes, suit an image of this length. */
  predicate VectorsFit(v: seq<byte>, length: nat, chip: Chip) {
    |v| == 8 && length >= 8 && Plausible(v + Fill(length - 8, ERASED), chip)
  }

  /** Whatever the header describes, offered or damaged, has plausible vectors. */
  ghost predicate Safe(chip: Chip, l: Loader) {
    Describes(l.oshdr, |l.osflash|) ==>
      |l.osflash| >= 8 && VectorsFit(l.osflash[..8], Parse(l.oshdr).value.length, chip)
  }

  /** Only the first eight bytes and the length matter to plausibility. */
  lemma PlausibleExactly(img: seq<byte>, chip: Chip)
    ensures Plausible(img, chip) <==> |img| >= 8 && VectorsFit(img[..8], |img|, chip)
  {
    if |img| >= 8 {
      var twin := img[..8] + Fill(|img| - 8, ERASED);
      assert forall i | 0 <= i < 8 :: twin[i] == img[i];
    }
  }

  /** More room after the vectors does not hurt. */
  lemma LongerFits(v: seq<byte>, length: nat, longer: nat, chip: Chip)
    requires VectorsFit(v, length, chip) && length <= longer
    ensures VectorsFit(v, longer, chip)
  {
    var a, b := v + Fill(length - 8, ERASED), v + Fill(longer - 8, ERASED);
    assert forall i | 0 <= i < 8 :: a[i] == b[i];
  }

  /** A safe slot keeps the promise. */
  lemma SafeIsHonest(chip: Chip, l: Loader)
    requires Safe(chip, l)
    ensures Honest(chip, l)
  {
    hide Crc, Parse, VectorsFit, Plausible;
    if BH.Offers(l) {
      var img := BH.Offered(l);
      BH.OfferIsPrefix(l);
      PlausibleExactly(img, chip);
      if |img| >= 8 {
        assert img[..8] == l.osflash[..8];
      }
      FitsIsLong(l.osflash[..8], |img|, chip);
    }
  }

  lemma FitsIsLong(v: seq<byte>, length: nat, chip: Chip)
    ensures VectorsFit(v, length, chip) ==> length >= 8
  {}

  // ----------------------------------------------------- which events keep it

  /** The bytes an event stores at the start of the image, if it is an accepted LOAD of block 0. */
  ghost function BlockZero(l: Loader, e: BH.Event): Option<seq<byte>>
    requires |l.osflash| < 0x1_0000_0000
  {
    if e.ResetLine? then None
    else match BH.OpOf(e.cmd)
      case Load(block, data) =>
        if block != 0 || DoLoad(l, block, data).0 != SW_OK then None
        else Some(if e.Cut? then BH.Take(data, e.n) else data)
      case _ => None
  }

  /** The first eight bytes once these have been stored over them. */
  function LeftVectors(osflash: seq<byte>, part: seq<byte>): seq<byte>
    requires |osflash| >= 8
  {
    if |part| >= 8 then part[..8] else part + osflash[|part|..8]
  }

  /** A LOAD of block 0 must leave vectors that fit the length in the header, if there is one. */
  ghost predicate KeepsVectors(chip: Chip, l: Loader, e: BH.Event)
    requires |l.osflash| < 0x1_0000_0000
  {
    BlockZero(l, e).Some? && Describes(l.oshdr, |l.osflash|) ==>
      && |l.osflash| >= 8
      && VectorsFit(LeftVectors(l.osflash, BlockZero(l, e).value), Parse(l.oshdr).value.length, chip)
  }

  lemma VectorsLeft(osflash: seq<byte>, part: seq<byte>)
    requires 8 <= |osflash| && |part| <= |osflash|
    ensures Splice(osflash, 0, part)[..8] == LeftVectors(osflash, part)
  {}

  lemma BlockZeroExactly(chip: Chip, l: Loader, part: seq<byte>, size: nat)
    requires Safe(chip, l) && |part| <= |l.osflash| == size
    ensures Safe(chip, l.(osflash := Splice(l.osflash, 0, part))) <==>
              (Describes(l.oshdr, size) ==>
                 size >= 8 && VectorsFit(LeftVectors(l.osflash, part), Parse(l.oshdr).value.length, chip))
  {
    hide Parse, VectorsFit;
    if size >= 8 {
      VectorsLeft(l.osflash, part);
    }
  }

  lemma LaterBlockSafe(chip: Chip, l: Loader, off: nat, part: seq<byte>)
    requires Safe(chip, l) && off >= 8 && off + |part| <= |l.osflash|
    ensures Safe(chip, l.(osflash := Splice(l.osflash, off, part)))
  {
    hide Parse, VectorsFit;
    assert Splice(l.osflash, off, part)[..8] == l.osflash[..8];
  }

  lemma BlankHeaderSafe(chip: Chip, l: Loader)
    requires |l.oshdr| > 0 && l.oshdr[0] == ERASED
    ensures Safe(chip, l)
  {
    hide Crc, VectorsFit;
    if |l.oshdr| >= HDR_SIZE {
      BH.ErasedIsBlank(l.oshdr);
    }
  }

  lemma EraseSafe(chip: Chip, l: Loader, n: nat)
    requires Safe(chip, l)
    ensures Safe(chip, DoErase(chip, l).1) && Safe(chip, BH.TornErase(chip, l, n))
  {
    hide Safe;
    var a, b := DoErase(chip, l).1, BH.TornErase(chip, l, n);
    assert Splice(l.oshdr, 0, Fill(0, ERASED)) == l.oshdr;
    if a != l {
      BlankHeaderSafe(chip, a);
    }
    if b != l {
      BlankHeaderSafe(chip, b);
    }
  }

  /** The state word plays no part in it. */
  lemma SameSealSafe(chip: Chip, l: Loader, oshdr: seq<byte>)
    requires Safe(chip, l) && |oshdr| == |l.oshdr| >= HDR_SIZE && oshdr[..14] == l.oshdr[..14]
    ensures Safe(chip, l.(oshdr := oshdr))
  {
    hide Crc, VectorsFit, Sealed;
    if Parse(oshdr).Some? {
      var h := Parse(oshdr).value;
      ParsedIsSealed(oshdr);
      ParseExactly(l.oshdr, h.length, h.imageCrc);
    }
  }

  lemma ActivateSafe(chip: Chip, l: Loader, n: nat)
    requires Safe(chip, l)
    ensures Safe(chip, DoActivate(l).1) && Safe(chip, BH.TornActivate(l, n))
  {
    hide Safe, SlotOf, CF.CanProgram;
    BH.ActivateFits(l);
    if SlotOf(l.oshdr, l.osflash) == Loaded {
      var a, b := Splice(l.oshdr, 14, [0, 0]), Splice(l.oshdr, 14, BH.Take([0, 0], n));
      assert a[..14] == l.oshdr[..14] && b[..14] == l.oshdr[..14];
      SameSealSafe(chip, l, a);
      SameSealSafe(chip, l, b);
    }
  }

  /** A header that begins with the first n bytes VERIFY stores claims at least the verified length. */
  lemma SealedPrefixSafe(chip: Chip, l: Loader, img: seq<byte>, before: seq<byte>, n: nat)
    requires 0 < |img| <= |l.osflash| < 0x1_0000_0000 && l.osflash[..|img|] == img && Plausible(img, chip)
    requires |l.oshdr| >= HDR_SIZE && |before| == 14 && n <= 14 && l.oshdr[..14] == BH.TornSeal(img, before, n)
    requires CF.OnlyCleared(before, Sealed(|img|, Crc(img)))
    ensures Safe(chip, l)
  {
    hide Crc, Sealed, VectorsFit, Plausible, CF.Clears, BH.TornSeal, Num32;
    PlausibleExactly(img, chip);
    assert img[..8] == l.osflash[..8];
    if Describes(l.oshdr, |l.osflash|) {
      ClaimsMore(img, before, n);
      assert l.oshdr[6..10] == l.oshdr[..14][6..10];
      LongerFits(img[..8], |img|, Parse(l.oshdr).value.length, chip);
    }
  }

  lemma ClaimsMore(img: seq<byte>, before: seq<byte>, n: nat)
    requires |img| < 0x1_0000_0000 && |before| == 14 && n <= 14
    requires CF.OnlyCleared(before, Sealed(|img|, Crc(img)))
    ensures |img| <= Num32(BH.TornSeal(img, before, n)[6..10])
  {
    hide Crc, Sealed, CF.Clears;
    if n < 14 {
      BH.TornLength(img, before, n);
    } else {
      SealedFields(|img|, Crc(img));
      assert BH.TornSeal(img, before, 14) == Sealed(|img|, Crc(img));
    }
  }

  lemma VerifySafe(chip: Chip, l: Loader, data: seq<byte>, n: nat)
    requires |l.osflash| < 0x1_0000_0000 && DoVerify(chip, l, data).0 == SW_OK
    ensures Safe(chip, BH.TornVerify(chip, l, data, n))
  {
    hide Crc, Sealed, DoVerify, BH.ClaimedImage, Plausible, Safe, CF.Clears;
    BH.ClaimedIs(chip, l, data);
    var img, raw := BH.ClaimedImage(l, data), BH.VerifyRaw(data);
    var before, m := l.oshdr[..14], if n < 14 then n else 14;
    forall i | 0 <= i < 14
      ensures CF.Clears(before[i], Sealed(|img|, Crc(img))[i])
    {
      assert CF.Clears(l.oshdr[0 + i], raw[i]);
    }
    var t := BH.TornVerify(chip, l, data, n);
    assert t.oshdr[..14] == BH.TornSeal(img, before, m);
    SealedPrefixSafe(chip, t, img, before, m);
  }

  lemma VerifyIsWhole(chip: Chip, l: Loader, data: seq<byte>)
    requires DoVerify(chip, l, data).0 == SW_OK
    ensures DoVerify(chip, l, data).1 == BH.TornVerify(chip, l, data, HDR_SIZE)
  {
    hide Crc, Sealed, Plausible;
  }

  lemma ResetSafe(chip: Chip, l: Loader)
    ensures Safe(chip, Reset(l)) <==> Safe(chip, l)
  {}

  lemma LoadExactly(chip: Chip, l: Loader, block: u16, data: seq<byte>, n: nat)
    requires |l.osflash| < 0x1_0000_0000 && Safe(chip, l) && DoLoad(l, block, data).0 == SW_OK
    ensures Safe(chip, BH.TornLoad(l, block, data, n)) <==>
              (block == 0 && Describes(l.oshdr, |l.osflash|) ==>
                 && |l.osflash| >= 8
                 && VectorsFit(LeftVectors(l.osflash, BH.Take(data, n)), Parse(l.oshdr).value.length, chip))
    ensures Safe(chip, DoLoad(l, block, data).1) <==> Safe(chip, BH.TornLoad(l, block, data, |data|))
  {
    hide VectorsFit, Parse, Describes, DoLoad, LeftVectors;
    BH.LoadFits(l, block, data);
    LoadIsSplice(l, block, data);
    if block == 0 {
      BlockZeroExactly(chip, l, BH.Take(data, n), |l.osflash|);
    } else {
      LaterBlockSafe(chip, l, block * BLOCK, BH.Take(data, n));
    }
  }

  lemma LoadIsSplice(l: Loader, block: u16, data: seq<byte>)
    requires |l.osflash| < 0x1_0000_0000 && DoLoad(l, block, data).0 == SW_OK
    ensures block * BLOCK + |data| <= |l.osflash|
    ensures DoLoad(l, block, data).1.osflash == Splice(l.osflash, block * BLOCK, data)
    ensures DoLoad(l, block, data).1.oshdr == l.oshdr
  {}

  /**
    One event from a safe slot: it stays safe exactly when a LOAD of block 0,
    whole or cut short, leaves vectors that fit. Nothing else can hurt, a
    VERIFY cut short included.
   */
  lemma StepExactly(chip: Chip, l: Loader, e: BH.Event)
    requires |l.osflash| < 0x1_0000_0000 && Safe(chip, l)
    ensures Safe(chip, BH.Step(chip, l, e)) <==> KeepsVectors(chip, l, e)
  {
    hide Safe, Handle, Describes, VectorsFit, LeftVectors, DoErase, DoLoad, DoVerify, DoActivate, BH.TornErase,
      BH.TornLoad, BH.TornVerify, BH.TornActivate, Parse;
    match e
    case ResetLine => ResetSafe(chip, l);
    case Command(cmd, cap) =>
      BH.HandleIsExec(chip, l, cmd, cap);
      ExecExactly(chip, l, BH.OpOf(cmd));
    case Cut(cmd, n) =>
      ResetSafe(chip, BH.TornExec(chip, l, BH.OpOf(cmd), n));
      CutExactly(chip, l, BH.OpOf(cmd), n);
  }

  /** The condition for one request that stores part of its data. */
  ghost predicate Fine(chip: Chip, l: Loader, op: BH.Op, part: seq<byte>)
    requires |l.osflash| < 0x1_0000_0000
  {
    op.Load? && op.block == 0 && DoLoad(l, op.block, op.data).0 == SW_OK && Describes(l.oshdr, |l.osflash|) ==>
      |l.osflash| >= 8 && VectorsFit(LeftVectors(l.osflash, part), Parse(l.oshdr).value.length, chip)
  }

  lemma ExecExactly(chip: Chip, l: Loader, op: BH.Op)
    requires |l.osflash| < 0x1_0000_0000 && Safe(chip, l)
    ensures Safe(chip, BH.Exec(chip, l, op).1) <==> Fine(chip, l, op, if op.Load? then op.data else [])
  {
    hide Safe, Describes, VectorsFit, LeftVectors, DoErase, DoLoad, DoVerify, DoActivate, Parse;
    match op
    case Erase => EraseSafe(chip, l, 0);
    case Activate => ActivateSafe(chip, l, 0);
    case Load(block, data) =>
      if DoLoad(l, block, data).0 == SW_OK {
        LoadExactly(chip, l, block, data, |data|);
      } else {
        RefusedLoad(l, block, data);
      }
    case Verify(data) =>
      if DoVerify(chip, l, data).0 == SW_OK {
        VerifyIsWhole(chip, l, data);
        VerifySafe(chip, l, data, HDR_SIZE);
      } else {
        BH.RefusedVerify(chip, l, data);
      }
    case Other =>
  }

  lemma RefusedLoad(l: Loader, block: u16, data: seq<byte>)
    requires |l.osflash| < 0x1_0000_0000 && DoLoad(l, block, data).0 != SW_OK
    ensures DoLoad(l, block, data).1 == l
  {}

  lemma CutExactly(chip: Chip, l: Loader, op: BH.Op, n: nat)
    requires |l.osflash| < 0x1_0000_0000 && Safe(chip, l)
    ensures Safe(chip, BH.TornExec(chip, l, op, n)) <==> Fine(chip, l, op, if op.Load? then BH.Take(op.data, n) else [])
  {
    hide Safe, Describes, VectorsFit, LeftVectors, DoErase, DoLoad, DoVerify, DoActivate, Parse;
    match op
    case Erase => EraseSafe(chip, l, n);
    case Activate => ActivateSafe(chip, l, n);
    case Load(block, data) =>
      if DoLoad(l, block, data).0 == SW_OK {
        LoadExactly(chip, l, block, data, n);
      }
    case Verify(data) =>
      if DoVerify(chip, l, data).0 == SW_OK {
        VerifySafe(chip, l, data, n);
      }
    case Other =>
  }

  /** Safe at every point of a run. */
  ghost predicate AlwaysSafe(chip: Chip, l: Loader, es: seq<BH.Event>)
    requires |l.osflash| < 0x1_0000_0000
    decreases |es|
  {
    && Safe(chip, BH.Run(chip, l, es))
    && (es != [] ==> AlwaysSafe(chip, l, es[..|es| - 1]))
  }

  ghost predicate AlwaysKeepsVectors(chip: Chip, l: Loader, es: seq<BH.Event>)
    requires |l.osflash| < 0x1_0000_0000
    decreases |es|
  {
    es != [] ==>
      var before := es[..|es| - 1];
      KeepsVectors(chip, BH.Run(chip, l, before), es[|es| - 1]) && AlwaysKeepsVectors(chip, l, before)
  }

  /**
    Whole runs of commands, resets and power cuts: the slot is safe at every
    point, and so keeps the promise at every point, exactly when it started
    safe and every LOAD of block 0 left vectors that fit the header.
   */
  lemma {:induction false} RunExactly(chip: Chip, l: Loader, es: seq<BH.Event>)
    requires |l.osflash| < 0x1_0000_0000
    ensures AlwaysSafe(chip, l, es) <==> Safe(chip, l) && AlwaysKeepsVectors(chip, l, es)
    ensures AlwaysSafe(chip, l, es) ==> Honest(chip, BH.Run(chip, l, es))
    decreases |es|
  {
    hide Safe, Honest, KeepsVectors, BH.Step;
    if es != [] {
      var before := es[..|es| - 1];
      RunExactly(chip, l, before);
      SafeNow(chip, l, before);
      if Safe(chip, BH.Run(chip, l, before)) {
        StepExactly(chip, BH.Run(chip, l, before), es[|es| - 1]);
      }
    }
    if Safe(chip, BH.Run(chip, l, es)) {
      SafeIsHonest(chip, BH.Run(chip, l, es));
    }
  }

  lemma SafeNow(chip: Chip, l: Loader, es: seq<BH.Event>)
    requires |l.osflash| < 0x1_0000_0000
    ensures AlwaysSafe(chip, l, es) ==> Safe(chip, BH.Run(chip, l, es))
  {}

  /** An accepted ERASE makes any slot safe, whatever was in it. */
  lemma EraseMakesSafe(chip: Chip, l: Loader)
    requires DoErase(chip, l).0 == SW_OK
    ensures Safe(chip, DoErase(chip, l).1)
  {
    BlankHeaderSafe(chip, DoErase(chip, l).1);
  }

  /** No other command can end an honest offer. */
  lemma OthersStayHonest(chip: Chip, l: Loader, cmd: seq<byte>, cap: nat)
    requires |l.osflash| < 0x1_0000_0000 && Honest(chip, l) && !BH.OpOf(cmd).Load?
    ensures Honest(chip, Handle(chip, l, cmd, cap).next)
  {
    BH.HandleIsExec(chip, l, cmd, cap);
    var op := BH.OpOf(cmd);
    match op
    case Erase => EraseHonest(chip, l);
    case Verify(data) => VerifyHonest(chip, l, data);
    case Activate => ActivateHonest(chip, l);
    case Other =>
  }

  lemma EraseHonest(chip: Chip, l: Loader)
    requires Honest(chip, l)
    ensures Honest(chip, DoErase(chip, l).1)
  {
    var next := DoErase(chip, l).1;
    if next != l && |l.oshdr| >= HDR_SIZE {
      hide Crc;
      BH.ErasedSlotIsBlank(next.oshdr, next.osflash);
    }
  }

  lemma VerifyHonest(chip: Chip, l: Loader, data: seq<byte>)
    requires Honest(chip, l)
    ensures Honest(chip, DoVerify(chip, l, data).1)
  {
    hide Crc;
    if DoVerify(chip, l, data).0 == SW_OK {
      var length, crc := U32(data[0], data[1], data[2], data[3]), U16(data[4], data[5]);
      var now := Splice(l.oshdr, 0, Serialised(length, crc));
      assert now[..14] == Sealed(length, crc);
      ParseExactly(now, length, crc);
    }
  }

  lemma ActivateHonest(chip: Chip, l: Loader)
    requires Honest(chip, l)
    ensures Honest(chip, DoActivate(l).1)
  {
    hide Crc;
    if SlotOf(l.oshdr, l.osflash) == Loaded && DoActivate(l).0 == SW_OK {
      var h, now := Parse(l.oshdr).value, Splice(l.oshdr, 14, [0, 0]);
      ParsedIsSealed(l.oshdr);
      assert now[..14] == l.oshdr[..14];
      ParseExactly(now, h.length, h.imageCrc);
    }
  }

  // ------------------------------------------------------------- the failures

  lemma SameCrcSameSlot(oshdr: seq<byte>, m: seq<byte>, m': seq<byte>)
    requires |m| == |m'| && |oshdr| >= HDR_SIZE && Parse(oshdr).Some?
    requires var n := Parse(oshdr).value.length; n <= |m| && Crc(m[..n]) == Crc(m'[..n])
    ensures SlotOf(oshdr, m) == SlotOf(oshdr, m')
  {
    hide Crc, Parse;
  }

  const NO_THUMB: seq<byte> := [0x00, 0x40, 0x00, 0x20, 0x00, 0x20, 0x00, 0x00]

  lemma ForgedBlockProgrammable(size: nat, x: byte, y: byte)
    requires 10 <= size
    ensures CF.CanProgram(SlotFlash(HT.VECTORS + [ERASED, ERASED], size), 0, NO_THUMB + [x, y])
  {
    hide CF.Clears;
    var m, b := SlotFlash(HT.VECTORS + [ERASED, ERASED], size), NO_THUMB + [x, y];
    forall k | 0 <= k < |b|
      ensures CF.Clears(m[0 + k], b[k])
    {
      CF.ClearsItself(b[k]);
      CF.ClearsExtremes(b[k]);
      CF.ClearsExtremes(m[k]);
    }
  }

  const IMAGE: seq<byte> := HT.VECTORS + [ERASED, ERASED]

  /** The loader once IMAGE has been loaded, verified and activated. */
  ghost function Activated(size: nat, hdrSize: nat): Loader
    requires 10 <= size && HDR_SIZE <= hdrSize
  {
    Loader(SlotFlash(IMAGE, size), SlotHeader(IMAGE, hdrSize, true), |IMAGE|, true)
  }

  lemma ImagePlausible(l: Loader)
    requires HT.OnScv1(l)
    ensures |IMAGE| == 10 && Plausible(IMAGE, HT.SCV1) && BH.WholePages(HT.SCV1, l) && Covers(IMAGE, [0])
  {
    assert Blocks(|IMAGE|) == 1;
  }

  lemma ActivatedHeader(size: nat, hdrSize: nat)
    requires 10 <= size && HDR_SIZE <= hdrSize
    ensures var l := Activated(size, hdrSize);
            && Parse(l.oshdr) == Some(Header(10, Crc(IMAGE), Num16(l.oshdr[14..16]), VERSION))
            && l.osflash[..10] == IMAGE
  {
    hide Crc, Sealed;
    var h := SlotHeader(IMAGE, hdrSize, true);
    assert h[..14] == Sealed(|IMAGE|, Crc(IMAGE));
    ParseExactly(h, |IMAGE|, Crc(IMAGE));
  }

  lemma ForgedLoad(size: nat, hdrSize: nat) returns (x: byte, y: byte)
    requires 10 <= size < 0x1_0000_0000 && HDR_SIZE <= hdrSize
    requires SlotOf(Activated(size, hdrSize).oshdr, Activated(size, hdrSize).osflash) == Active
    ensures var (sw, next) := DoLoad(Activated(size, hdrSize), 0, NO_THUMB + [x, y]);
            sw == SW_OK && SlotOf(next.oshdr, next.osflash) == Active && !Honest(HT.SCV1, next)
  {
    x, y := TwoBytesMask(HT.VECTORS, NO_THUMB, ERASED, ERASED);
    hide Crc, SlotHeader, CF.CanProgram, Parse;
    var l, forged := Activated(size, hdrSize), NO_THUMB + [x, y];
    ForgedBlockProgrammable(size, x, y);
    ActivatedHeader(size, hdrSize);
    var next := DoLoad(l, 0, forged).1;
    assert next.osflash[..10] == forged;
    SameCrcSameSlot(l.oshdr, l.osflash, next.osflash);
    assert !Plausible(forged, HT.SCV1);
  }

  /**
    The promise fails: on every part, a ten-byte image is loaded, verified and
    activated, and one more accepted LOAD leaves the slot ACTIVE over an image
    whose reset vector has lost its Thumb bit.
   */
  lemma ActiveNeedNotBePlausible(l: Loader) returns (states: seq<Loader>, x: byte, y: byte)
    requires HT.OnScv1(l)
    ensures AllAccepted(HT.SCV1, [EraseCmd()] + LoadCmds(IMAGE, [0]) + [VerifyCmd(IMAGE), ActivateCmd()], states)
    ensures states[0] == l && |states[4].osflash| == |l.osflash|
    ensures SlotOf(states[4].oshdr, states[4].osflash) == Active
    ensures var (sw, next) := DoLoad(states[4], 0, NO_THUMB + [x, y]);
            sw == SW_OK && SlotOf(next.oshdr, next.osflash) == Active && !Honest(HT.SCV1, next)
  {
    hide Accepts, SlotOf, DoLoad, Honest, Crc, Plausible, SlotHeader, BH.WholePages, Covers;
    ImagePlausible(l);
    states := LoadedEqualsSlot(HT.SCV1, l, IMAGE, [0]);
    x, y := ForgedLoad(|l.osflash|, |l.oshdr|);
  }

  // ------------------------------------------------ in two steps, via block 1

  /** Vectors, filler up to the end of block 0, and two erased bytes in block 1. */
  const TALL: seq<byte> := HT.VECTORS + Fill(122, ERASED)

  lemma TallPlausible(l: Loader)
    requires HT.OnScv1(l)
    ensures |TALL| == 130 && Plausible(TALL, HT.SCV1) && BH.WholePages(HT.SCV1, l) && Covers(TALL, [0, 1])
  {
    assert Blocks(130) == 2;
    assert [0, 1][0] == 0 && [0, 1][1] == 1;
  }

  /** TALL with its Thumb bit cleared, and then its last two bytes programmed. */
  ghost function Bent(x: byte, y: byte): (img: seq<byte>)
    ensures |img| == 130
  {
    NO_THUMB + Fill(120, ERASED) + [x, y]
  }

  lemma TallHeader(size: nat, hdrSize: nat)
    requires 130 <= size && HDR_SIZE <= hdrSize
    ensures var h := SlotHeader(TALL, hdrSize, true);
            Parse(h) == Some(Header(130, Crc(TALL), Num16(h[14..16]), VERSION))
    ensures SlotFlash(TALL, size)[..130] == TALL
  {
    hide Crc, Sealed;
    var h := SlotHeader(TALL, hdrSize, true);
    assert h[..14] == Sealed(|TALL|, Crc(TALL));
    ParseExactly(h, |TALL|, Crc(TALL));
  }

  lemma VectorsProgrammable(size: nat)
    requires 130 <= size
    ensures CF.CanProgram(SlotFlash(TALL, size), 0, NO_THUMB)
  {
    hide CF.Clears, Fill;
    var m, b := SlotFlash(TALL, size), NO_THUMB;
    forall k | 0 <= k < |b|
      ensures CF.Clears(m[0 + k], b[k])
    {
      CF.ClearsItself(b[k]);
      CF.ClearsExtremes(m[k]);
    }
  }

  lemma BentPrefix(size: nat, x: byte, y: byte)
    requires 130 <= size
    ensures var bent := Splice(SlotFlash(TALL, size), 0, NO_THUMB);
            && |bent| == size && bent[128] == bent[129] == ERASED
            && bent[..130] == Bent(ERASED, ERASED) && Splice(bent, 128, [x, y])[..130] == Bent(x, y)
  {}

  lemma BentProgrammable(size: nat, x: byte, y: byte)
    requires 130 <= size
    ensures CF.CanProgram(SlotFlash(TALL, size), 0, NO_THUMB)
    ensures CF.CanProgram(Splice(SlotFlash(TALL, size), 0, NO_THUMB), 128, [x, y])
    ensures Splice(SlotFlash(TALL, size), 0, NO_THUMB)[..130] == Bent(ERASED, ERASED)
    ensures Splice(Splice(SlotFlash(TALL, size), 0, NO_THUMB), 128, [x, y])[..130] == Bent(x, y)
  {
    hide CF.Clears, Splice, SlotFlash, Bent;
    VectorsProgrammable(size);
    BentPrefix(size, x, y);
    CF.ClearsExtremes(x);
    CF.ClearsExtremes(y);
  }

  lemma BentCrcs() returns (x: byte, y: byte)
    ensures Crc(Bent(ERASED, ERASED)) != Crc(TALL) && Crc(Bent(x, y)) == Crc(TALL)
    ensures !Plausible(Bent(x, y), HT.SCV1)
  {
    hide Crc;
    var a, b := TALL, Bent(ERASED, ERASED);
    assert a[4] != b[4] && |a| == |b|;
    assert forall i | 0 <= i < 130 && i != 4 :: a[i] == b[i];
    PairDetected(a, b, 4);
    x, y := TwoBytesMask(HT.VECTORS + Fill(120, ERASED), NO_THUMB + Fill(120, ERASED), ERASED, ERASED);
    assert HT.VECTORS + Fill(120, ERASED) + [ERASED, ERASED] == TALL;
    var c := Bent(x, y);
    assert c[4] == 0 && c[5] == 0x20 && c[6] == 0 && c[7] == 0;
  }

  /**
    A LOAD of another block can complete the forgery: the vectors are bent
    while that makes the slot DAMAGED, and two bytes of block 1 then bring it
    back to ACTIVE.
   */
  lemma BlockOneCanForge(l: Loader) returns (states: seq<Loader>, x: byte, y: byte)
    requires HT.OnScv1(l)
    ensures AllAccepted(HT.SCV1, [EraseCmd()] + LoadCmds(TALL, [0, 1]) + [VerifyCmd(TALL), ActivateCmd()], states)
    ensures states[0] == l && |states[5].osflash| == |l.osflash|
    ensures SlotOf(states[5].oshdr, states[5].osflash) == Active
    ensures var (sw, bent) := DoLoad(states[5], 0, NO_THUMB);
            && sw == SW_OK && |bent.osflash| == |l.osflash| && SlotOf(bent.oshdr, bent.osflash) == Damaged
            && var (sw', next) := DoLoad(bent, 1, [x, y]);
            sw' == SW_OK && SlotOf(next.oshdr, next.osflash) == Active && !Honest(HT.SCV1, next)
  {
    hide Accepts, Crc, Plausible, SlotHeader, BH.WholePages, Covers, CF.CanProgram, Parse, Sealed, Bent;
    TallPlausible(l);
    states := LoadedEqualsSlot(HT.SCV1, l, TALL, [0, 1]);
    x, y := BentCrcs();
    BentProgrammable(|l.osflash|, x, y);
    TallHeader(|l.osflash|, |l.oshdr|);
    var end := states[5];
    var bent := DoLoad(end, 0, NO_THUMB).1;
    var next := DoLoad(bent, 1, [x, y]).1;
    SameCrcSameSlot(end.oshdr, end.osflash, next.osflash);
    assert BH.Offered(next) == Bent(x, y);
  }

  // --------------------------------------------------- every offer can be bent

  /** These LOADs are all accepted and lead from l to next. */
  ghost predicate LoadsTo(l: Loader, loads: seq<(u16, seq<byte>)>, next: Loader)
    decreases |loads|
  {
    if loads == [] then next == l
    else
      && |l.osflash| < 0x1_0000_0000
      && var (sw, mid) := DoLoad(l, loads[0].0, loads[0].1);
      sw == SW_OK && LoadsTo(mid, loads[1..], next)
  }

  lemma BlockOf(q: nat)
    requires q < MAX_IMAGE
    ensures q / BLOCK < 0x1_0000 && q / BLOCK * BLOCK <= q < q / BLOCK * BLOCK + BLOCK
  {}

  lemma RepeatedUpTo(m: seq<byte>, off: nat, q: nat, b: byte)
    requires off <= q < |m| && CF.Clears(m[q], b)
    ensures CF.CanProgram(m, off, m[off..q] + [b]) && Splice(m, off, m[off..q] + [b]) == m[q := b]
  {
    hide CF.Clears;
    var data := m[off..q] + [b];
    forall i | 0 <= i < |data|
      ensures CF.Clears(m[off + i], data[i])
    {
      CF.ClearsItself(data[i]);
    }
  }

  /** Any one byte in reach can have bits cleared by a LOAD that repeats its block up to there. */
  lemma LoadByte(l: Loader, q: nat, b: byte) returns (block: u16, data: seq<byte>)
    requires l.erased && q < |l.osflash| < 0x1_0000_0000 && q < MAX_IMAGE && CF.Clears(l.osflash[q], b)
    ensures var (sw, next) := DoLoad(l, block, data);
            && sw == SW_OK && next.osflash == l.osflash[q := b] && next.oshdr == l.oshdr && next.erased
  {
    hide CF.Clears, CF.CanProgram;
    BlockOf(q);
    block := q / BLOCK;
    var off := block * BLOCK;
    data := l.osflash[off..q] + [b];
    RepeatedUpTo(l.osflash, off, q, b);
  }

  /** An odd byte becomes even by losing its lowest bit. */
  lemma LowBitClears(b: byte)
    requires b % 2 == 1
    ensures CF.Clears(b, b - 1)
  {
    assert (b - 1) / 2 == b / 2;
    assert BitsOf(b, 8) == BitsOf(b / 2, 7) + [true] && BitsOf(b - 1, 8) == BitsOf(b / 2, 7) + [false];
  }

  /** The image with an even reset vector, and two bytes that hide the change. */
  lemma BentImage(img: seq<byte>, p: nat, chip: Chip) returns (x: byte, y: byte)
    requires Plausible(img, chip) && 8 <= p && p + 2 <= |img| && img[p] == img[p + 1] == ERASED
    ensures img[4] % 2 == 1
    ensures var bent := img[4 := img[4] - 1][p := x][p + 1 := y]; Crc(bent) == Crc(img) && !Plausible(bent, chip)
  {
    hide Crc, Plausible;
    OddVector(img, chip);
    var a, a', z := img[..p], img[..p][4 := img[4] - 1], img[p + 2..];
    x, y := TwoBytesMask(a, a', ERASED, ERASED);
    SameTail(a' + [x, y], a + [ERASED, ERASED], z);
    BentPieces(img, p, img[4] - 1, x, y);
    EvenVector(img[4 := img[4] - 1][p := x][p + 1 := y], chip);
  }

  lemma BentPieces(img: seq<byte>, p: nat, v: byte, x: byte, y: byte)
    requires 8 <= p && p + 2 <= |img|
    ensures img[..p] + [img[p], img[p + 1]] + img[p + 2..] == img
    ensures img[..p][4 := v] + [x, y] + img[p + 2..] == img[4 := v][p := x][p + 1 := y]
  {}

  lemma OddVector(img: seq<byte>, chip: Chip)
    requires Plausible(img, chip)
    ensures |img| >= 8 && img[4] % 2 == 1
  {}

  lemma EvenVector(img: seq<byte>, chip: Chip)
    requires |img| >= 8 && img[4] % 2 == 0
    ensures !Plausible(img, chip)
  {}

  /**
    Whatever image a slot offers while a session is open: if two adjacent bytes
    of it after the vectors are still erased and in reach of a LOAD, three
    accepted LOADs leave the slot reading as it did, over an image that is not
    plausible.
   */
  lemma AnyOfferCanBeForged(chip: Chip, l: Loader, p: nat)
    returns (loads: seq<(u16, seq<byte>)>, next: Loader)
    requires BH.Offers(l) && l.erased && |l.osflash| < 0x1_0000_0000 && Plausible(BH.Offered(l), chip)
    requires 8 <= p && p + 2 <= |BH.Offered(l)| && p + 2 <= MAX_IMAGE
    requires BH.Offered(l)[p] == BH.Offered(l)[p + 1] == ERASED
    ensures LoadsTo(l, loads, next) && |loads| == 3
    ensures SlotOf(next.oshdr, next.osflash) == SlotOf(l.oshdr, l.osflash) && !Honest(chip, next)
  {
    hide Crc, Plausible, SlotOf, Parse, CF.Clears, DoLoad;
    var img, n := BH.Offered(l), |BH.Offered(l)|;
    BH.OfferIsPrefix(l);
    BH.OfferedFields(l);
    var x, y := BentImage(img, p, chip);
    var v := img[4] - 1;
    LowBitClears(img[4]);
    CF.ClearsExtremes(x);
    CF.ClearsExtremes(y);
    var b1, d1 := LoadByte(l, 4, v);
    var l1 := DoLoad(l, b1, d1).1;
    var b2, d2 := LoadByte(l1, p, x);
    var l2 := DoLoad(l1, b2, d2).1;
    var b3, d3 := LoadByte(l2, p + 1, y);
    next := DoLoad(l2, b3, d3).1;
    loads := [(b1, d1), (b2, d2), (b3, d3)];
    ThreeLoads(l, b1, d1, b2, d2, b3, d3);
    assert next.osflash[..n] == img[4 := v][p := x][p + 1 := y];
    SameCrcSameSlot(l.oshdr, l.osflash, next.osflash);
    OfferMoves(l, next, n);
  }

  lemma ThreeLoads(l: Loader, b1: u16, d1: seq<byte>, b2: u16, d2: seq<byte>, b3: u16, d3: seq<byte>)
    requires |l.osflash| < 0x1_0000_0000 && DoLoad(l, b1, d1).0 == SW_OK
    requires |DoLoad(l, b1, d1).1.osflash| < 0x1_0000_0000 && DoLoad(DoLoad(l, b1, d1).1, b2, d2).0 == SW_OK
    requires var l2 := DoLoad(DoLoad(l, b1, d1).1, b2, d2).1;
             |l2.osflash| < 0x1_0000_0000 && DoLoad(l2, b3, d3).0 == SW_OK
    ensures LoadsTo(l, [(b1, d1), (b2, d2), (b3, d3)], DoLoad(DoLoad(DoLoad(l, b1, d1).1, b2, d2).1, b3, d3).1)
  {
    hide DoLoad;
    var loads: seq<(u16, seq<byte>)> := [(b1, d1), (b2, d2), (b3, d3)];
    var l1 := DoLoad(l, b1, d1).1;
    var l2 := DoLoad(l1, b2, d2).1;
    var l3 := DoLoad(l2, b3, d3).1;
    assert loads[1..][1..] == loads[2..] && loads[2..][1..] == loads[3..];
    assert LoadsTo(l3, loads[3..], l3);
    assert LoadsTo(l2, loads[2..], l3);
    assert LoadsTo(l1, loads[1..], l3);
  }

  lemma OfferMoves(l: Loader, next: Loader, n: nat)
    requires BH.Offers(l) && next.oshdr == l.oshdr && |next.osflash| == |l.osflash| && n == |BH.Offered(l)|
    requires SlotOf(next.oshdr, next.osflash) == SlotOf(l.oshdr, l.osflash)
    ensures BH.Offers(next) && n <= |next.osflash| && BH.Offered(next) == next.osflash[..n]
  {
    hide Crc, Parse;
  }
}
