/**
  Power cuts between two byte stores of a loader command, and damage to a
  finished slot: what the slot then reads as.
 */
module BootTearing {
  import opened Bytes
  import opened BootHeader
  import opened BootLoader
  import opened Crc16
  import CF = CodeFlash
  import BH = BootHistory

  // ------------------------------------------------ cuts are the code's stores

  /** A cut after n byte stores is the n-th state that the in-place methods pass through. */
  lemma CutsAreStores(chip: Chip, l: Loader, n: nat)
    requires 0 < n && |l.osflash| < 0x1_0000_0000
    ensures forall block: u16, data: seq<byte> | DoLoad(l, block, data).0 == SW_OK && n <= |data| ::
              BH.TornLoad(l, block, data, n) == l.(osflash := CF.Stores(l.osflash, block * BLOCK, data)[n - 1])
    ensures forall data | DoVerify(chip, l, data).0 == SW_OK && n <= HDR_SIZE ::
              |l.oshdr| >= HDR_SIZE
              && BH.TornVerify(chip, l, data, n) == l.(oshdr := CF.Stores(l.oshdr, 0, BH.VerifyRaw(data))[n - 1])
    ensures SlotOf(l.oshdr, l.osflash) == Loaded && n <= 2 ==>
              |l.oshdr| >= HDR_SIZE && BH.TornActivate(l, n) == l.(oshdr := CF.Stores(l.oshdr, 14, [0, 0])[n - 1])
    ensures CF.EraseStatus(|l.oshdr|, chip.page) == CF.Ok && n <= |l.oshdr| ==>
              BH.TornErase(chip, l, n) == l.(oshdr := CF.Stores(l.oshdr, 0, Fill(|l.oshdr|, ERASED))[n - 1])
    ensures BH.WholePages(chip, l) && n <= |l.osflash| ==>
              BH.TornErase(chip, l, |l.oshdr| + n)
              == l.(oshdr := Fill(|l.oshdr|, ERASED),
                    osflash := CF.Stores(l.osflash, 0, Fill(|l.osflash|, ERASED))[n - 1])
  {
    hide DoLoad, DoVerify, SlotOf, BH.VerifyRaw, CF.EraseStatus;
    forall block: u16, data: seq<byte> | DoLoad(l, block, data).0 == SW_OK && n <= |data|
      ensures block * BLOCK + |data| <= |l.osflash|
      ensures BH.TornLoad(l, block, data, n) == l.(osflash := CF.Stores(l.osflash, block * BLOCK, data)[n - 1])
    {
      BH.LoadFits(l, block, data);
      StoreIs(l.osflash, block * BLOCK, data, n);
    }
    forall data | DoVerify(chip, l, data).0 == SW_OK && n <= HDR_SIZE
      ensures |data| == 6 && |l.oshdr| >= HDR_SIZE
      ensures BH.TornVerify(chip, l, data, n) == l.(oshdr := CF.Stores(l.oshdr, 0, BH.VerifyRaw(data))[n - 1])
    {
      BH.VerifyFits(chip, l, data);
      StoreIs(l.oshdr, 0, BH.VerifyRaw(data), n);
    }
    BH.ActivateFits(l);
    if SlotOf(l.oshdr, l.osflash) == Loaded && n <= 2 {
      StoreIs(l.oshdr, 14, [0, 0], n);
    }
    EraseStores(chip, l, n);
  }

  lemma EraseStores(chip: Chip, l: Loader, n: nat)
    requires 0 < n
    ensures CF.EraseStatus(|l.oshdr|, chip.page) == CF.Ok && n <= |l.oshdr| ==>
              BH.TornErase(chip, l, n) == l.(oshdr := CF.Stores(l.oshdr, 0, Fill(|l.oshdr|, ERASED))[n - 1])
    ensures BH.WholePages(chip, l) && n <= |l.osflash| ==>
              BH.TornErase(chip, l, |l.oshdr| + n)
              == l.(oshdr := Fill(|l.oshdr|, ERASED),
                    osflash := CF.Stores(l.osflash, 0, Fill(|l.osflash|, ERASED))[n - 1])
  {
    hide CF.EraseStatus;
    if n <= |l.oshdr| {
      StoreIs(l.oshdr, 0, Fill(|l.oshdr|, ERASED), n);
      assert BH.Take(Fill(|l.oshdr|, ERASED), n) == Fill(n, ERASED);
    }
    if n <= |l.osflash| {
      StoreIs(l.osflash, 0, Fill(|l.osflash|, ERASED), n);
    }
  }

  lemma StoreIs(m: seq<byte>, off: nat, src: seq<byte>, n: nat)
    requires off + |src| <= |m| && 0 < n <= |src|
    ensures CF.Stores(m, off, src)[n - 1] == Splice(m, off, BH.Take(src, n))
  {
    CF.StoresAt(m, off, src, n - 1);
    if n == |src| {
      assert src[..n] == src;
    }
  }

  // ------------------------------------------------------------------- ERASE

  /** An ERASE cut anywhere leaves the slot as it was or BLANK. */
  lemma TornEraseIsBlank(chip: Chip, l: Loader, n: nat)
    requires |l.oshdr| >= HDR_SIZE
    ensures var t := BH.TornErase(chip, l, n);
            t == l || SlotOf(t.oshdr, t.osflash) == Blank
  {
    hide Crc, CF.EraseStatus, SlotOf;
    var t := BH.TornErase(chip, l, n);
    assert Splice(l.oshdr, 0, Fill(0, ERASED)) == l.oshdr;
    if t != l {
      BH.ErasedSlotIsBlank(t.oshdr, t.osflash);
    }
  }

  // ------------------------------------------------------------------ VERIFY

  /** A state word that is not zero is never read as ACTIVE. */
  lemma StateWordDecides(oshdr: seq<byte>, osflash: seq<byte>)
    requires |oshdr| >= HDR_SIZE && (oshdr[14] != 0 || oshdr[15] != 0)
    ensures SlotOf(oshdr, osflash) != Active
  {
    hide Crc;
    assert oshdr[14..16][0] == oshdr[14] && oshdr[14..16][1] == oshdr[15];
  }

  /** VERIFY only writes over an erased state word, and no prefix of its stores reads as ACTIVE. */
  lemma TornVerifyNotActive(chip: Chip, l: Loader, data: seq<byte>, n: nat)
    requires |l.osflash| < 0x1_0000_0000 && DoVerify(chip, l, data).0 == SW_OK
    ensures |l.oshdr| >= HDR_SIZE && l.oshdr[14] == l.oshdr[15] == ERASED
    ensures var t := BH.TornVerify(chip, l, data, n); SlotOf(t.oshdr, t.osflash) != Active
  {
    hide Crc, SlotOf, DoVerify, Sealed, CF.Clears, BH.ClaimedImage;
    BH.ClaimedIs(chip, l, data);
    var raw := BH.VerifyRaw(data);
    assert CF.Clears(l.oshdr[0 + 14], raw[14]) && CF.Clears(l.oshdr[0 + 15], raw[15]);
    CF.ErasedNeedsErased(l.oshdr[14]);
    CF.ErasedNeedsErased(l.oshdr[15]);
    StateWordDecides(BH.TornVerify(chip, l, data, n).oshdr, l.osflash);
  }

  /** The first fourteen bytes of an erased header. */
  const NOTHING: seq<byte> := [0xFF, 0xFF, 0xFF, 0xFF, 0xFF, 0xFF, 0xFF, 0xFF, 0xFF, 0xFF, 0xFF, 0xFF, 0xFF, 0xFF]

  /**
    What the first n bytes of a header for img, and erased bytes after them,
    read as: BLANK unless the CRC of the twelve bytes happens to be in place.
    If it is, the finished header reads LOADED; any other is DAMAGED, except
    that one cut inside the length may describe a longer run of flash whose
    CRC is FFFF.
   */
  ghost function TornReading(osflash: seq<byte>, img: seq<byte>, n: nat): Slot
    requires |img| < 0x1_0000_0000 && n <= 14
  {
    var t := BH.TornSeal(img, NOTHING, n);
    var claimed := Num32(t[6..10]);
    if n < 6 || Crc(t[..12]) != Num16(t[12..14]) then Blank
    else if t == Sealed(|img|, Crc(img)) then Loaded
    else if n < 10 && claimed <= |osflash| && Crc(osflash[..claimed]) == 0xFFFF then Loaded
    else Damaged
  }

  /** The first n bytes of s, and erased bytes after them, field by field. */
  lemma SealSlices(s: seq<byte>, n: nat)
    requires |s| == 14 && n <= 14
    ensures var t := s[..n] + NOTHING[n..];
            && (n <= 10 ==> t[10..12] == [ERASED, ERASED])
            && (n <= 12 ==> t[12..14] == [ERASED, ERASED])
            && (n >= 6 ==> t[..4] == s[..4] && t[4..6] == s[4..6])
            && (n >= 10 ==> t[6..10] == s[6..10])
            && (n < 4 ==> t[..4][3] == ERASED) && (4 <= n < 6 ==> t[4..6][1] == ERASED)
  {}

  lemma SealStart(img: seq<byte>, n: nat)
    requires |img| < 0x1_0000_0000 && n <= 14
    ensures var t := BH.TornSeal(img, NOTHING, n);
            && (t[..4] == MAGIC && Num16(t[4..6]) == VERSION <==> n >= 6)
            && (n <= 10 ==> t[10..12] == [ERASED, ERASED])
            && (n <= 12 ==> t[12..14] == [ERASED, ERASED])
            && (n >= 10 ==> t[6..10] == Be32(|img|))
  {
    hide Crc, Sealed, Num32, Be32;
    SealedFields(|img|, Crc(img));
    SealSlices(Sealed(|img|, Crc(img)), n);
    var t := BH.TornSeal(img, NOTHING, n);
    assert 4 <= n < 6 ==> Num16(t[4..6]) != VERSION;
  }

  /** Sliced from the header, the fields of its first fourteen bytes. */
  lemma HeaderSlices(oshdr: seq<byte>, t: seq<byte>)
    requires |oshdr| >= HDR_SIZE && oshdr[..14] == t
    ensures oshdr[..4] == t[..4] && oshdr[4..6] == t[4..6] && oshdr[6..10] == t[6..10]
    ensures oshdr[10..12] == t[10..12] && oshdr[12..14] == t[12..14] && oshdr[..12] == t[..12]
  {}

  /**
    What the first n bytes of a header for img over whatever was before read
    as: BLANK unless magic, version and CRC happen to be in place; LOADED for
    the finished header; from the tenth byte on DAMAGED for any other; and
    before that LOADED only if the length and CRC they make up fit the flash.
   */
  ghost function SealReading(osflash: seq<byte>, img: seq<byte>, before: seq<byte>, n: nat): Slot
    requires |img| < 0x1_0000_0000 && |before| == 14 && n <= 14
  {
    var t := BH.TornSeal(img, before, n);
    var claimed := Num32(t[6..10]);
    if t[..4] != MAGIC || Num16(t[4..6]) != VERSION || Crc(t[..12]) != Num16(t[12..14]) then Blank
    else if t == Sealed(|img|, Crc(img)) then Loaded
    else if n < 10 && claimed <= |osflash| && Crc(osflash[..claimed]) == Num16(t[10..12]) then Loaded
    else Damaged
  }

  lemma SealReadingOf(oshdr: seq<byte>, osflash: seq<byte>, img: seq<byte>, before: seq<byte>, n: nat)
    requires |oshdr| >= HDR_SIZE && 0 < |img| <= |osflash| < 0x1_0000_0000 && osflash[..|img|] == img
    requires |before| == 14 && n <= 14 && CF.OnlyCleared(before, Sealed(|img|, Crc(img)))
    requires oshdr[..14] == BH.TornSeal(img, before, n) && oshdr[14..16] == [ERASED, ERASED]
    ensures SlotOf(oshdr, osflash) == SealReading(osflash, img, before, n)
  {
    hide Crc, Sealed, BH.TornSeal, Num32, CF.Clears;
    var t, l := BH.TornSeal(img, before, n), Loader(osflash, oshdr, 0, false);
    HeaderSlices(oshdr, t);
    if t == Sealed(|img|, Crc(img)) {
      ParseExactly(oshdr, |img|, Crc(img));
      SealedResidueIs(img);
    } else if n == 14 {
      WholeSeal(img, before);
    } else {
      BH.TornLength(img, before, n);
      if n >= 10 && BH.Offers(l) {
        BH.LateTornIsDone(l, img, before, n);
      }
    }
  }

  /** Over an erased header it is a matter of the CRC alone. */
  lemma ErasedReading(osflash: seq<byte>, img: seq<byte>, n: nat)
    requires |img| < 0x1_0000_0000 && n <= 14
    ensures SealReading(osflash, img, NOTHING, n) == TornReading(osflash, img, n)
  {
    hide Crc, Sealed, BH.TornSeal, Num32;
    SealStart(img, n);
    assert Num16([ERASED, ERASED]) == 0xFFFF;
  }

  lemma WholeSeal(img: seq<byte>, before: seq<byte>)
    requires |img| < 0x1_0000_0000 && |before| == 14
    ensures BH.TornSeal(img, before, 14) == Sealed(|img|, Crc(img))
  {
    hide Crc, Sealed;
  }

  lemma SealedResidueIs(img: seq<byte>)
    requires |img| < 0x1_0000_0000
    ensures var s := Sealed(|img|, Crc(img)); Crc(s[..12]) == Num16(s[12..14])
  {
    SealedFields(|img|, Crc(img));
  }

  /**
    An accepted VERIFY, cut after any number of its stores, over an erased
    header or one an earlier VERIFY of the session sealed: the slot reads
    exactly as the bytes in place say.
   */
  lemma TornVerifyReads(chip: Chip, l: Loader, data: seq<byte>, n: nat)
    requires |l.osflash| < 0x1_0000_0000 && DoVerify(chip, l, data).0 == SW_OK
    ensures |l.oshdr| >= HDR_SIZE
    ensures var t, img, m := BH.TornVerify(chip, l, data, n), BH.ClaimedImage(l, data), if n < 14 then n else 14;
            && |img| < 0x1_0000_0000
            && SlotOf(t.oshdr, t.osflash) == SealReading(l.osflash, img, l.oshdr[..14], m)
            && (l.oshdr == Fill(|l.oshdr|, ERASED) ==> SlotOf(t.oshdr, t.osflash) == TornReading(l.osflash, img, m))
  {
    hide Crc, Sealed, DoVerify, BH.ClaimedImage, SlotOf, TornReading, SealReading, CF.ProgramStatus, CF.Clears;
    BH.VerifyFits(chip, l, data);
    BH.ClaimedIs(chip, l, data);
    TornVerifyNotActive(chip, l, data, n);
    var t, img, m := BH.TornVerify(chip, l, data, n), BH.ClaimedImage(l, data), if n < 14 then n else 14;
    SealOver(l.oshdr, img);
    assert t.oshdr[..14] == BH.TornSeal(img, l.oshdr[..14], m);
    assert t.oshdr[14..16] == [ERASED, ERASED];
    SealReadingOf(t.oshdr, t.osflash, img, l.oshdr[..14], m);
    if l.oshdr == Fill(|l.oshdr|, ERASED) {
      assert l.oshdr[..14] == NOTHING;
      ErasedReading(l.osflash, img, m);
    }
  }

  /** A header that VERIFY may program only has bits cleared by its seal. */
  lemma SealOver(oshdr: seq<byte>, img: seq<byte>)
    requires |oshdr| >= HDR_SIZE && |img| < 0x1_0000_0000
    requires CF.ProgramStatus(oshdr, 0, Serialised(|img|, Crc(img))) == CF.Ok
    ensures CF.OnlyCleared(oshdr[..14], Sealed(|img|, Crc(img)))
  {
    hide Crc, Sealed, CF.Clears;
    var raw := Serialised(|img|, Crc(img));
    forall i | 0 <= i < 14
      ensures CF.Clears(oshdr[..14][i], Sealed(|img|, Crc(img))[i])
    {
      assert CF.Clears(oshdr[0 + i], raw[i]);
    }
  }

  // ---------------------------------------------------------------- ACTIVATE

  /**
    ACTIVATE of any LOADED slot: the completed one reads ACTIVE, and after its
    first store alone the slot reads ACTIVE exactly if the second state byte
    was zero already.
   */
  lemma TornActivateReads(l: Loader)
    requires SlotOf(l.oshdr, l.osflash) == Loaded
    ensures |l.oshdr| >= HDR_SIZE
    ensures var t := BH.TornActivate(l, 1);
            SlotOf(t.oshdr, t.osflash) == if l.oshdr[15] == 0 then Active else Loaded
    ensures DoActivate(l) == (SW_OK, BH.TornActivate(l, 2))
    ensures var t := BH.TornActivate(l, 2); SlotOf(t.oshdr, t.osflash) == Active
  {
    hide Crc, CF.CanProgram, Sealed, SlotOf, Parse;
    BH.ActivateFits(l);
    ActivateProgrammable(l.oshdr);
    var a, b := BH.TornActivate(l, 1).oshdr, BH.TornActivate(l, 2).oshdr;
    assert a[..14] == l.oshdr[..14] && b[..14] == l.oshdr[..14];
    assert a[14..16] == [0, l.oshdr[15]] && b[14..16] == [0, 0];
    OtherState(l.oshdr, a, l.osflash);
    OtherState(l.oshdr, b, l.osflash);
  }

  /** Under the same seal only the state word tells LOADED from ACTIVE. */
  lemma OtherState(oshdr: seq<byte>, other: seq<byte>, osflash: seq<byte>)
    requires |oshdr| >= HDR_SIZE && |other| >= HDR_SIZE && SlotOf(oshdr, osflash) == Loaded
    requires other[..14] == oshdr[..14]
    ensures SlotOf(other, osflash) == if Num16(other[14..16]) == STATE_ACTIVE then Active else Loaded
  {
    hide Crc, Sealed;
    var h := Parse(oshdr).value;
    ParsedIsSealed(oshdr);
    ParseExactly(other, h.length, h.imageCrc);
  }

  lemma ActivateProgrammable(oshdr: seq<byte>)
    requires |oshdr| >= HDR_SIZE
    ensures CF.CanProgram(oshdr, 14, [0, 0])
  {
    hide CF.Clears;
    CF.ClearsExtremes(oshdr[14]);
    CF.ClearsExtremes(oshdr[15]);
    assert [0, 0][0] == 0 && [0, 0][1] == 0;
  }

  /**
    After any run of commands, resets and power cuts that has seen an ERASE, a
    LOADED slot has state word FFFF or 00FF: so however often ACTIVATE is cut
    short, the slot reads ACTIVE only once one has been completed.
   */
  lemma ReachableStateWord(chip: Chip, l: Loader, es: seq<BH.Event>)
    requires |l.osflash| < 0x1_0000_0000 && !l.erased
    requires BH.HistoryOf(chip, l, es).erases
    requires var now := BH.Run(chip, l, es); SlotOf(now.oshdr, now.osflash) == Loaded
    ensures var now := BH.Run(chip, l, es);
            && |now.oshdr| >= HDR_SIZE
            && (now.oshdr[14] == ERASED || now.oshdr[14] == 0) && now.oshdr[15] == ERASED
            && var t := BH.TornActivate(now, 1);
            SlotOf(t.oshdr, t.osflash) == Loaded
  {
    BH.RunConsistent(chip, l, es);
    var h, now := BH.HistoryOf(chip, l, es), BH.Run(chip, l, es);
    StateOf(now, h.mark);
    TornActivateReads(now);
  }

  lemma StateOf(l: Loader, mark: BH.Mark)
    requires BH.HeaderFits(l.oshdr, mark, l.erased) && SlotOf(l.oshdr, l.osflash) == Loaded
    ensures |l.oshdr| >= HDR_SIZE && (l.oshdr[14] == ERASED || l.oshdr[14] == 0) && l.oshdr[15] == ERASED
  {
    hide Crc, Sealed, BH.TornSeal;
    BH.ActivateFits(l);
    if mark.Empty? {
      BH.EmptyOffersNothing(l, l.erased);
    } else {
      var w := l.oshdr[14..16];
      assert w[0] == l.oshdr[14] && w[1] == l.oshdr[15];
    }
  }

  // ------------------------------------------------------------------ damage

  /** Damage inside two adjacent bytes of an offered image reads as DAMAGED. */
  lemma DamagedImageIsSeen(l: Loader, m: seq<byte>, k: nat)
    requires BH.Offers(l) && |m| == |l.osflash|
    requires DamagedPair(BH.Offered(l), m[..|BH.Offered(l)|], k)
    ensures SlotOf(l.oshdr, m) == Damaged
  {
    PairDetected(BH.Offered(l), m[..|BH.Offered(l)|], k);
    hide Crc, Parse;
  }

  /** Damage inside two adjacent bytes of its sealed header reads as BLANK. */
  lemma DamagedHeaderIsSeen(l: Loader, hdr: seq<byte>, k: nat)
    requires BH.Offers(l) && |hdr| == |l.oshdr|
    requires DamagedPair(l.oshdr[..14], hdr[..14], k)
    ensures SlotOf(hdr, l.osflash) == Blank
  {
    DamagedHeaderIsBlank(l.oshdr, hdr, k);
    hide Crc, Parse;
  }
}
