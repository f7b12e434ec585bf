/** The on-chip byte format: a CRC-sealed superblock and CRC-sealed descriptors, all big-endian. */
module NvmLayout {
  import opened Bytes
  import opened Crc16
  import opened FsTypes

  const LAYOUT_VERSION: u16 := 1

  /** 'S' 'C' 'O' 'S' */
  const MAGIC: seq<byte> := [0x53, 0x43, 0x4F, 0x53]

  // ------------------------------------------------------------- descriptors

  /** The eighteen bytes the descriptor CRC covers. */
  ghost function DescBody(d: Desc): (s: seq<byte>)
    ensures |s| == 18
  {
    Be16(d.fid) + [d.ftype, d.lc] + Be16(d.parent) + Be16(d.size) + Be32(d.off)
    + [d.acRead, d.acUpdate, d.sfi, d.flags] + [0, 0]
  }

  ghost function DescBytes(d: Desc): (s: seq<byte>)
    ensures |s| == DESC_SIZE
  {
    DescBody(d) + Be16(Crc(DescBody(d)))
  }

  function DescFields(raw: seq<byte>): Desc
    requires |raw| == DESC_SIZE
  {
    Desc(Num16(raw[..2]), raw[2], raw[3], Num16(raw[4..6]), Num16(raw[6..8]), Num32(raw[8..12]),
         raw[12], raw[13], raw[14], raw[15])
  }

  /** A file type this layout knows, and for an EF an extent inside FLASH. */
  predicate Storable(d: Desc, flashSize: nat) {
    && (d.ftype == TYPE_MF || d.ftype == TYPE_DF || d.ftype == TYPE_EF)
    && (d.ftype == TYPE_EF ==> d.off + d.size <= flashSize)
  }

  /** Free by the type byte alone; otherwise the CRC comes before any field is believed. */
  function DecodeSlot(raw: seq<byte>, flashSize: nat): Slot
    requires |raw| == DESC_SIZE
  {
    if raw[2] == TYPE_FREE then Free
    else if Num16(raw[18..20]) != Crc(raw[..18]) then Corrupt
    else if !Storable(DescFields(raw), flashSize) then Corrupt
    else Live(DescFields(raw))
  }

  lemma DescSlices(d: Desc)
    ensures var s := DescBytes(d);
            && s[..18] == DescBody(d) && s[18..20] == Be16(Crc(DescBody(d)))
            && s[..2] == Be16(d.fid) && s[4..6] == Be16(d.parent) && s[6..8] == Be16(d.size)
            && s[8..12] == Be32(d.off)
            && s[2] == d.ftype && s[3] == d.lc
            && s[12] == d.acRead && s[13] == d.acUpdate && s[14] == d.sfi && s[15] == d.flags
  {
    hide Crc;
  }

  /** What is written reads back with every field, exactly when the layout can hold it. */
  lemma DescRoundTrip(d: Desc, flashSize: nat)
    requires d.ftype != TYPE_FREE
    ensures DecodeSlot(DescBytes(d), flashSize) == if Storable(d, flashSize) then Live(d) else Corrupt
  {
    hide Crc, DescBytes, DescBody;
    DescSlices(d);
    assert DescFields(DescBytes(d)) == d;
  }

  lemma FreeRoundTrip(flashSize: nat)
    ensures DecodeSlot(Fill(DESC_SIZE, ERASED), flashSize) == Free
  {}

  lemma LiveResidue(raw: seq<byte>, flashSize: nat)
    requires |raw| == DESC_SIZE && DecodeSlot(raw, flashSize).Live?
    ensures Crc(raw) == 0
  {
    hide Crc;
    assert raw == raw[..18] + [raw[18], raw[19]] && raw[18..20] == [raw[18], raw[19]];
    Residue(raw[..18], raw[18], raw[19]);
  }

  /** Damage inside two adjacent bytes never turns a readable descriptor into another readable one. */
  lemma DamagedDescIsSeen(raw: seq<byte>, bad: seq<byte>, flashSize: nat, k: nat)
    requires |raw| == |bad| == DESC_SIZE
    requires DecodeSlot(raw, flashSize).Live? && DamagedPair(raw, bad, k)
    ensures !DecodeSlot(bad, flashSize).Live?
  {
    hide Crc;
    PairDetected(raw, bad, k);
    LiveResidue(raw, flashSize);
    if DecodeSlot(bad, flashSize).Live? {
      LiveResidue(bad, flashSize);
    }
  }

  // -------------------------------------------------------------- superblock

  ghost function SbBody(top: u32): (s: seq<byte>)
    ensures |s| == 14
  {
    MAGIC + Be16(LAYOUT_VERSION) + Be16(MAX_FILES) + Be32(top) + [0, 0]
  }

  /** The superblock always claims MAX_FILES slots, whatever the mounted image claimed. */
  ghost function SbBytes(top: u32): (s: seq<byte>)
    ensures |s| == SB_SIZE
  {
    SbBody(top) + Be16(Crc(SbBody(top)))
  }

  /** The RAM mirror of the superblock. */
  datatype Sb = Sb(mounted: bool, version: u16, maxFiles: u16, dataTop: u32)

  function TableEnd(maxFiles: nat): nat {
    SB_SIZE + maxFiles * DESC_SIZE
  }

  function MountRaw(raw: seq<byte>, eepromSize: nat, flashSize: nat): (r: Result<Sb>)
    requires |raw| == SB_SIZE
    ensures r.Success? ==>
              && r.value.mounted && 1 <= r.value.maxFiles <= MAX_FILES
              && TableEnd(r.value.maxFiles) <= eepromSize && r.value.dataTop <= flashSize
    ensures r.Failure? ==> r.error != Ok
    ensures r.Failure? && r.error == ErrNotFormatted <==> raw[..4] != MAGIC
  {
    var maxFiles, top := Num16(raw[6..8]), Num32(raw[8..12]);
    if raw[..4] != MAGIC then Failure(ErrNotFormatted)
    else if Num16(raw[14..16]) != Crc(raw[..14]) then Failure(ErrCorrupt)
    else if Num16(raw[4..6]) != LAYOUT_VERSION then Failure(ErrVersion)
    else if maxFiles == 0 || maxFiles > MAX_FILES then Failure(ErrCorrupt)
    else if top > flashSize then Failure(ErrCorrupt)
    else if TableEnd(maxFiles) > eepromSize then Failure(ErrCorrupt)
    else Success(Sb(true, Num16(raw[4..6]), maxFiles, top))
  }

  /** What mounting these memories yields. */
  function MountResult(eeprom: seq<byte>, flashSize: nat): Result<Sb> {
    if |eeprom| < SB_SIZE then Failure(ErrNvm) else MountRaw(eeprom[..SB_SIZE], |eeprom|, flashSize)
  }

  lemma SbSlices(top: u32)
    ensures var s := SbBytes(top);
            && s[..4] == MAGIC && s[4..6] == Be16(LAYOUT_VERSION) && s[6..8] == Be16(MAX_FILES)
            && s[8..12] == Be32(top) && s[..14] == SbBody(top) && s[14..16] == Be16(Crc(SbBody(top)))
  {
    hide Crc;
  }

  lemma SbRoundTrip(top: u32, eepromSize: nat, flashSize: nat)
    requires TableEnd(MAX_FILES) <= eepromSize && top <= flashSize
    ensures MountRaw(SbBytes(top), eepromSize, flashSize) == Success(Sb(true, LAYOUT_VERSION, MAX_FILES, top))
  {
    hide Crc, SbBytes, SbBody;
    SbSlices(top);
  }

  // ------------------------------------------------- what reading recognises

  /** A descriptor with any two bytes in its reserved field, and its CRC. */
  ghost function DescImage(d: Desc, spare: seq<byte>): seq<byte>
    requires |spare| == 2
  {
    var body := Be16(d.fid) + [d.ftype, d.lc] + Be16(d.parent) + Be16(d.size) + Be32(d.off)
                + [d.acRead, d.acUpdate, d.sfi, d.flags] + spare;
    body + Be16(Crc(body))
  }

  lemma Sixteen(s: seq<byte>)
    requires |s| == 2
    ensures Be16(Num16(s)) == s
  {
    Num16Injective(Be16(Num16(s)), s);
  }

  lemma ThirtyTwo(s: seq<byte>)
    requires |s| == 4
    ensures Be32(Num32(s)) == s
  {
    Num32Injective(Be32(Num32(s)), s);
  }

  lemma DescImageSlices(d: Desc, spare: seq<byte>)
    requires |spare| == 2
    ensures var s := DescImage(d, spare);
            && |s| == DESC_SIZE && Num16(s[18..20]) == Crc(s[..18]) && DescFields(s) == d
  {
    hide Crc, Num16, Num32, Be16, Be32;
    var s := DescImage(d, spare);
    assert s[..2] == Be16(d.fid) && s[4..6] == Be16(d.parent) && s[6..8] == Be16(d.size) && s[8..12] == Be32(d.off);
    assert s == s[..18] + Be16(Crc(s[..18])) && s[18..20] == Be16(Crc(s[..18]));
  }

  lemma FieldsAreImage(raw: seq<byte>)
    requires |raw| == DESC_SIZE && Num16(raw[18..20]) == Crc(raw[..18])
    ensures raw == DescImage(DescFields(raw), raw[16..18])
  {
    hide Crc, Num16, Num32, Be16, Be32;
    Sixteen(raw[..2]);
    Sixteen(raw[4..6]);
    Sixteen(raw[6..8]);
    Sixteen(raw[18..20]);
    ThirtyTwo(raw[8..12]);
    assert raw[..18] == raw[..2] + [raw[2], raw[3]] + raw[4..6] + raw[6..8] + raw[8..12]
                        + [raw[12], raw[13], raw[14], raw[15]] + raw[16..18];
    assert raw == raw[..18] + raw[18..20];
  }

  /**
    A slot reads as file d exactly when it holds the sealed image of d and the
    layout can hold d; as free exactly by its type byte; as corrupt otherwise.
   */
  lemma DecodeExactly(raw: seq<byte>, flashSize: nat, d: Desc)
    requires |raw| == DESC_SIZE
    ensures DecodeSlot(raw, flashSize) == Live(d) <==>
              && (d.ftype == 1 || d.ftype == 2 || d.ftype == 3) && (d.ftype == 3 ==> d.off + d.size <= flashSize)
              && exists spare | |spare| == 2 :: raw == DescImage(d, spare)
    ensures DecodeSlot(raw, flashSize) == Free <==> raw[2] == 0xFF
  {
    hide Crc, Num16, DescFields, DescImage;
    if DecodeSlot(raw, flashSize) == Live(d) {
      FieldsAreImage(raw);
      assert |raw[16..18]| == 2;
    }
    forall spare | |spare| == 2 && raw == DescImage(d, spare)
      ensures DescFields(raw) == d && Num16(raw[18..20]) == Crc(raw[..18])
    {
      DescImageSlices(d, spare);
    }
    TypeField(raw);
  }

  lemma TypeField(raw: seq<byte>)
    requires |raw| == DESC_SIZE
    ensures DescFields(raw).ftype == raw[2]
  {}

  /** A superblock with any two bytes in its reserved field, and its CRC. */
  ghost function SbImage(version: u16, maxFiles: u16, top: u32, spare: seq<byte>): seq<byte>
    requires |spare| == 2
  {
    var body := MAGIC + Be16(version) + Be16(maxFiles) + Be32(top) + spare;
    body + Be16(Crc(body))
  }

  lemma SbImageSlices(version: u16, maxFiles: u16, top: u32, spare: seq<byte>)
    requires |spare| == 2
    ensures var s := SbImage(version, maxFiles, top, spare);
            && |s| == SB_SIZE && s[..4] == MAGIC && Num16(s[14..16]) == Crc(s[..14])
            && Num16(s[4..6]) == version && Num16(s[6..8]) == maxFiles && Num32(s[8..12]) == top
  {
    hide Crc, Num16, Num32, Be16, Be32;
    var s := SbImage(version, maxFiles, top, spare);
    assert s[4..6] == Be16(version) && s[6..8] == Be16(maxFiles) && s[8..12] == Be32(top);
    assert s == s[..14] + Be16(Crc(s[..14])) && s[14..16] == Be16(Crc(s[..14]));
  }

  lemma RawIsSbImage(raw: seq<byte>)
    requires |raw| == SB_SIZE && raw[..4] == MAGIC && Num16(raw[14..16]) == Crc(raw[..14])
    ensures raw == SbImage(Num16(raw[4..6]), Num16(raw[6..8]), Num32(raw[8..12]), raw[12..14])
  {
    hide Crc, Num16, Num32, Be16, Be32;
    Sixteen(raw[4..6]);
    Sixteen(raw[6..8]);
    Sixteen(raw[14..16]);
    ThirtyTwo(raw[8..12]);
    assert raw[..14] == raw[..4] + raw[4..6] + raw[6..8] + raw[8..12] + raw[12..14];
    assert raw == raw[..14] + raw[14..16];
  }

  /** These bytes are a sealed superblock. */
  ghost predicate IsSb(raw: seq<byte>, version: u16, maxFiles: u16, top: u32) {
    exists spare | |spare| == 2 :: raw == SbImage(version, maxFiles, top, spare)
  }

  lemma SbFields(raw: seq<byte>, version: u16, maxFiles: u16, top: u32)
    requires |raw| == SB_SIZE
    ensures IsSb(raw, version, maxFiles, top) <==>
              && raw[..4] == MAGIC && Num16(raw[14..16]) == Crc(raw[..14])
              && Num16(raw[4..6]) == version && Num16(raw[6..8]) == maxFiles && Num32(raw[8..12]) == top
  {
    hide Crc, Num16, Num32, SbImage;
    if spare :| |spare| == 2 && raw == SbImage(version, maxFiles, top, spare) {
      SbImageSlices(version, maxFiles, top, spare);
    }
    if raw[..4] == MAGIC && Num16(raw[14..16]) == Crc(raw[..14]) {
      RawIsSbImage(raw);
      assert |raw[12..14]| == 2;
    }
  }

  /** Mounting, exactly: version 1, one to 32 slots that fit EEPROM, a bump pointer inside FLASH. */
  lemma MountExactly(raw: seq<byte>, eepromSize: nat, flashSize: nat, sb: Sb)
    requires |raw| == SB_SIZE
    ensures MountRaw(raw, eepromSize, flashSize) == Success(sb) <==>
              && sb.mounted && sb.version == 1 && 1 <= sb.maxFiles <= 32 && 16 + 20 * sb.maxFiles <= eepromSize
              && sb.dataTop <= flashSize && IsSb(raw, 1, sb.maxFiles, sb.dataTop)
  {
    hide Crc, Num16, Num32, IsSb;
    SbFields(raw, 1, sb.maxFiles, sb.dataTop);
  }

  /** Why a mount fails: no magic, another version under a good CRC, or damage. */
  lemma MountFailsExactly(raw: seq<byte>, eepromSize: nat, flashSize: nat)
    requires |raw| == SB_SIZE && MountRaw(raw, eepromSize, flashSize).Failure?
    ensures var e := MountRaw(raw, eepromSize, flashSize).error;
            && (e == ErrNotFormatted <==> raw[..4] != [0x53, 0x43, 0x4F, 0x53])
            && (e == ErrVersion <==> exists v: u16, n: u16, top: u32 :: v != 1 && IsSb(raw, v, n, top))
            && (e == ErrNotFormatted || e == ErrVersion || e == ErrCorrupt)
  {
    hide Crc, Num16, Num32, IsSb;
    forall v: u16, n: u16, top: u32
      ensures IsSb(raw, v, n, top) <==>
                && raw[..4] == MAGIC && Num16(raw[14..16]) == Crc(raw[..14])
                && Num16(raw[4..6]) == v && Num16(raw[6..8]) == n && Num32(raw[8..12]) == top
    {
      SbFields(raw, v, n, top);
    }
    if raw[..4] == MAGIC && Num16(raw[14..16]) == Crc(raw[..14]) {
      assert IsSb(raw, Num16(raw[4..6]), Num16(raw[6..8]), Num32(raw[8..12]));
    }
  }

  lemma MountedResidue(raw: seq<byte>, eepromSize: nat, flashSize: nat)
    requires |raw| == SB_SIZE && MountRaw(raw, eepromSize, flashSize).Success?
    ensures Crc(raw) == 0
  {
    hide Crc;
    assert raw == raw[..14] + [raw[14], raw[15]] && raw[14..16] == [raw[14], raw[15]];
    Residue(raw[..14], raw[14], raw[15]);
  }

  /** Damage inside two adjacent bytes of a superblock is always seen. */
  lemma DamagedSbIsSeen(raw: seq<byte>, bad: seq<byte>, eepromSize: nat, flashSize: nat, k: nat)
    requires |raw| == |bad| == SB_SIZE
    requires MountRaw(raw, eepromSize, flashSize).Success? && DamagedPair(raw, bad, k)
    ensures MountRaw(bad, eepromSize, flashSize).Failure?
  {
    hide Crc;
    PairDetected(raw, bad, k);
    MountedResidue(raw, eepromSize, flashSize);
    if MountRaw(bad, eepromSize, flashSize).Success? {
      MountedResidue(bad, eepromSize, flashSize);
    }
  }
}
