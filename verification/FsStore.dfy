/**
  The physical layer: superblock, descriptor table and data area in two
  byte memories, and the RAM mirror of the superblock.

  `Store` is the layer's state as a value and `Exec` the effect of one NVM
  write on it; the class `Nvm` is the in-place implementation.
 */
module FsStore {
  import opened Bytes
  import opened Crc16
  import opened FsTypes
  import opened NvmLayout
  import opened SlotSearch

  datatype Store = Store(eeprom: seq<byte>, flash: seq<byte>, sb: Sb)

  /** What a mount or format guarantees of the mirror, and every operation keeps. */
  ghost predicate Sound(s: Store) {
    && |s.eeprom| < 0x1_0000_0000 && |s.flash| < 0x1_0000_0000
    && (s.sb.mounted ==>
          && 1 <= s.sb.maxFiles <= MAX_FILES
          && TableEnd(s.sb.maxFiles) <= |s.eeprom|
          && s.sb.dataTop <= |s.flash|)
  }

  function SlotRaw(eeprom: seq<byte>, i: nat): (raw: seq<byte>)
    requires TableEnd(i + 1) <= |eeprom|
    ensures |raw| == DESC_SIZE
  {
    eeprom[TableEnd(i)..TableEnd(i + 1)]
  }

  /** The descriptor table as it reads; empty while unmounted. */
  ghost function Table(s: Store): (t: seq<Slot>)
    requires Sound(s)
    ensures |t| == if s.sb.mounted then s.sb.maxFiles else 0
    ensures forall i | 0 <= i < |t| :: t[i] == DecodeSlot(SlotRaw(s.eeprom, i), |s.flash|)
  {
    if s.sb.mounted then
      seq(s.sb.maxFiles, i requires 0 <= i < s.sb.maxFiles => DecodeSlot(SlotRaw(s.eeprom, i), |s.flash|))
    else []
  }

  /** Reading slot i through the mirror's checks. */
  function ReadSlot(t: seq<Slot>, i: u16): (r: Result<Desc>)
    ensures r.Failure? ==> r.error != Ok
    ensures r.Success? <==> i < |t| && t[i].Live?
    ensures r.Success? ==> r.value == t[i].desc
  {
    if |t| == 0 then Failure(ErrNotFormatted)
    else if i >= |t| then Failure(ErrParam)
    else match t[i]
      case Free => Failure(ErrNotFound)
      case Corrupt => Failure(ErrCorrupt)
      case Live(d) => Success(d)
  }

  // ------------------------------------------------------------- NVM writes

  /** One call of the NVM write primitive, by what it stores. */
  datatype Write =
    | WriteSb(top: u32)
    | WriteDesc(slot: nat, desc: Desc)
    | FreeDesc(slot: nat)
    | WriteData(off: nat, data: seq<byte>)

  ghost predicate Fits(s: Store, w: Write) {
    match w
    case WriteSb(top) => top <= |s.flash|
    case WriteDesc(i, d) => i < s.sb.maxFiles && d.ftype != TYPE_FREE
    case FreeDesc(i) => i < s.sb.maxFiles
    case WriteData(off, data) => off + |data| <= |s.flash|
  }

  ghost function Exec(s: Store, w: Write): (r: Store)
    requires Sound(s) && s.sb.mounted && Fits(s, w)
    ensures Sound(r) && |r.eeprom| == |s.eeprom| && |r.flash| == |s.flash|
    ensures r.sb == if w.WriteSb? then s.sb.(dataTop := w.top) else s.sb
  {
    match w
    case WriteSb(top) => s.(eeprom := Splice(s.eeprom, 0, SbBytes(top)), sb := s.sb.(dataTop := top))
    case WriteDesc(i, d) => s.(eeprom := Splice(s.eeprom, TableEnd(i), DescBytes(d)))
    case FreeDesc(i) => s.(eeprom := Splice(s.eeprom, TableEnd(i), Fill(DESC_SIZE, ERASED)))
    case WriteData(off, data) => s.(flash := Splice(s.flash, off, data))
  }

  /** The same write seen on the table. */
  function TableAfter(t: seq<Slot>, flashSize: nat, w: Write): seq<Slot> {
    match w
    case WriteSb(_) => t
    case WriteDesc(i, d) => if i < |t| then t[i := if Storable(d, flashSize) then Live(d) else Corrupt] else t
    case FreeDesc(i) => if i < |t| then t[i := Free] else t
    case WriteData(_, _) => t
  }

  lemma OtherSlots(eeprom: seq<byte>, i: nat, raw: seq<byte>, j: nat)
    requires |raw| == DESC_SIZE && TableEnd(i + 1) <= |eeprom| && TableEnd(j + 1) <= |eeprom|
    ensures SlotRaw(Splice(eeprom, TableEnd(i), raw), j) == if i == j then raw else SlotRaw(eeprom, j)
  {
    if i == j {
      SpliceRead(eeprom, TableEnd(i), raw);
    } else {
      SpliceElsewhere(eeprom, TableEnd(i), raw, TableEnd(j), TableEnd(j + 1));
    }
  }

  lemma SlotUpdate(s: Store, i: nat, raw: seq<byte>)
    requires Sound(s) && s.sb.mounted && i < s.sb.maxFiles && |raw| == DESC_SIZE
    ensures Sound(s.(eeprom := Splice(s.eeprom, TableEnd(i), raw)))
    ensures Table(s.(eeprom := Splice(s.eeprom, TableEnd(i), raw))) == Table(s)[i := DecodeSlot(raw, |s.flash|)]
  {
    hide DecodeSlot;
    var s' := s.(eeprom := Splice(s.eeprom, TableEnd(i), raw));
    forall j | 0 <= j < s.sb.maxFiles
      ensures Table(s')[j] == Table(s)[i := DecodeSlot(raw, |s.flash|)][j]
    {
      OtherSlots(s.eeprom, i, raw, j);
    }
  }

  lemma SbWriteTable(s: Store, top: u32)
    requires Sound(s) && s.sb.mounted && top <= |s.flash|
    ensures Table(Exec(s, WriteSb(top))) == Table(s)
  {
    hide DecodeSlot, SbBytes;
    forall j | 0 <= j < s.sb.maxFiles
      ensures SlotRaw(Exec(s, WriteSb(top)).eeprom, j) == SlotRaw(s.eeprom, j)
    {
      SpliceElsewhere(s.eeprom, 0, SbBytes(top), TableEnd(j), TableEnd(j + 1));
    }
  }

  /** Each write changes the one slot it names and nothing else in the table. */
  lemma ExecTable(s: Store, w: Write)
    requires Sound(s) && s.sb.mounted && Fits(s, w)
    ensures Table(Exec(s, w)) == TableAfter(Table(s), |s.flash|, w)
  {
    hide DecodeSlot, SbBytes, DescBytes, SlotRaw;
    match w
    case WriteSb(top) => SbWriteTable(s, top);
    case WriteDesc(i, d) =>
      SlotUpdate(s, i, DescBytes(d));
      DescRoundTrip(d, |s.flash|);
    case FreeDesc(i) =>
      SlotUpdate(s, i, Fill(DESC_SIZE, ERASED));
      FreeRoundTrip(|s.flash|);
    case WriteData(_, _) =>
  }

  /** A list of writes in order; it stops at the first one the device would refuse. */
  ghost function ExecAll(s: Store, ws: seq<Write>): (r: Store)
    requires Sound(s)
    ensures Sound(r)
    decreases |ws|
  {
    if ws == [] || !s.sb.mounted || !Fits(s, ws[0]) then s else ExecAll(Exec(s, ws[0]), ws[1..])
  }

  lemma ExecOne(s: Store, w: Write)
    requires Sound(s) && s.sb.mounted && Fits(s, w)
    ensures ExecAll(s, [w]) == Exec(s, w)
  {
    assert ExecAll(Exec(s, w), [w][1..]) == Exec(s, w);
  }

  lemma ExecTwo(s: Store, v: Write, w: Write)
    requires Sound(s) && s.sb.mounted && Fits(s, v) && Fits(Exec(s, v), w)
    ensures ExecAll(s, [v, w]) == Exec(Exec(s, v), w)
  {
    assert [v, w][1..] == [w];
    ExecOne(Exec(s, v), w);
  }

  // ------------------------------------------------------------- the mirror

  /** The mirror is what mounting the chip afresh would load. */
  ghost predicate Mirrored(s: Store) {
    s.sb.mounted && MountResult(s.eeprom, |s.flash|) == Success(s.sb)
  }

  lemma SbUntouched(s: Store, w: Write)
    requires Sound(s) && s.sb.mounted && Fits(s, w) && !w.WriteSb?
    ensures Exec(s, w).eeprom[..SB_SIZE] == s.eeprom[..SB_SIZE]
  {
    hide DescBytes;
  }

  /**
    A superblock write keeps the mirror equal to the chip exactly on images of
    MAX_FILES slots; every other write keeps it on all images.
   */
  lemma MirrorKept(s: Store, w: Write)
    requires Sound(s) && Mirrored(s) && Fits(s, w)
    ensures Mirrored(Exec(s, w)) <==> (w.WriteSb? ==> s.sb.maxFiles == MAX_FILES)
  {
    hide Crc, SbBytes;
    if w.WriteSb? {
      var e := Exec(s, w).eeprom;
      assert e[..SB_SIZE] == SbBytes(w.top);
      assert s.sb.version == LAYOUT_VERSION;
      if TableEnd(MAX_FILES) <= |s.eeprom| {
        SbRoundTrip(w.top, |s.eeprom|, |s.flash|);
      } else {
        SbSlices(w.top);
      }
    } else {
      SbUntouched(s, w);
    }
  }

  // -------------------------------------------------------------- formatting

  ghost function FormatResult(s: Store): (Status, Store) {
    if TableEnd(MAX_FILES) > |s.eeprom| then (ErrNoSpace, s)
    else
      var blank := Splice(s.eeprom, SB_SIZE, Fill(MAX_FILES * DESC_SIZE, ERASED));
      (Ok, Store(Splice(blank, 0, SbBytes(0)), s.flash, Sb(true, LAYOUT_VERSION, MAX_FILES, 0)))
  }

  /** Every slot in turn, the superblock last. */
  ghost function FormatWrites(): (ws: seq<Write>)
    ensures |ws| == MAX_FILES + 1
    ensures forall i | 0 <= i < MAX_FILES :: ws[i] == FreeDesc(i)
    ensures ws[MAX_FILES] == WriteSb(0)
  {
    seq(MAX_FILES, i requires 0 <= i => FreeDesc(i)) + [WriteSb(0)]
  }

  lemma NextSlotErased(m: seq<byte>, i: nat)
    requires TableEnd(i + 1) <= |m|
    ensures Splice(Splice(m, SB_SIZE, Fill(i * DESC_SIZE, ERASED)), TableEnd(i), Fill(DESC_SIZE, ERASED))
         == Splice(m, SB_SIZE, Fill((i + 1) * DESC_SIZE, ERASED))
  {
    SpliceAppend(m, SB_SIZE, Fill(i * DESC_SIZE, ERASED), Fill(DESC_SIZE, ERASED));
    assert Fill(i * DESC_SIZE, ERASED) + Fill(DESC_SIZE, ERASED) == Fill((i + 1) * DESC_SIZE, ERASED);
  }

  ghost function AllFree(n: nat): (t: seq<Slot>)
    ensures |t| == n && forall i | 0 <= i < n :: t[i] == Free
  {
    seq(n, _ => Free)
  }

  /** A formatted chip has MAX_FILES free slots and remounts as it is mirrored. */
  lemma FormatTable(s: Store)
    requires |s.eeprom| < 0x1_0000_0000 && |s.flash| < 0x1_0000_0000 && TableEnd(MAX_FILES) <= |s.eeprom|
    ensures var f := FormatResult(s).1;
            Sound(f) && Mirrored(f) && f.flash == s.flash && Table(f) == AllFree(MAX_FILES)
  {
    hide DecodeSlot, Crc, SbBytes;
    var f := FormatResult(s).1;
    assert f.eeprom[..SB_SIZE] == SbBytes(0);
    SbRoundTrip(0, |s.eeprom|, |s.flash|);
    forall i | 0 <= i < MAX_FILES
      ensures Table(f)[i] == Free
    {
      assert SlotRaw(f.eeprom, i) == Fill(DESC_SIZE, ERASED);
      FreeRoundTrip(|s.flash|);
    }
  }

  // ---------------------------------------------------------- implementation

  class Nvm {
    const eeprom: array<byte>
    const flash: array<byte>
    var mounted: bool
    var version: u16
    var maxFiles: u16
    var dataTop: u32
    /** The NVM writes made, in order. */
    ghost var log: seq<Write>

    ghost predicate Valid()
      reads this, eeprom, flash
    {
      eeprom != flash && Sound(Abs())
    }

    ghost function Abs(): Store
      reads this, eeprom, flash
    {
      Store(eeprom[..], flash[..], Sb(mounted, version, maxFiles, dataTop))
    }

    /** An unmounted view of the two memories. */
    constructor (eeprom: array<byte>, flash: array<byte>)
      requires eeprom != flash && eeprom.Length < 0x1_0000_0000 && flash.Length < 0x1_0000_0000
      ensures Valid() && this.eeprom == eeprom && this.flash == flash && log == []
      ensures Abs() == Store(eeprom[..], flash[..], Sb(false, 0, 0, 0))
    {
      this.eeprom, this.flash := eeprom, flash;
      mounted, version, maxFiles, dataTop := false, 0, 0, 0;
      log := [];
    }

    method Mount() returns (st: Status)
      requires Valid()
      modifies this
      ensures Valid() && log == old(log)
      ensures match MountResult(eeprom[..], flash.Length)
              case Success(sb) => st == Ok && Abs() == old(Abs()).(sb := sb)
              case Failure(e) => st == e && Abs() == old(Abs()).(sb := old(Abs()).sb.(mounted := false))
    {
      hide Crc;
      mounted := false;
      if eeprom.Length < SB_SIZE {
        return ErrNvm;
      }
      var raw := eeprom[..SB_SIZE];
      assert raw == eeprom[..][..SB_SIZE];
      if raw[..4] != MAGIC {
        return ErrNotFormatted;
      }
      if Num16(raw[14..16]) != Crc(raw[..14]) {
        return ErrCorrupt;
      }
      var v := Num16(raw[4..6]);
      if v != LAYOUT_VERSION {
        return ErrVersion;
      }
      var n := Num16(raw[6..8]);
      if n == 0 || n > MAX_FILES {
        return ErrCorrupt;
      }
      var top := Num32(raw[8..12]);
      if top > flash.Length {
        return ErrCorrupt;
      }
      if TableEnd(n) > eeprom.Length {
        return ErrCorrupt;
      }
      version, maxFiles, dataTop, mounted := v, n, top, true;
      return Ok;
    }

    method FillSb(raw: array<byte>)
      requires raw.Length == SB_SIZE && raw[12] == 0 && raw[13] == 0
      modifies raw
      ensures raw[..14] == SbBody(dataTop)
    {
      hide Be16, Be32, Num16, Num32;
      raw[0], raw[1], raw[2], raw[3] := 0x53, 0x43, 0x4F, 0x53;
      PutU16(raw, 4, LAYOUT_VERSION);
      PutU16(raw, 6, MAX_FILES);
      assert raw[..8] == MAGIC + Be16(LAYOUT_VERSION) + Be16(MAX_FILES);
      PutU32(raw, 8, dataTop);
    }

    /** Serialises the superblock from the mirror and stores it. */
    method WriteSuperblock()
      requires eeprom != flash && SB_SIZE <= eeprom.Length
      modifies eeprom
      ensures eeprom[..] == Splice(old(eeprom[..]), 0, SbBytes(dataTop))
    {
      hide Crc, Be16, SbBody;
      var raw := new byte[SB_SIZE](_ => 0);
      FillSb(raw);
      var crc := Compute(raw, 14);
      PutU16(raw, 14, crc);
      assert raw[..14] == SbBody(dataTop);
      assert raw[..] == SbBytes(dataTop);
      CopyInto(eeprom, 0, raw[..]);
    }

    /** Erases every slot in turn. */
    method WipeTable()
      requires TableEnd(MAX_FILES) <= eeprom.Length
      modifies eeprom, `log
      ensures eeprom[..] == Splice(old(eeprom[..]), SB_SIZE, Fill(MAX_FILES * DESC_SIZE, ERASED))
      ensures log == old(log) + FormatWrites()[..MAX_FILES]
    {
      ghost var e, ws := eeprom[..], FormatWrites();
      for i := 0 to MAX_FILES
        invariant eeprom[..] == Splice(e, SB_SIZE, Fill(i * DESC_SIZE, ERASED))
        invariant log == old(log) + ws[..i]
      {
        CopyInto(eeprom, TableEnd(i), Fill(DESC_SIZE, ERASED));
        NextSlotErased(e, i);
        log := log + [FreeDesc(i)];
        assert ws[..i + 1] == ws[..i] + [FreeDesc(i)];
      }
    }

    method Format() returns (st: Status)
      requires Valid()
      modifies this, eeprom
      ensures Valid()
      ensures (st, Abs()) == FormatResult(old(Abs()))
      ensures log == old(log) + if st == Ok then FormatWrites() else []
    {
      hide FormatWrites, SbBytes, Table;
      if TableEnd(MAX_FILES) > eeprom.Length {
        return ErrNoSpace;
      }
      WipeTable();
      dataTop, version, maxFiles := 0, LAYOUT_VERSION, MAX_FILES;
      WriteSuperblock();
      log := log + [WriteSb(0)];
      assert FormatWrites() == FormatWrites()[..MAX_FILES] + [WriteSb(0)];
      mounted := true;
      return Ok;
    }

    method ReadDesc(index: u16) returns (r: Result<Desc>)
      requires Valid()
      ensures r == ReadSlot(Table(Abs()), index)
    {
      hide Crc;
      if !mounted {
        return Failure(ErrNotFormatted);
      }
      if index >= maxFiles {
        return Failure(ErrParam);
      }
      var raw := eeprom[TableEnd(index)..TableEnd(index + 1)];
      assert raw == SlotRaw(eeprom[..], index);
      if raw[2] == TYPE_FREE {
        return Failure(ErrNotFound);
      }
      if Num16(raw[18..20]) != Crc(raw[..18]) {
        return Failure(ErrCorrupt);
      }
      var d := DescFields(raw);
      if d.ftype != TYPE_MF && d.ftype != TYPE_DF && d.ftype != TYPE_EF {
        return Failure(ErrCorrupt);
      }
      if d.ftype == TYPE_EF && d.off + d.size > flash.Length {
        return Failure(ErrCorrupt);
      }
      return Success(d);
    }

    method SlotIsFree(index: u16) returns (r: bool)
      requires Valid()
      ensures r <==> index < |Table(Abs())| && Table(Abs())[index] == Free
    {
      hide Crc;
      if !mounted || index >= maxFiles {
        return false;
      }
      assert eeprom[TableEnd(index)..TableEnd(index + 1)] == SlotRaw(eeprom[..], index);
      return eeprom[TableEnd(index) + 2] == TYPE_FREE;
    }

    method FindFreeSlot() returns (slot: u16)
      requires Valid()
      ensures var t := Table(Abs());
              slot == if Found(t, FreeSlot) then First(t, FreeSlot, 0) else INVALID_INDEX
    {
      hide DecodeSlot;
      if !mounted {
        return INVALID_INDEX;
      }
      for i := 0 to maxFiles
        invariant First(Table(Abs()), FreeSlot, 0) == First(Table(Abs()), FreeSlot, i)
      {
        var isFree := SlotIsFree(i);
        if isFree {
          return i;
        }
      }
      return INVALID_INDEX;
    }

    method FillDescHead(buf: array<byte>, d: Desc)
      requires buf.Length == DESC_SIZE
      modifies buf
      ensures buf[..8] == Be16(d.fid) + [d.ftype, d.lc] + Be16(d.parent) + Be16(d.size)
      ensures forall i | 8 <= i < DESC_SIZE :: buf[i] == old(buf[i])
    {
      hide Be16, Num16;
      PutU16(buf, 0, d.fid);
      buf[2], buf[3] := d.ftype, d.lc;
      PutU16(buf, 4, d.parent);
      assert buf[..6] == Be16(d.fid) + [d.ftype, d.lc] + Be16(d.parent);
      PutU16(buf, 6, d.size);
    }

    method FillDescTail(buf: array<byte>, d: Desc)
      requires buf.Length == DESC_SIZE
      modifies buf
      ensures buf[8..16] == Be32(d.off) + [d.acRead, d.acUpdate, d.sfi, d.flags]
      ensures buf[..8] == old(buf[..8]) && forall i | 16 <= i < DESC_SIZE :: buf[i] == old(buf[i])
    {
      hide Be32, Num32;
      PutU32(buf, 8, d.off);
      buf[12], buf[13], buf[14], buf[15] := d.acRead, d.acUpdate, d.sfi, d.flags;
    }

    method FillDesc(buf: array<byte>, d: Desc)
      requires buf.Length == DESC_SIZE && buf[16] == 0 && buf[17] == 0
      modifies buf
      ensures buf[..18] == DescBody(d)
    {
      hide Be16, Be32, Num16, Num32;
      FillDescHead(buf, d);
      FillDescTail(buf, d);
      assert buf[..18] == buf[..8] + buf[8..16] + [buf[16], buf[17]];
    }

    method SerialiseDesc(d: Desc) returns (raw: seq<byte>)
      ensures raw == DescBytes(d)
    {
      hide Crc, DescBody, Be16;
      var buf := new byte[DESC_SIZE](_ => 0);
      FillDesc(buf, d);
      var crc := Compute(buf, 18);
      PutU16(buf, 18, crc);
      assert buf[..18] == DescBody(d);
      return buf[..];
    }

    method StoreDesc(index: u16, d: Desc) returns (st: Status)
      requires Valid()
      modifies eeprom, `log
      ensures Valid()
      ensures st == if !mounted then ErrNotFormatted
                    else if index >= maxFiles || d.ftype == TYPE_FREE then ErrParam
                    else Ok
      ensures st != Ok ==> Abs() == old(Abs()) && log == old(log)
      ensures st == Ok ==> Abs() == Exec(old(Abs()), WriteDesc(index, d)) && log == old(log) + [WriteDesc(index, d)]
    {
      hide DescBytes, DecodeSlot;
      if !mounted {
        return ErrNotFormatted;
      }
      if index >= maxFiles {
        return ErrParam;
      }
      if d.ftype == TYPE_FREE {
        return ErrParam;
      }
      var raw := SerialiseDesc(d);
      CopyInto(eeprom, TableEnd(index), raw);
      log := log + [WriteDesc(index, d)];
      return Ok;
    }

    method ReleaseDesc(index: u16) returns (st: Status)
      requires Valid()
      modifies eeprom, `log
      ensures Valid()
      ensures st == if !mounted then ErrNotFormatted else if index >= maxFiles then ErrParam else Ok
      ensures st != Ok ==> Abs() == old(Abs()) && log == old(log)
      ensures st == Ok ==> Abs() == Exec(old(Abs()), FreeDesc(index)) && log == old(log) + [FreeDesc(index)]
    {
      hide DescBytes, DecodeSlot;
      if !mounted {
        return ErrNotFormatted;
      }
      if index >= maxFiles {
        return ErrParam;
      }
      CopyInto(eeprom, TableEnd(index), Fill(DESC_SIZE, ERASED));
      log := log + [FreeDesc(index)];
      return Ok;
    }

    /** Bump allocation: the mirror first, then the superblock. */
    method AllocData(size: u16) returns (st: Status, off: u32)
      requires Valid()
      modifies this, eeprom
      ensures Valid()
      ensures st == if !old(mounted) then ErrNotFormatted
                    else if old(dataTop) + size > flash.Length then ErrNoSpace
                    else Ok
      ensures st != Ok ==> Abs() == old(Abs()) && log == old(log)
      ensures st == Ok ==> off == old(dataTop)
      ensures st == Ok ==> Abs() == Exec(old(Abs()), WriteSb(old(dataTop) + size))
      ensures st == Ok ==> log == old(log) + [WriteSb(old(dataTop) + size)]
    {
      hide SbBytes, DecodeSlot;
      if !mounted {
        return ErrNotFormatted, 0;
      }
      var end := dataTop + size;
      if end > flash.Length {
        return ErrNoSpace, 0;
      }
      off := dataTop;
      dataTop := end;
      WriteSuperblock();
      log := log + [WriteSb(end)];
      return Ok, off;
    }

    method ReadData(off: u32, len: u16) returns (r: Result<seq<byte>>)
      requires Valid()
      ensures r == if len == 0 then Success([])
                   else if !mounted then Failure(ErrNotFormatted)
                   else if off + len > flash.Length then Failure(ErrRange)
                   else Success(flash[off..off + len])
    {
      if len == 0 {
        return Success([]);
      }
      if !mounted {
        return Failure(ErrNotFormatted);
      }
      if off + len > flash.Length {
        return Failure(ErrRange);
      }
      return Success(flash[off..off + len]);
    }

    method StoreData(off: u32, src: seq<byte>) returns (st: Status)
      requires Valid()
      modifies flash, `log
      ensures Valid()
      ensures st == if |src| == 0 then Ok
                    else if !mounted then ErrNotFormatted
                    else if off + |src| > flash.Length then ErrRange
                    else Ok
      ensures st != Ok || |src| == 0 ==> Abs() == old(Abs()) && log == old(log)
      ensures st == Ok && |src| > 0 ==>
                && Abs() == Exec(old(Abs()), WriteData(off, src))
                && log == old(log) + [WriteData(off, src)]
    {
      hide DecodeSlot;
      if |src| == 0 {
        return Ok;
      }
      if !mounted {
        return ErrNotFormatted;
      }
      if off + |src| > flash.Length {
        return ErrRange;
      }
      CopyInto(flash, off, src);
      log := log + [WriteData(off, src)];
      return Ok;
    }
  }
}
