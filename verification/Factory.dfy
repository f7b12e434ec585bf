/** Mounting an existing chip, and personalising a blank one with the factory files. */
module Factory {
  import opened Bytes
  import opened FsTypes
  import opened NvmLayout
  import opened FsStore
  import opened FileTree
  import opened TreeInvariant
  import opened FileMap

  const MF: Desc := Desc(FID_MF, TYPE_MF, LC_ACTIVATED, NO_PARENT, 0, 0, 0, 0, NO_SFI, 0)

  datatype Entry = Entry(index: u16, fid: u16, ftype: byte, parent: u16, size: u16, sfi: byte)

  const LAYOUT: seq<Entry> := [
    Entry(1, 0x2F00, TYPE_EF, 0, 32, 1),
    Entry(2, 0x7F10, TYPE_DF, 0, 0, 0),
    Entry(3, 0x6F01, TYPE_EF, 2, 64, 1),
    Entry(4, 0x6F02, TYPE_EF, 2, 16, 2)
  ]

  function EntryDesc(e: Entry, off: u32): Desc {
    Desc(e.fid, e.ftype, LC_ACTIVATED, e.parent, e.size, off, 0, 0, e.sfi, 0)
  }

  // ----------------------------------------------------------- specification

  ghost function InstallOne(s: Store, e: Entry): (r: (Status, Store))
    requires Sound(s)
    ensures Sound(r.1)
  {
    if e.ftype != TYPE_EF then (Ok, ExecAll(s, [WriteDesc(e.index, EntryDesc(e, 0))]))
    else if s.sb.dataTop + e.size > |s.flash| then (ErrNoSpace, s)
    else (Ok, ExecAll(s, [WriteSb(s.sb.dataTop + e.size), WriteDesc(e.index, EntryDesc(e, s.sb.dataTop))]))
  }

  ghost function Install(s: Store, i: nat): (Status, Store)
    requires Sound(s) && i <= |LAYOUT|
    decreases |LAYOUT| - i
  {
    if i == |LAYOUT| then (Ok, s)
    else
      var (st, s') := InstallOne(s, LAYOUT[i]);
      if st != Ok then (st, s') else Install(s', i + 1)
  }

  ghost function PersonaliseResult(s: Store): (Status, Store)
    requires |s.eeprom| < 0x1_0000_0000 && |s.flash| < 0x1_0000_0000
  {
    var (st, f) := FormatResult(s);
    if st != Ok then (st, f)
    else
      FormatTable(s);
      Install(ExecAll(f, [WriteDesc(0, MF)]), 0)
  }

  /** The MF is readable at slot 0 of a mounted image. */
  ghost function CheckRoot(t: seq<Slot>): Status {
    match ReadSlot(t, ROOT)
    case Failure(e) => if e == ErrNotFound then ErrCorrupt else e
    case Success(d) => if d.ftype != TYPE_MF || d.fid != FID_MF then ErrCorrupt else Ok
  }

  ghost function InitResult(s: Store): (Status, Store)
    requires |s.eeprom| < 0x1_0000_0000 && |s.flash| < 0x1_0000_0000
  {
    match MountResult(s.eeprom, |s.flash|)
    case Success(sb) => (CheckRoot(Table(s.(sb := sb))), s.(sb := sb))
    case Failure(e) =>
      var unmounted := s.(sb := s.sb.(mounted := false));
      if e == ErrNotFormatted then PersonaliseResult(unmounted) else (e, unmounted)
  }

  /** The NVM writes that install one entry at the given bump pointer. */
  function EntryWrites(top: nat, e: Entry): seq<Write>
    requires e.ftype == TYPE_EF ==> top + e.size < 0x1_0000_0000
  {
    if e.ftype == TYPE_EF then [WriteSb(top + e.size), WriteDesc(e.index, EntryDesc(e, top))]
    else [WriteDesc(e.index, EntryDesc(e, 0))]
  }

  function TopWith(top: nat, e: Entry): nat {
    if e.ftype == TYPE_EF then top + e.size else top
  }

  /** The writes of the entries from i on, as far as the data space lasts. */
  function InstallLog(top: nat, flashSize: nat, i: nat): seq<Write>
    requires i <= |LAYOUT| && flashSize < 0x1_0000_0000
    decreases |LAYOUT| - i
  {
    if i == |LAYOUT| || (LAYOUT[i].ftype == TYPE_EF && top + LAYOUT[i].size > flashSize) then []
    else EntryWrites(top, LAYOUT[i]) + InstallLog(TopWith(top, LAYOUT[i]), flashSize, i + 1)
  }

  /** All writes of a personalisation, in order. */
  ghost function PersonaliseLog(s: Store): seq<Write>
    requires |s.flash| < 0x1_0000_0000
  {
    if TableEnd(MAX_FILES) > |s.eeprom| then []
    else FormatWrites() + ([WriteDesc(0, MF)] + InstallLog(0, |s.flash|, 0))
  }

  ghost function InitLog(s: Store): seq<Write>
    requires |s.flash| < 0x1_0000_0000
  {
    if MountResult(s.eeprom, |s.flash|) == Failure(ErrNotFormatted) then PersonaliseLog(s) else []
  }

  // ---------------------------------------------------------- implementation

  method InstallFile(n: Nvm, e: Entry) returns (st: Status)
    requires n.Valid() && n.mounted && e.index < n.maxFiles && e.ftype != TYPE_FREE
    modifies n, n.eeprom
    ensures n.Valid() && (st, n.Abs()) == InstallOne(old(n.Abs()), e)
    ensures n.mounted && n.maxFiles == old(n.maxFiles)
    ensures st == if e.ftype == TYPE_EF && old(n.dataTop) + e.size > n.flash.Length then ErrNoSpace else Ok
    ensures st != Ok ==> n.log == old(n.log)
    ensures st == Ok ==> n.log == old(n.log) + EntryWrites(old(n.dataTop), e) && n.dataTop == TopWith(old(n.dataTop), e)
  {
    hide DecodeSlot, Exec, Table;
    ghost var s := n.Abs();
    var off: u32 := 0;
    if e.ftype == TYPE_EF {
      st, off := n.AllocData(e.size);
      if st != Ok {
        return;
      }
    }
    var d := EntryDesc(e, off);
    st := n.StoreDesc(e.index, d);
    if e.ftype == TYPE_EF {
      ExecTwo(s, WriteSb(off + e.size), WriteDesc(e.index, d));
    } else {
      ExecOne(s, WriteDesc(e.index, d));
    }
  }

  lemma InstallStep(s: Store, i: nat)
    requires Sound(s) && i < |LAYOUT|
    ensures var (st, s') := InstallOne(s, LAYOUT[i]);
            Install(s, i) == if st != Ok then (st, s') else Install(s', i + 1)
  {
    hide InstallOne;
  }

  lemma LogStep(done: seq<Write>, top: nat, flashSize: nat, i: nat)
    requires i < |LAYOUT| && flashSize < 0x1_0000_0000
    ensures var e := LAYOUT[i];
            if e.ftype == TYPE_EF && top + e.size > flashSize then InstallLog(top, flashSize, i) == []
            else done + InstallLog(top, flashSize, i)
                 == done + EntryWrites(top, e) + InstallLog(TopWith(top, e), flashSize, i + 1)
  {
    hide EntryWrites;
  }

  method InstallFiles(n: Nvm) returns (st: Status)
    requires n.Valid() && n.mounted && n.maxFiles == MAX_FILES
    modifies n, n.eeprom
    ensures n.Valid() && (st, n.Abs()) == Install(old(n.Abs()), 0)
    ensures n.log == old(n.log) + InstallLog(old(n.dataTop), n.flash.Length, 0)
  {
    hide DecodeSlot, Install, InstallOne, InstallLog, Exec, EntryWrites, TopWith, Table;
    ghost var s, all := n.Abs(), InstallLog(n.dataTop, n.flash.Length, 0);
    for i := 0 to |LAYOUT|
      invariant n.Valid() && n.mounted && n.maxFiles == MAX_FILES && n.flash.Length < 0x1_0000_0000
      invariant Install(s, 0) == Install(n.Abs(), i)
      invariant n.log + InstallLog(n.dataTop, n.flash.Length, i) == old(n.log) + all
    {
      assert LAYOUT[i].index < MAX_FILES && LAYOUT[i].ftype != TYPE_FREE;
      InstallStep(n.Abs(), i);
      LogStep(n.log, n.dataTop, n.flash.Length, i);
      st := InstallFile(n, LAYOUT[i]);
      if st != Ok {
        return;
      }
    }
    InstallEnd(n.Abs());
    return Ok;
  }

  lemma InstallEnd(s: Store)
    requires Sound(s)
    ensures Install(s, |LAYOUT|) == (Ok, s) && InstallLog(s.sb.dataTop, |s.flash|, |LAYOUT|) == []
  {}

  lemma FormatOutcome(s: Store)
    ensures FormatResult(s).0 == Ok <==> TableEnd(MAX_FILES) <= |s.eeprom|
    ensures FormatResult(s).0 == Ok ==> FormatResult(s).1.sb == Sb(true, LAYOUT_VERSION, MAX_FILES, 0)
    ensures FormatResult(s).1.flash == s.flash
  {}

  /** The MF and then the files, on a chip that was just formatted. */
  method BuildTree(n: Nvm) returns (st: Status)
    requires n.Valid() && n.mounted && n.maxFiles == MAX_FILES
    modifies n, n.eeprom
    ensures n.Valid() && (st, n.Abs()) == Install(ExecAll(old(n.Abs()), [WriteDesc(0, MF)]), 0)
    ensures n.log == old(n.log) + ([WriteDesc(0, MF)] + InstallLog(old(n.dataTop), n.flash.Length, 0))
  {
    hide DecodeSlot, Install, Exec, ExecAll, InstallLog, Table;
    ExecOne(n.Abs(), WriteDesc(0, MF));
    st := n.StoreDesc(0, MF);
    st := InstallFiles(n);
  }

  lemma PersonalisedIs(s: Store)
    requires |s.eeprom| < 0x1_0000_0000 && |s.flash| < 0x1_0000_0000
    ensures var (st, f) := FormatResult(s);
            if st != Ok then PersonaliseResult(s) == (st, f) && PersonaliseLog(s) == []
            else && Sound(f) && f.sb.mounted && f.sb.maxFiles == MAX_FILES && f.sb.dataTop == 0
                 && PersonaliseResult(s) == Install(ExecAll(f, [WriteDesc(0, MF)]), 0)
                 && PersonaliseLog(s) == FormatWrites() + ([WriteDesc(0, MF)] + InstallLog(0, |s.flash|, 0))
  {
    hide Install, ExecAll, InstallLog, FormatWrites, FormatResult, Table;
    FormatOutcome(s);
    if FormatResult(s).0 == Ok {
      FormatTable(s);
    }
  }

  method Personalise(n: Nvm) returns (st: Status)
    requires n.Valid()
    modifies n, n.eeprom
    ensures n.Valid() && (st, n.Abs()) == PersonaliseResult(old(n.Abs()))
    ensures n.log == old(n.log) + PersonaliseLog(old(n.Abs()))
  {
    hide Install, ExecAll, InstallLog, FormatWrites, Table, FormatResult, PersonaliseResult, PersonaliseLog;
    PersonalisedIs(n.Abs());
    st := n.Format();
    if st == Ok {
      st := BuildTree(n);
    }
  }

  method Init(n: Nvm) returns (st: Status)
    requires n.Valid()
    modifies n, n.eeprom
    ensures n.Valid() && (st, n.Abs()) == InitResult(old(n.Abs()))
    ensures n.log == old(n.log) + InitLog(old(n.Abs()))
  {
    hide DecodeSlot, MountRaw, PersonaliseResult, InstallLog, FormatWrites;
    st := n.Mount();
    if st == Ok {
      var mf := n.ReadDesc(ROOT);
      if mf.Failure? {
        return if mf.error == ErrNotFound then ErrCorrupt else mf.error;
      }
      if mf.value.ftype != TYPE_MF || mf.value.fid != FID_MF {
        return ErrCorrupt;
      }
      return Ok;
    }
    if st == ErrNotFormatted {
      st := Personalise(n);
    }
  }

  // --------------------------------------------------------- the factory card

  ghost function DiskInstall(k: Disk, e: Entry): Disk
    requires e.index < |k.table| && k.top + e.size < 0x1_0000_0000
  {
    if e.ftype != TYPE_EF then k.(table := k.table[e.index := Live(EntryDesc(e, 0))])
    else Disk(k.table[e.index := Live(EntryDesc(e, k.top))], k.top + e.size, k.flash)
  }

  lemma InstallView(s: Store, e: Entry)
    requires Sound(s) && s.sb.mounted && e.index < s.sb.maxFiles
    requires e.ftype == TYPE_DF || e.ftype == TYPE_EF
    requires s.sb.dataTop + e.size <= |s.flash|
    ensures InstallOne(s, e).0 == Ok && View(InstallOne(s, e).1) == DiskInstall(View(s), e)
  {
    hide DecodeSlot, Exec, ExecAll, Table;
    var k := View(s);
    if e.ftype == TYPE_EF {
      var v, w := WriteSb(s.sb.dataTop + e.size), WriteDesc(e.index, EntryDesc(e, s.sb.dataTop));
      ViewExecAll(s, [v, w]);
      DiskTwo(k, v, w);
    } else {
      var w := WriteDesc(e.index, EntryDesc(e, 0));
      ViewExecAll(s, [w]);
      DiskOne(k, w);
    }
  }

  lemma EntryCreatable(k: Disk, e: Entry)
    requires Good(k) && e.index < |k.table| && k.table[e.index].Free?
    requires k.top + e.size <= |k.flash|
    requires IsFile(k.table, Live(EntryDesc(e, k.top)))
    requires forall j | 0 <= j < |k.table| :: !Clash(k.table[j], Live(EntryDesc(e, k.top)))
    ensures Creatable(k.table, e.index, EntryDesc(e, if e.ftype == TYPE_EF then k.top else 0), |k.flash|)
  {
    hide Extents, AllRooted, ErasedFrom;
    var d := EntryDesc(e, if e.ftype == TYPE_EF then k.top else 0);
    assert IsFile(k.table, Live(d));
    assert forall j | 0 <= j < |k.table| ::
        Clash(k.table[j], Live(d)) <==> Clash(k.table[j], Live(EntryDesc(e, k.top)));
  }

  lemma InstallGood(k: Disk, e: Entry)
    requires Good(k) && e.index < |k.table| && k.table[e.index].Free?
    requires k.top + e.size <= |k.flash|
    requires IsFile(k.table, Live(EntryDesc(e, k.top)))
    requires forall j | 0 <= j < |k.table| :: !Clash(k.table[j], Live(EntryDesc(e, k.top)))
    ensures Good(DiskInstall(k, e))
    ensures Files(DiskInstall(k, e)) == Files(k)[e.index := File(EntryDesc(e, if e.ftype == TYPE_EF then k.top else 0),
                                                                Fill(e.size, ERASED))]
  {
    hide Tree, Clash, Files;
    EntryCreatable(k, e);
    var d := EntryDesc(e, if e.ftype == TYPE_EF then k.top else 0);
    if e.ftype == TYPE_EF {
      RaiseTop(k, k.top + e.size);
      AddFile(k.(top := k.top + e.size), e.index, d, k.top);
    } else {
      AddFile(k, e.index, d, k.top);
    }
  }

  /** A formatted chip that holds only the MF. */
  ghost function RootDisk(flash: seq<byte>): Disk {
    Disk(AllFree(MAX_FILES)[0 := Live(MF)], 0, flash)
  }

  lemma RootGood(flash: seq<byte>)
    requires |flash| < 0x1_0000_0000 && ErasedFrom(flash, 0)
    ensures Good(RootDisk(flash)) && Files(RootDisk(flash)) == map[0 := File(MF, [])]
  {
    var t := RootDisk(flash).table;
    assert Reaches(t, 0, 0);
    assert Tree(t);
  }

  ghost function FactoryDisk(flash: seq<byte>): Disk {
    DiskInstall(DiskInstall(DiskInstall(DiskInstall(RootDisk(flash), LAYOUT[0]), LAYOUT[1]), LAYOUT[2]), LAYOUT[3])
  }

  /** The five factory files, all contents erased. */
  const FactoryFiles: map<nat, File> := map[
    0 := File(Desc(0x3F00, 0x01, 0x05, 0xFFFF, 0, 0, 0, 0, 0, 0), []),
    1 := File(Desc(0x2F00, 0x03, 0x05, 0, 32, 0, 0, 0, 1, 0), Fill(32, ERASED)),
    2 := File(Desc(0x7F10, 0x02, 0x05, 0, 0, 0, 0, 0, 0, 0), []),
    3 := File(Desc(0x6F01, 0x03, 0x05, 2, 64, 32, 0, 0, 1, 0), Fill(64, ERASED)),
    4 := File(Desc(0x6F02, 0x03, 0x05, 2, 16, 96, 0, 0, 2, 0), Fill(16, ERASED))
  ]

  lemma FactoryGood(flash: seq<byte>)
    requires 112 <= |flash| < 0x1_0000_0000 && ErasedFrom(flash, 0)
    ensures Good(FactoryDisk(flash)) && Files(FactoryDisk(flash)) == FactoryFiles
    ensures SelectionFits(FactoryDisk(flash).table, Reset)
  {
    hide Good, Files;
    var k0 := RootDisk(flash);
    RootGood(flash);
    InstallGood(k0, LAYOUT[0]);
    var k1 := DiskInstall(k0, LAYOUT[0]);
    InstallGood(k1, LAYOUT[1]);
    var k2 := DiskInstall(k1, LAYOUT[1]);
    InstallGood(k2, LAYOUT[2]);
    var k3 := DiskInstall(k2, LAYOUT[2]);
    InstallGood(k3, LAYOUT[3]);
    assert Fill(0, ERASED) == [];
  }

  lemma RootTop(s: Store)
    requires Sound(s) && View(s) == RootDisk(s.flash)
    ensures s.sb.dataTop == 0
  {}

  lemma InstallAll(s: Store)
    requires Sound(s) && s.sb.mounted && s.sb.maxFiles == MAX_FILES && Mirrored(s)
    requires View(s) == RootDisk(s.flash) && 112 <= |s.flash|
    ensures Install(s, 0).0 == Ok
    ensures var r := Install(s, 0).1;
            && Sound(r) && r.sb.mounted && r.sb.maxFiles == MAX_FILES && Mirrored(r)
            && View(r) == FactoryDisk(s.flash)
  {
    hide View, InstallOne, Mirrored, DiskInstall, Sound, RootDisk;
    RootTop(s);
    var s1 := Installed(s, LAYOUT[0]);
    var s2 := Installed(s1, LAYOUT[1]);
    var s3 := Installed(s2, LAYOUT[2]);
    var s4 := Installed(s3, LAYOUT[3]);
    assert Install(s3, 3) == (Ok, s4);
    assert Install(s2, 2) == (Ok, s4);
    assert Install(s1, 1) == (Ok, s4);
  }

  lemma Installed(s: Store, e: Entry) returns (r: Store)
    requires Sound(s) && s.sb.mounted && s.sb.maxFiles == MAX_FILES && Mirrored(s)
    requires e.index < MAX_FILES && ((e.ftype == TYPE_DF && e.size == 0) || e.ftype == TYPE_EF)
    requires s.sb.dataTop + e.size <= |s.flash|
    ensures InstallOne(s, e) == (Ok, r)
    ensures Sound(r) && r.sb.mounted && r.sb.maxFiles == MAX_FILES && Mirrored(r)
    ensures |r.flash| == |s.flash| && r.sb.dataTop == s.sb.dataTop + e.size
    ensures View(r) == DiskInstall(View(s), e)
  {
    hide Table, Exec, ExecAll, MountResult, InstallOne, DiskInstall;
    InstallView(s, e);
    InstallWrites(s, e);
    r := InstallOne(s, e).1;
    MirrorKeptAll(s, EntryWrites(s.sb.dataTop, e));
    InstallTop(View(s), e);
  }

  lemma InstallWrites(s: Store, e: Entry)
    requires Sound(s) && s.sb.dataTop + e.size <= |s.flash|
    ensures InstallOne(s, e) == (Ok, ExecAll(s, EntryWrites(s.sb.dataTop, e)))
  {
    hide ExecAll, EntryDesc;
  }

  lemma InstallTop(k: Disk, e: Entry)
    requires e.index < |k.table| && k.top + e.size < 0x1_0000_0000 && (e.ftype != TYPE_EF ==> e.size == 0)
    ensures DiskInstall(k, e).top == k.top + e.size && DiskInstall(k, e).flash == k.flash
  {}

  lemma RootView(s: Store)
    requires |s.eeprom| < 0x1_0000_0000 && |s.flash| < 0x1_0000_0000 && TableEnd(MAX_FILES) <= |s.eeprom|
    ensures var f := FormatResult(s).1;
            && Sound(f)
            && var r := ExecAll(f, [WriteDesc(0, MF)]);
            && r.sb.mounted && r.sb.maxFiles == MAX_FILES && Mirrored(r) && r.flash == s.flash
            && View(r) == RootDisk(s.flash)
  {
    FormatTable(s);
    var f := FormatResult(s).1;
    hide FormatResult, Table, Exec, MountResult;
    ViewExecAll(f, [WriteDesc(0, MF)]);
    DiskOne(View(f), WriteDesc(0, MF));
    MirrorKeptAll(f, [WriteDesc(0, MF)]);
  }

  /**
    A chip without the magic bytes, large enough and with blank data flash,
    comes up as the factory card: invariant, mirror and selection included.
   */
  lemma BlankChipBecomesFactoryCard(s: Store)
    requires TableEnd(MAX_FILES) <= |s.eeprom| < 0x1_0000_0000
    requires 112 <= |s.flash| < 0x1_0000_0000 && ErasedFrom(s.flash, 0)
    requires s.eeprom[..4] != MAGIC
    ensures InitResult(s).0 == Ok
    ensures var r := InitResult(s).1;
            && Sound(r) && Mirrored(r) && r.sb.maxFiles == MAX_FILES && r.flash == s.flash
            && r.sb.dataTop == 112
            && Good(View(r)) && Files(View(r)) == FactoryFiles && SelectionFits(Table(r), Reset)
  {
    assert s.eeprom[..SB_SIZE][..4] == s.eeprom[..4];
    var u := s.(sb := s.sb.(mounted := false));
    assert InitResult(s) == PersonaliseResult(u);
    RootView(u);
    var root := ExecAll(FormatResult(u).1, [WriteDesc(0, MF)]);
    assert PersonaliseResult(u) == Install(root, 0);
    hide InitResult, PersonaliseResult, FormatResult, Good, Files, Mirrored, SelectionFits, Install;
    InstallAll(root);
    FactoryGood(s.flash);
    FactoryFlash(s.flash);
  }

  lemma FactoryFlash(flash: seq<byte>)
    ensures FactoryDisk(flash).flash == flash && FactoryDisk(flash).top == 112
  {}

  /** Bringing a card up never writes to a chip that carries the magic bytes. */
  lemma InitPreservesFormattedChips(s: Store)
    requires |s.eeprom| < 0x1_0000_0000 && |s.flash| < 0x1_0000_0000
    requires |s.eeprom| >= SB_SIZE && s.eeprom[..4] == MAGIC
    ensures InitResult(s).1.eeprom == s.eeprom && InitResult(s).1.flash == s.flash
  {
    hide MountRaw, PersonaliseResult, Table;
    assert s.eeprom[..SB_SIZE][..4] == s.eeprom[..4];
  }
}
