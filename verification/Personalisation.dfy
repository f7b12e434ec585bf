/**
  A power cut while a blank chip is being personalised. Up to the superblock
  a retry starts cleanly; right after it the card is lost; and once the MF is
  there the card comes up with as many of its files as were written.
 */
module Personalisation {
  import opened Bytes
  import opened FsTypes
  import opened NvmLayout
  import opened FsStore
  import opened TreeInvariant
  import opened FileMap
  import opened Factory
  import opened CardMachine
  import opened CardRuns

  // ---------------------------------------------------------- writes as bytes

  /** What one write does to the memories, whatever the mirror says. */
  ghost function Stored(s: Store, w: Write): (r: Store)
    requires TableEnd(MAX_FILES) <= |s.eeprom|
    ensures |r.eeprom| == |s.eeprom| && |r.flash| == |s.flash| && r.sb == s.sb
  {
    match w
    case WriteSb(top) => s.(eeprom := Splice(s.eeprom, 0, SbBytes(top)))
    case WriteDesc(i, d) => if i < MAX_FILES then s.(eeprom := Splice(s.eeprom, TableEnd(i), DescBytes(d))) else s
    case FreeDesc(i) =>
      if i < MAX_FILES then s.(eeprom := Splice(s.eeprom, TableEnd(i), Fill(DESC_SIZE, ERASED))) else s
    case WriteData(off, data) => if off + |data| <= |s.flash| then s.(flash := Splice(s.flash, off, data)) else s
  }

  ghost function AllStored(s: Store, ws: seq<Write>): (r: Store)
    requires TableEnd(MAX_FILES) <= |s.eeprom|
    ensures |r.eeprom| == |s.eeprom| && |r.flash| == |s.flash| && r.sb == s.sb
    decreases |ws|
  {
    if ws == [] then s else Stored(AllStored(s, ws[..|ws| - 1]), ws[|ws| - 1])
  }

  lemma {:induction false} StoredAppend(s: Store, vs: seq<Write>, ws: seq<Write>)
    requires TableEnd(MAX_FILES) <= |s.eeprom|
    ensures AllStored(s, vs + ws) == AllStored(AllStored(s, vs), ws)
    decreases |ws|
  {
    if ws == [] {
      assert vs + ws == vs;
    } else {
      StoredAppend(s, vs, ws[..|ws| - 1]);
      assert (vs + ws)[..|vs + ws| - 1] == vs + ws[..|ws| - 1];
    }
  }

  // ------------------------------------------------------- inside the format

  lemma {:induction false} WipedSlots(s: Store, n: nat)
    requires TableEnd(MAX_FILES) <= |s.eeprom| && n <= MAX_FILES
    ensures AllStored(s, FormatWrites()[..n]) == s.(eeprom := Splice(s.eeprom, SB_SIZE, Fill(n * DESC_SIZE, ERASED)))
  {
    hide FormatWrites;
    if n == 0 {
      assert FormatWrites()[..0] == [];
      assert Splice(s.eeprom, SB_SIZE, Fill(0, ERASED)) == s.eeprom;
    } else {
      var ws := FormatWrites()[..n];
      WipedSlots(s, n - 1);
      assert ws[..n - 1] == FormatWrites()[..n - 1] && ws[n - 1] == FreeDesc(n - 1);
      NextSlotErased(s.eeprom, n - 1);
    }
  }

  lemma WipedTwice(m: seq<byte>, n: nat)
    requires TableEnd(MAX_FILES) <= |m| && n <= MAX_FILES
    ensures var w := Splice(m, SB_SIZE, Fill(n * DESC_SIZE, ERASED));
            && w[..4] == m[..4]
            && Splice(w, SB_SIZE, Fill(MAX_FILES * DESC_SIZE, ERASED))
               == Splice(m, SB_SIZE, Fill(MAX_FILES * DESC_SIZE, ERASED))
  {}

  lemma NotFormatted(s: Store)
    requires TableEnd(MAX_FILES) <= |s.eeprom| && s.eeprom[..4] != MAGIC
    ensures MountResult(s.eeprom, |s.flash|) == Failure(ErrNotFormatted)
  {
    assert s.eeprom[..SB_SIZE][..4] == s.eeprom[..4];
  }

  /** Formatting a chip whose table is already partly erased is formatting it. */
  lemma SameFormat(s: Store, n: nat)
    requires TableEnd(MAX_FILES) <= |s.eeprom| < 0x1_0000_0000 && |s.flash| < 0x1_0000_0000 && n <= MAX_FILES
    requires s.eeprom[..4] != MAGIC
    ensures PowerUp(s.(eeprom := Splice(s.eeprom, SB_SIZE, Fill(n * DESC_SIZE, ERASED)))) == PowerUp(s)
  {
    hide MountResult, SbBytes, Install, ExecAll;
    var w := s.(eeprom := Splice(s.eeprom, SB_SIZE, Fill(n * DESC_SIZE, ERASED)));
    WipedTwice(s.eeprom, n);
    NotFormatted(s);
    NotFormatted(w);
    var a, b := s.(sb := s.sb.(mounted := false)), w.(sb := w.sb.(mounted := false));
    assert FormatResult(a) == FormatResult(b);
    assert PersonaliseResult(a) == PersonaliseResult(b);
  }

  /**
    A format cut before the superblock write leaves a chip that still reads as
    unformatted, and the next power-up gives exactly the card that an
    undisturbed one would have given.
   */
  lemma CutFormatStartsCleanly(s: Store, n: nat)
    requires TableEnd(MAX_FILES) <= |s.eeprom| < 0x1_0000_0000 && |s.flash| < 0x1_0000_0000 && n <= MAX_FILES
    requires s.eeprom[..4] != MAGIC
    ensures var chip := AllStored(s, PersonaliseLog(s)[..n]);
            && chip.flash == s.flash && |chip.eeprom| == |s.eeprom| && chip.eeprom[..4] == s.eeprom[..4]
            && PowerUp(chip) == PowerUp(s)
  {
    hide PowerUp, AllStored, InstallLog, FormatWrites;
    assert PersonaliseLog(s)[..n] == FormatWrites()[..n];
    WipedSlots(s, n);
    WipedTwice(s.eeprom, n);
    SameFormat(s, n);
  }

  // ------------------------------------------------------ after the superblock

  lemma FormatStored(s: Store)
    requires TableEnd(MAX_FILES) <= |s.eeprom|
    ensures AllStored(s, FormatWrites()) == FormatResult(s).1.(sb := s.sb)
  {
    hide SbBytes, FormatWrites;
    WipedSlots(s, MAX_FILES);
    assert FormatWrites()[..|FormatWrites()| - 1] == FormatWrites()[..MAX_FILES];
  }

  /** Mounting does not look at the old mirror. */
  lemma MirrorIrrelevant(s: Store, sb: Sb)
    requires |s.eeprom| < 0x1_0000_0000 && |s.flash| < 0x1_0000_0000
    requires MountResult(s.eeprom, |s.flash|).Success?
    ensures PowerUp(s.(sb := sb)) == PowerUp(s)
  {
    hide MountRaw, Table;
  }

  /** The MF and the files, one write at a time. */
  ghost function TreeWrites(size: nat): seq<Write>
    requires size < 0x1_0000_0000
  {
    [WriteDesc(0, MF)] + InstallLog(0, size, 0)
  }

  lemma TreeWritesAre(size: nat)
    requires 112 <= size < 0x1_0000_0000
    ensures TreeWrites(size) == [
      WriteDesc(0, MF),
      WriteSb(32), WriteDesc(1, EntryDesc(LAYOUT[0], 0)),
      WriteDesc(2, EntryDesc(LAYOUT[1], 0)),
      WriteSb(96), WriteDesc(3, EntryDesc(LAYOUT[2], 32)),
      WriteSb(112), WriteDesc(4, EntryDesc(LAYOUT[3], 96))]
  {
    assert InstallLog(112, size, 4) == [];
    assert InstallLog(96, size, 3) == EntryWrites(96, LAYOUT[3]) + [];
    assert InstallLog(32, size, 2) == EntryWrites(32, LAYOUT[2]) + InstallLog(96, size, 3);
    assert InstallLog(32, size, 1) == EntryWrites(32, LAYOUT[1]) + InstallLog(32, size, 2);
    assert InstallLog(0, size, 0) == EntryWrites(0, LAYOUT[0]) + InstallLog(32, size, 1);
  }

  /** The disk once j entries of the layout are complete. */
  ghost function Complete(flash: seq<byte>, j: nat): (k: Disk)
    requires j <= |LAYOUT|
    ensures |k.table| == MAX_FILES && k.flash == flash
    ensures k.top == [0, 32, 32, 96, 112][j]
  {
    if j == 0 then RootDisk(flash) else DiskInstall(Complete(flash, j - 1), LAYOUT[j - 1])
  }

  /** The disk after m of the eight writes: an entry of an EF is two of them. */
  ghost function Partial(flash: seq<byte>, m: nat): Disk
    requires m <= 8
  {
    if m == 0 then Disk(AllFree(MAX_FILES), 0, flash)
    else if m == 1 then Complete(flash, 0)
    else if m == 2 then Complete(flash, 0).(top := 32)
    else if m == 3 then Complete(flash, 1)
    else if m == 4 then Complete(flash, 2)
    else if m == 5 then Complete(flash, 2).(top := 96)
    else if m == 6 then Complete(flash, 3)
    else if m == 7 then Complete(flash, 3).(top := 112)
    else Complete(flash, 4)
  }

  /** How many files are in place after m of the eight writes. */
  function FileCount(m: nat): nat {
    if m == 0 then 0 else if m <= 2 then 1 else if m == 3 then 2 else if m <= 5 then 3 else if m <= 7 then 4 else 5
  }

  ghost function FirstFiles(c: nat): map<nat, File> {
    map i | i in FactoryFiles && i < c :: FactoryFiles[i]
  }

  lemma PartialStep(flash: seq<byte>, m: nat)
    requires m < 8 && 112 <= |flash| < 0x1_0000_0000
    ensures |TreeWrites(|flash|)| == 8
    ensures DiskFits(Partial(flash, m), TreeWrites(|flash|)[m])
    ensures DiskExec(Partial(flash, m), TreeWrites(|flash|)[m]) == Partial(flash, m + 1)
  {
    hide TreeWrites, AllFree;
    TreeWritesAre(|flash|);
    assert Complete(flash, 0) == RootDisk(flash);
    assert Complete(flash, 1) == DiskInstall(Complete(flash, 0), LAYOUT[0]);
    assert Complete(flash, 2) == DiskInstall(Complete(flash, 1), LAYOUT[1]);
    assert Complete(flash, 3) == DiskInstall(Complete(flash, 2), LAYOUT[2]);
    assert Complete(flash, 4) == DiskInstall(Complete(flash, 3), LAYOUT[3]);
  }

  lemma CompleteGood(flash: seq<byte>)
    requires 112 <= |flash| < 0x1_0000_0000 && ErasedFrom(flash, 0)
    ensures Good(Complete(flash, 0)) && Files(Complete(flash, 0)) == map[0 := FactoryFiles[0]]
    ensures Good(Complete(flash, 1)) && Files(Complete(flash, 1)) == Files(Complete(flash, 0))[1 := FactoryFiles[1]]
    ensures Good(Complete(flash, 2)) && Files(Complete(flash, 2)) == Files(Complete(flash, 1))[2 := FactoryFiles[2]]
    ensures Good(Complete(flash, 3)) && Files(Complete(flash, 3)) == Files(Complete(flash, 2))[3 := FactoryFiles[3]]
    ensures Good(Complete(flash, 4)) && Files(Complete(flash, 4)) == Files(Complete(flash, 3))[4 := FactoryFiles[4]]
  {
    hide Good, Files;
    RootGood(flash);
    CompletesAre(flash);
    var k0 := RootDisk(flash);
    InstallGood(k0, LAYOUT[0]);
    var k1 := DiskInstall(k0, LAYOUT[0]);
    InstallGood(k1, LAYOUT[1]);
    var k2 := DiskInstall(k1, LAYOUT[1]);
    InstallGood(k2, LAYOUT[2]);
    var k3 := DiskInstall(k2, LAYOUT[2]);
    InstallGood(k3, LAYOUT[3]);
    assert Fill(0, ERASED) == [];
  }

  lemma CompletesAre(flash: seq<byte>)
    ensures Complete(flash, 0) == RootDisk(flash)
    ensures Complete(flash, 1) == DiskInstall(RootDisk(flash), LAYOUT[0])
    ensures Complete(flash, 2) == DiskInstall(Complete(flash, 1), LAYOUT[1])
    ensures Complete(flash, 3) == DiskInstall(Complete(flash, 2), LAYOUT[2])
    ensures Complete(flash, 4) == DiskInstall(Complete(flash, 3), LAYOUT[3])
  {
    hide RootDisk, DiskInstall;
  }

  lemma FileCounts()
    ensures FirstFiles(1) == map[0 := FactoryFiles[0]]
    ensures FirstFiles(2) == FirstFiles(1)[1 := FactoryFiles[1]]
    ensures FirstFiles(3) == FirstFiles(2)[2 := FactoryFiles[2]]
    ensures FirstFiles(4) == FirstFiles(3)[3 := FactoryFiles[3]]
    ensures FirstFiles(5) == FirstFiles(4)[4 := FactoryFiles[4]] == FactoryFiles
  {}

  lemma PartialGood(flash: seq<byte>, m: nat)
    requires 112 <= |flash| < 0x1_0000_0000 && ErasedFrom(flash, 0) && 1 <= m <= 8
    ensures Good(Partial(flash, m)) && Files(Partial(flash, m)) == FirstFiles(FileCount(m))
  {
    hide Good, Files, Complete, FirstFiles;
    CompleteGood(flash);
    FileCounts();
    RaiseTop(Complete(flash, 0), 32);
    RaiseTop(Complete(flash, 2), 96);
    RaiseTop(Complete(flash, 3), 112);
  }

  // --------------------------------------------- mounted writes and raw stores

  lemma ExecIsStored(s: Store, raw: Store, w: Write)
    requires Sound(s) && s.sb.mounted && s.sb.maxFiles == MAX_FILES && Fits(s, w)
    requires raw.eeprom == s.eeprom && raw.flash == s.flash
    ensures TableEnd(MAX_FILES) <= |s.eeprom|
    ensures Stored(raw, w).eeprom == Exec(s, w).eeprom && Stored(raw, w).flash == Exec(s, w).flash
  {
    hide SbBytes, DescBytes;
  }

  /** A formatted chip f after m of the eight writes, seen through the mirror and in the raw memories. */
  lemma {:induction false} TreeBuilt(f: Store, raw: Store, m: nat) returns (r: Store)
    requires Sound(f) && Mirrored(f) && f.sb.maxFiles == MAX_FILES && View(f) == Partial(f.flash, 0)
    requires 112 <= |f.flash| && raw.eeprom == f.eeprom && raw.flash == f.flash && m <= 8
    ensures |TreeWrites(|f.flash|)| == 8 && TableEnd(MAX_FILES) <= |raw.eeprom|
    ensures Sound(r) && Mirrored(r) && r.sb.maxFiles == MAX_FILES && r.flash == f.flash
    ensures View(r) == Partial(f.flash, m)
    ensures AllStored(raw, TreeWrites(|f.flash|)[..m]) == r.(sb := raw.sb)
    decreases m
  {
    hide View, Mirrored, Partial, Fits, DiskFits, Stored, Exec, TreeWrites;
    MountedOf(f);
    PartialStep(f.flash, if m > 0 then m - 1 else 0);
    var ws := TreeWrites(|f.flash|);
    if m == 0 {
      assert ws[..0] == [];
      assert f.(sb := raw.sb) == raw;
      return f;
    }
    var p := TreeBuilt(f, raw, m - 1);
    MountedOf(p);
    ViewExec(p, ws[m - 1]);
    MirrorKept(p, ws[m - 1]);
    var before := AllStored(raw, ws[..m - 1]);
    ExecIsStored(p, before, ws[m - 1]);
    assert ws[..m][..m - 1] == ws[..m - 1];
    r := Exec(p, ws[m - 1]);
    FlashKept(p, ws[m - 1], f.flash, m);
  }

  lemma MountedOf(s: Store)
    requires Mirrored(s)
    ensures s.sb.mounted
  {}

  lemma FlashKept(s: Store, w: Write, flash: seq<byte>, m: nat)
    requires Sound(s) && s.sb.mounted && Fits(s, w) && m <= 8 && View(Exec(s, w)) == Partial(flash, m)
    ensures Exec(s, w).flash == flash
  {
    hide Exec, Table, Complete, AllFree;
  }

  // ---------------------------------------------------------------- the whole

  /** The chip after the first n writes of its personalisation. */
  ghost function CutChip(s: Store, n: nat): Store
    requires BlankChip(s) && n <= |PersonaliseLog(s)|
  {
    AllStored(s, PersonaliseLog(s)[..n])
  }

  lemma LogSplits(s: Store, n: nat)
    requires BlankChip(s)
    ensures PersonaliseLog(s) == FormatWrites() + TreeWrites(|s.flash|) && |PersonaliseLog(s)| == 41
    ensures 33 <= n <= 41 ==> PersonaliseLog(s)[..n] == FormatWrites() + TreeWrites(|s.flash|)[..n - 33]
  {
    hide FormatWrites, InstallLog;
    TreeWritesAre(|s.flash|);
  }

  /** After the superblock the chip mounts as what the writes so far have made of it. */
  lemma CutTree(s: Store, n: nat) returns (r: Store)
    requires BlankChip(s) && 33 <= n <= |PersonaliseLog(s)| == 41
    ensures Sound(r) && Mirrored(r) && r.sb.maxFiles == MAX_FILES && r.flash == s.flash
    ensures View(r) == Partial(s.flash, n - 33)
    ensures |CutChip(s, n).eeprom| < 0x1_0000_0000 && |CutChip(s, n).flash| < 0x1_0000_0000
    ensures PowerUp(CutChip(s, n)) == PowerUp(r)
  {
    hide FormatResult, FormatWrites, TreeWrites, AllStored, Partial, PowerUp, View, PersonaliseLog, Table, MountRaw;
    LogSplits(s, n);
    FormatTable(s);
    FormatOutcome(s);
    FormatStored(s);
    var f := FormatResult(s).1;
    FormattedView(f);
    var raw := f.(sb := s.sb);
    StoredAppend(s, FormatWrites(), TreeWrites(|s.flash|)[..n - 33]);
    r := TreeBuilt(f, raw, n - 33);
    MirrorIrrelevant(r, s.sb);
  }

  lemma FormattedView(f: Store)
    requires Sound(f) && Table(f) == AllFree(MAX_FILES) && f.sb.dataTop == 0
    ensures View(f) == Partial(f.flash, 0)
  {}

  /** With the superblock written and the MF not, the card comes up with a filesystem error. */
  lemma NoMfYet(r: Store)
    requires Sound(r) && Mirrored(r) && View(r) == Partial(r.flash, 0)
    ensures PowerUp(r).life == FsError
  {
    hide MountRaw;
    assert r.(sb := r.sb) == r;
  }

  /**
    A personalisation of 41 NVM writes cut after n of them, at the next
    power-up: up to 32 a blank chip again, and the card an undisturbed one would
    have been; after 33 a filesystem error; from 34 on an operational card,
    every invariant included, with exactly the files whose descriptors were
    written.
   */
  lemma CutPersonalisation(s: Store, n: nat)
    requires BlankChip(s) && n <= |PersonaliseLog(s)|
    ensures |PersonaliseLog(s)| == 41
    ensures |CutChip(s, n).eeprom| < 0x1_0000_0000 && |CutChip(s, n).flash| < 0x1_0000_0000
    ensures n <= 32 ==> BlankChip(CutChip(s, n)) && PowerUp(CutChip(s, n)) == PowerUp(s)
    ensures n == 33 ==> PowerUp(CutChip(s, n)).life == FsError
    ensures n >= 34 ==> var card := PowerUp(CutChip(s, n));
                        GoodCard(card) && FilesOf(card) == FirstFiles(FileCount(n - 33))
  {
    hide PowerUp, View, Partial, Good, Files, Mirrored, PersonaliseLog, FirstFiles, Table, SelectionFits;
    LogSplits(s, n);
    if n <= 32 {
      CutFormatStartsCleanly(s, n);
    } else {
      var r := CutTree(s, n);
      if n == 33 {
        NoMfYet(r);
      } else {
        PartialGood(s.flash, n - 33);
        PowerUpGood(r);
        RootSelected(r);
      }
    }
  }

  // ------------------------------------------------------- when a card starts

  /** FLASH bytes that the entries from i on still take. */
  function Needed(i: nat): nat {
    if i == 0 then 112 else if i <= 2 then 80 else if i == 3 then 16 else 0
  }

  lemma InstalledTop(s: Store, e: Entry)
    requires Sound(s) && s.sb.mounted && e.index < s.sb.maxFiles && (e.ftype == TYPE_EF || e.ftype == TYPE_DF)
    requires InstallOne(s, e).0 == Ok
    ensures var r := InstallOne(s, e).1;
            && r.sb.mounted && r.sb.maxFiles == s.sb.maxFiles && |r.flash| == |s.flash|
            && r.sb.dataTop == if e.ftype == TYPE_EF then s.sb.dataTop + e.size else s.sb.dataTop
  {
    hide Exec, ExecAll;
    if e.ftype == TYPE_EF {
      var w := WriteSb(s.sb.dataTop + e.size);
      ExecTwo(s, w, WriteDesc(e.index, EntryDesc(e, s.sb.dataTop)));
    } else {
      ExecOne(s, WriteDesc(e.index, EntryDesc(e, 0)));
    }
  }

  lemma {:induction false} InstallsExactly(s: Store, i: nat)
    requires Sound(s) && s.sb.mounted && s.sb.maxFiles == MAX_FILES && i <= 4
    ensures Install(s, i).0 == Ok <==> s.sb.dataTop + Needed(i) <= |s.flash|
    decreases 4 - i
  {
    hide Exec, ExecAll;
    if i < 4 {
      if InstallOne(s, LAYOUT[i]).0 == Ok {
        InstalledTop(s, LAYOUT[i]);
        InstallsExactly(InstallOne(s, LAYOUT[i]).1, i + 1);
      }
    }
  }

  lemma PersonalisesExactly(s: Store)
    requires |s.eeprom| < 0x1_0000_0000 && |s.flash| < 0x1_0000_0000
    ensures PersonaliseResult(s).0 == Ok <==> |s.eeprom| >= 656 && |s.flash| >= 112
  {
    hide Exec, ExecAll, Install, Table;
    FormatOutcome(s);
    var (st, f) := FormatResult(s);
    if st == Ok {
      FormatTable(s);
      ExecOne(f, WriteDesc(0, MF));
      InstallsExactly(Exec(f, WriteDesc(0, MF)), 0);
    }
  }

  /** Slot 0 holds the sealed descriptor of an MF. */
  ghost predicate HasMf(s: Store) {
    && |s.eeprom| >= 36
    && exists d :: DecodeSlot(s.eeprom[16..36], |s.flash|) == Live(d) && d.ftype == 1 && d.fid == 0x3F00
  }

  /**
    A cold start, over any memories, comes up operational exactly when a
    formatted chip mounts and has its MF, or a chip without the magic has room
    for the factory files; it ends in the filesystem error otherwise.
   */
  lemma StartsExactly(s: Store)
    requires |s.eeprom| < 0x1_0000_0000 && |s.flash| < 0x1_0000_0000
    ensures PowerUp(s).life == Operational || PowerUp(s).life == FsError
    ensures PowerUp(s).life == Operational <==>
              if |s.eeprom| >= 16 && s.eeprom[..4] == MAGIC
              then MountRaw(s.eeprom[..16], |s.eeprom|, |s.flash|).Success? && HasMf(s)
              else |s.eeprom| >= 656 && |s.flash| >= 112
  {
    hide PersonaliseResult, MountRaw, DecodeSlot;
    if |s.eeprom| >= 16 {
      assert s.eeprom[..16][..4] == s.eeprom[..4];
    }
    PersonalisesExactly(s.(sb := s.sb.(mounted := false)));
    match MountResult(s.eeprom, |s.flash|)
    case Failure(_) =>
    case Success(sb) =>
      assert SlotRaw(s.eeprom, 0) == s.eeprom[16..36];
  }
}
