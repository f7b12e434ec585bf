/**
  The card seen above its byte format: descriptor table, bump pointer and data
  area; and above that the abstract card, a map from slot to descriptor and
  own contents. Each NVM write is followed through both views.
 */
module FileMap {
  import opened Bytes
  import opened FsTypes
  import opened NvmLayout
  import opened FsStore
  import opened SlotSearch
  import opened TreeInvariant

  datatype Disk = Disk(table: seq<Slot>, top: u32, flash: seq<byte>)

  datatype File = File(desc: Desc, content: seq<byte>)

  ghost function Content(d: Desc, flash: seq<byte>): seq<byte> {
    if d.IsEf() && d.off + d.size <= |flash| then flash[d.off..d.off + d.size] else []
  }

  /** The abstract card. */
  ghost function Files(k: Disk): map<nat, File> {
    map i: nat | i < |k.table| && k.table[i].Live? :: File(k.table[i].desc, Content(k.table[i].desc, k.flash))
  }

  ghost predicate ErasedFrom(flash: seq<byte>, top: nat) {
    forall i | top <= i < |flash| :: flash[i] == ERASED
  }

  /** One tree, disjoint extents below the bump pointer, untouched flash above it. */
  ghost predicate Good(k: Disk) {
    && |k.flash| < 0x1_0000_0000
    && Tree(k.table)
    && Extents(k.table, k.top, |k.flash|)
    && ErasedFrom(k.flash, k.top)
  }

  // ------------------------------------------------------- writes on the disk

  ghost predicate DiskFits(k: Disk, w: Write) {
    match w
    case WriteSb(top) => top <= |k.flash|
    case WriteDesc(i, d) => i < |k.table| && d.ftype != TYPE_FREE
    case FreeDesc(i) => i < |k.table|
    case WriteData(off, data) => off + |data| <= |k.flash|
  }

  ghost function DiskExec(k: Disk, w: Write): Disk
    requires DiskFits(k, w)
  {
    match w
    case WriteSb(top) => k.(top := top)
    case WriteDesc(i, d) => k.(table := k.table[i := if Storable(d, |k.flash|) then Live(d) else Corrupt])
    case FreeDesc(i) => k.(table := k.table[i := Free])
    case WriteData(off, data) => k.(flash := Splice(k.flash, off, data))
  }

  ghost function DiskExecAll(k: Disk, ws: seq<Write>): Disk
    decreases |ws|
  {
    if ws == [] || !DiskFits(k, ws[0]) then k else DiskExecAll(DiskExec(k, ws[0]), ws[1..])
  }

  lemma DiskOne(k: Disk, w: Write)
    requires DiskFits(k, w)
    ensures DiskExecAll(k, [w]) == DiskExec(k, w)
  {
    assert DiskExecAll(DiskExec(k, w), [w][1..]) == DiskExec(k, w);
  }

  lemma DiskTwo(k: Disk, v: Write, w: Write)
    requires DiskFits(k, v) && DiskFits(DiskExec(k, v), w)
    ensures DiskExecAll(k, [v, w]) == DiskExec(DiskExec(k, v), w)
  {
    assert [v, w][1..] == [w];
    DiskOne(DiskExec(k, v), w);
  }

  // --------------------------------------------------- bytes refine the disk

  ghost function View(s: Store): Disk
    requires Sound(s)
  {
    Disk(Table(s), s.sb.dataTop, s.flash)
  }

  /** One write on the bytes is one write on the disk. */
  lemma ViewExec(s: Store, w: Write)
    requires Sound(s) && s.sb.mounted
    ensures Fits(s, w) <==> DiskFits(View(s), w)
    ensures Fits(s, w) ==> View(Exec(s, w)) == DiskExec(View(s), w)
  {
    hide DecodeSlot;
    if Fits(s, w) {
      ExecTable(s, w);
    }
  }

  lemma {:induction false} ViewExecAll(s: Store, ws: seq<Write>)
    requires Sound(s) && s.sb.mounted
    ensures View(ExecAll(s, ws)) == DiskExecAll(View(s), ws)
    decreases |ws|
  {
    hide View, Fits, DiskFits, DiskExec;
    if ws != [] {
      ViewExec(s, ws[0]);
      if Fits(s, ws[0]) {
        ViewExecAll(Exec(s, ws[0]), ws[1..]);
      }
    }
  }

  /** No sequence of writes separates the mirror of a MAX_FILES image from the chip. */
  lemma {:induction false} MirrorKeptAll(s: Store, ws: seq<Write>)
    requires Sound(s) && Mirrored(s) && s.sb.maxFiles == MAX_FILES
    ensures Mirrored(ExecAll(s, ws)) && ExecAll(s, ws).sb.maxFiles == MAX_FILES
    ensures |ExecAll(s, ws).eeprom| == |s.eeprom| && |ExecAll(s, ws).flash| == |s.flash|
    decreases |ws|
  {
    if ws != [] && Fits(s, ws[0]) {
      MirrorKept(s, ws[0]);
      hide Mirrored;
      MirrorKeptAll(Exec(s, ws[0]), ws[1..]);
    }
  }

  // ---------------------------------------------------------- map-level facts

  lemma FilesCreated(k: Disk, top: nat, i: nat, d: Desc)
    requires i < |k.table| && ErasedFrom(k.flash, top)
    requires if d.IsEf() then d.off == top && top + d.size <= |k.flash| else d.size == 0
    ensures Files(k.(table := k.table[i := Live(d)])) == Files(k)[i := File(d, Fill(d.size, ERASED))]
  {
    assert Content(d, k.flash) == Fill(d.size, ERASED);
  }

  lemma FilesDeleted(k: Disk, i: nat)
    requires i < |k.table|
    ensures Files(k.(table := k.table[i := Free])) == Files(k) - {i}
  {}

  lemma ContentUpdated(d: Desc, flash: seq<byte>, offset: nat, data: seq<byte>)
    requires d.IsEf() && d.off + d.size <= |flash| && offset + |data| <= d.size
    ensures Content(d, Splice(flash, d.off + offset, data)) == Splice(Content(d, flash), offset, data)
  {}

  lemma ContentElsewhere(d: Desc, flash: seq<byte>, at: nat, data: seq<byte>)
    requires at + |data| <= |flash|
    requires d.IsEf() ==> d.off + d.size <= at || at + |data| <= d.off
    ensures Content(d, Splice(flash, at, data)) == Content(d, flash)
  {}

  /** An update inside one file changes that slice of that file and no other file. */
  lemma FilesUpdated(k: Disk, i: nat, offset: nat, data: seq<byte>)
    requires Extents(k.table, k.top, |k.flash|) && i < |k.table| && k.table[i].Live? && k.table[i].desc.IsEf()
    requires offset + |data| <= k.table[i].desc.size
    ensures var d := k.table[i].desc;
            && d.off + offset + |data| <= k.top && d.size == |Content(d, k.flash)|
            && Files(k.(flash := Splice(k.flash, d.off + offset, data)))
               == Files(k)[i := File(d, Splice(Content(d, k.flash), offset, data))]
  {
    var t, flash := k.table, k.flash;
    assert Below(t[i], k.top);
    var d := t[i].desc;
    var flash' := Splice(flash, d.off + offset, data);
    ContentUpdated(d, flash, offset, data);
    assert |Content(d, flash)| == d.size;
    hide Content;
    forall j | 0 <= j < |t| && t[j].Live? && j != i
      ensures Content(t[j].desc, flash') == Content(t[j].desc, flash)
    {
      assert if i < j then Apart(t[i], t[j]) else Apart(t[j], t[i]);
      ContentElsewhere(t[j].desc, flash, d.off + offset, data);
    }
  }

  // ------------------------------------------------------------ single writes

  lemma RaiseTop(k: Disk, top: u32)
    requires Good(k) && k.top <= top <= |k.flash|
    ensures Good(k.(top := top)) && Files(k.(top := top)) == Files(k)
  {
    hide Tree;
    RaiseKeepsExtents(k.table, k.top, top, |k.flash|);
  }

  /** A descriptor that passed every check of creation, about to be stored in free slot i. */
  ghost predicate Creatable(t: seq<Slot>, i: nat, d: Desc, flashSize: nat) {
    && i < |t| && t[i].Free? && IsFile(t, Live(d)) && Storable(d, flashSize)
    && forall j | 0 <= j < |t| :: !Clash(t[j], Live(d))
  }

  lemma AddFile(k: Disk, i: nat, d: Desc, top: u32)
    requires Good(k) && Creatable(k.table, i, d, |k.flash|)
    requires top <= k.top && ErasedFrom(k.flash, top) && Extents(k.table, top, |k.flash|)
    requires if d.IsEf() then d.off == top && top + d.size == k.top else top == k.top
    ensures Good(k.(table := k.table[i := Live(d)]))
    ensures Files(k.(table := k.table[i := Live(d)])) == Files(k)[i := File(d, Fill(d.size, ERASED))]
  {
    assert !d.IsEf() ==> d.size == 0;
    hide Tree, Files, Extents, IsFile, Clash;
    CreateKeepsTree(k.table, i, d);
    CreateKeepsExtents(k.table, top, |k.flash|, i, d);
    FilesCreated(k, top, i, d);
  }

  lemma DropFile(k: Disk, i: u16)
    requires Good(k) && 0 < i < |k.table| && !Found(k.table, AnyChild(i))
    ensures Good(k.(table := k.table[i := Free])) && Files(k.(table := k.table[i := Free])) == Files(k) - {i}
  {
    hide Tree, Files, Extents, Found;
    var t := k.table;
    TreeSize(t);
    FoundExactly(t, AnyChild(i));
    forall j | 0 <= j < |t| && t[j].Live?
      ensures t[j].desc.parent != i
    {
      assert !Answers(t[j], AnyChild(i));
    }
    DeleteKeepsTree(t, i);
    DeleteKeepsExtents(t, k.top, |k.flash|, i);
    FilesDeleted(k, i);
  }

  lemma ChangeFile(k: Disk, i: nat, offset: nat, data: seq<byte>)
    requires Good(k) && i < |k.table| && k.table[i].Live? && k.table[i].desc.IsEf()
    requires offset + |data| <= k.table[i].desc.size
    ensures var d := k.table[i].desc;
            && d.off + offset + |data| <= k.top && d.size == |Content(d, k.flash)|
            && var k' := k.(flash := Splice(k.flash, d.off + offset, data));
            && Good(k')
            && Files(k') == Files(k)[i := File(d, Splice(Content(d, k.flash), offset, data))]
  {
    hide Tree, Files;
    FilesUpdated(k, i, offset, data);
  }
}
