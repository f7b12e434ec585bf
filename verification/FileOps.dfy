/**
  Create, delete and update as wholes: their effect on the file map, and the
  map a power cut after any prefix of their NVM writes leaves behind.
 */
module FileOps {
  import opened Bytes
  import opened FsTypes
  import opened NvmLayout
  import opened FsStore
  import opened FileTree
  import opened SlotSearch
  import opened TreeInvariant
  import opened FileMap

  // ------------------------------------------------------------------ create

  lemma NoClash(t: seq<Slot>, d: Desc)
    requires Tree(t) && d.fid != FID_MF
    requires !Found(t, ChildOf(d.parent, d.fid))
    requires d.sfi != NO_SFI ==> !Found(t, SfiUnder(d.parent, d.sfi))
    ensures forall i | 0 <= i < |t| :: !Clash(t[i], Live(d))
  {
    FoundExactly(t, ChildOf(d.parent, d.fid));
    FoundExactly(t, SfiUnder(d.parent, d.sfi));
    hide Found, AllRooted;
    forall i | 0 <= i < |t|
      ensures !Clash(t[i], Live(d))
    {
      assert !Answers(t[i], ChildOf(d.parent, d.fid));
      if t[i].Live? && t[i].desc.sfi != NO_SFI {
        assert i > 0 && IsFile(t, t[i]);
        assert d.sfi != NO_SFI ==> !Answers(t[i], SfiUnder(d.parent, d.sfi));
      }
    }
  }

  /** The descriptor an accepted creation stores. */
  function Created(top: u32, sel: Selection, req: Desc): Desc {
    NewDesc(req, sel.df, if req.ftype == TYPE_EF then top else 0)
  }

  lemma AcceptedIsCreatable(t: seq<Slot>, top: u32, flashSize: nat, sel: Selection, req: Desc)
    requires Tree(t) && flashSize < 0x1_0000_0000 && Create(t, top, flashSize, sel, req).Accepted?
    ensures Creatable(t, Create(t, top, flashSize, sel, req).slot, Created(top, sel, req), flashSize)
    ensures IsOpenDf(t, sel.df)
  {
    var d := Created(top, sel, req);
    NoClash(t, d);
    hide Clash, AllRooted, First, Found;
    assert First(t, FreeSlot, 0) < |t| by {
      FoundFirst(t, FreeSlot);
    }
  }

  lemma FoundFirst(t: seq<Slot>, q: Query)
    ensures Found(t, q) ==> First(t, q, 0) < |t|
  {}

  lemma WritesOfCreate(t: seq<Slot>, top: u32, flashSize: nat, sel: Selection, req: Desc)
    requires |t| <= MAX_FILES && flashSize < 0x1_0000_0000 && Create(t, top, flashSize, sel, req).Accepted?
    ensures var p, d := Create(t, top, flashSize, sel, req), Created(top, sel, req);
            if req.ftype == TYPE_EF
            then top + req.size <= flashSize && p.writes == [WriteSb(top + req.size), WriteDesc(p.slot, d)]
            else p.writes == [WriteDesc(p.slot, d)]
  {
    hide First, Found;
  }

  ghost function CreatePlan(k: Disk, sel: Selection, req: Desc): Plan
    requires |k.table| <= MAX_FILES && |k.flash| < 0x1_0000_0000
  {
    Create(k.table, k.top, |k.flash|, sel, req)
  }

  /** The file an accepted creation adds: erased contents of the requested size. */
  ghost function NewFile(k: Disk, sel: Selection, req: Desc): File {
    File(Created(k.top, sel, req), Fill(req.size, ERASED))
  }

  /** r is a good disk holding exactly these files, with at most a raised bump pointer. */
  ghost predicate Holds(k: Disk, r: Disk, sel: Selection, files: map<nat, File>) {
    && Good(r) && |r.flash| == |k.flash| && k.top <= r.top
    && SelectionFits(r.table, sel) && Files(r) == files
  }

  /**
    CREATE stopped after its first n writes: the files of before, or, once all
    writes are done, those and the new file; never anything else.
   */
  lemma CreateStopped(k: Disk, sel: Selection, req: Desc, n: nat)
    requires Good(k) && SelectionFits(k.table, sel)
    requires CreatePlan(k, sel, req).Accepted? && n <= |CreatePlan(k, sel, req).writes|
    ensures var p := CreatePlan(k, sel, req);
            && p.slot !in Files(k)
            && Holds(k, DiskExecAll(k, p.writes[..n]), sel,
                     if n < |p.writes| then Files(k) else Files(k)[p.slot := NewFile(k, sel, req)])
  {
    hide Create, SelectionFits, Files, Tree, IsFile, Clash, IsOpenDf, Extents, Storable;
    TreeSize(k.table);
    var p, d := CreatePlan(k, sel, req), Created(k.top, sel, req);
    AcceptedIsCreatable(k.table, k.top, |k.flash|, sel, req);
    WritesOfCreate(k.table, k.top, |k.flash|, sel, req);
    NonRoot(k.table, req, k.top, |k.flash|, sel);
    FreeIsNoFile(k, p.slot);
    hide CreatePlan;
    if n == 0 {
      assert p.writes[..0] == [];
    } else if req.ftype == TYPE_EF {
      CreateEfStopped(k, sel, p.slot, d, n);
    } else {
      assert p.writes[..1] == [WriteDesc(p.slot, d)];
      DiskOne(k, WriteDesc(p.slot, d));
      AddFile(k, p.slot, d, k.top);
      CreateKeepsSelection(k.table, p.slot, d, sel);
    }
  }

  lemma FreeIsNoFile(k: Disk, i: nat)
    requires i < |k.table| && k.table[i].Free?
    ensures i !in Files(k)
  {}

  /** An accepted request is for a DF of no size or an EF. */
  lemma NonRoot(t: seq<Slot>, req: Desc, top: u32, flashSize: nat, sel: Selection)
    requires |t| <= MAX_FILES && flashSize < 0x1_0000_0000 && Create(t, top, flashSize, sel, req).Accepted?
    ensures req.ftype == TYPE_DF || req.ftype == TYPE_EF
    ensures req.ftype == TYPE_DF ==> req.size == 0
  {
    hide First, Found;
  }

  lemma CreateEfStopped(k: Disk, sel: Selection, slot: nat, d: Desc, n: nat)
    requires Good(k) && SelectionFits(k.table, sel) && Creatable(k.table, slot, d, |k.flash|)
    requires d.IsEf() && d.off == k.top && k.top + d.size <= |k.flash| && 1 <= n <= 2
    ensures Holds(k, DiskExecAll(k, [WriteSb(k.top + d.size), WriteDesc(slot, d)][..n]), sel,
                  if n < 2 then Files(k) else Files(k)[slot := File(d, Fill(d.size, ERASED))])
  {
    hide Tree, SelectionFits, IsFile, Clash, IsOpenDf, Files, Extents, Storable;
    var v, w := WriteSb(k.top + d.size), WriteDesc(slot, d);
    var m := DiskExec(k, v);
    RaiseTop(k, v.top);
    if n == 1 {
      assert [v, w][..1] == [v];
      DiskOne(k, v);
    } else {
      assert [v, w][..2] == [v, w];
      DiskTwo(k, v, w);
      AddFile(m, slot, d, k.top);
      CreateKeepsSelection(k.table, slot, d, sel);
    }
  }

  // ------------------------------------------------------------------ delete

  lemma AcceptedIsDeletable(t: seq<Slot>, sel: Selection, fid: u16)
    requires Tree(t) && SelectionFits(t, sel) && Delete(t, sel, fid).Accepted?
    ensures var i := Delete(t, sel, fid).slot;
            && 0 < i < |t| && t[i].Live? && t[i].desc.parent == sel.df && t[i].desc.fid == fid && i != sel.df
            && !Found(t, AnyChild(i)) && Delete(t, sel, fid).writes == [FreeDesc(i)]
  {
    hide First;
    var i := Delete(t, sel, fid).slot;
    assert Answers(t[i], ChildOf(sel.df, fid));
    if t[i].desc.IsEf() {
      EfHasNoChildren(t, i);
    }
    NotOwnParent(t, i);
  }

  lemma EfHasNoChildren(t: seq<Slot>, i: nat)
    requires Tree(t) && 0 < i < |t| && t[i].Live? && t[i].desc.IsEf()
    ensures !Found(t, AnyChild(i))
  {
    FoundExactly(t, AnyChild(i));
    hide Found, AllRooted, Clash;
    forall j | 0 <= j < |t|
      ensures !Answers(t[j], AnyChild(i))
    {
      assert j > 0 ==> IsFile(t, t[j]);
    }
  }

  /** No file is its own parent. */
  lemma NotOwnParent(t: seq<Slot>, i: nat)
    requires Tree(t) && i < |t| && t[i].Live?
    ensures t[i].desc.parent != i
  {
    assert Rooted(t, i);
    var n: nat :| Reaches(t, i, n);
    if n > 0 && t[i].desc.parent == i {
      SameLength(t, i, n, n - 1);
    }
  }

  /** DELETE is a single write: stopped before it nothing happened, after it one file is gone. */
  lemma DeleteStopped(k: Disk, sel: Selection, fid: u16, n: nat)
    requires Good(k) && SelectionFits(k.table, sel)
    requires Delete(k.table, sel, fid).Accepted? && n <= |Delete(k.table, sel, fid).writes|
    ensures var p := Delete(k.table, sel, fid);
            && p.slot < MAX_FILES && p.slot in Files(k)
            && Files(k)[p.slot].desc.parent == sel.df && Files(k)[p.slot].desc.fid == fid
            && Deselect(sel, p.slot).df == sel.df
            && Holds(k, DiskExecAll(k, p.writes[..n]),
                     if n < |p.writes| then sel else Deselect(sel, p.slot),
                     if n < |p.writes| then Files(k) else Files(k) - {p.slot})
  {
    hide Tree, Delete, SelectionFits, Found, Files, Extents, Deselect, DiskExecAll, ErasedFrom;
    GoodTree(k);
    var t, p := k.table, Delete(k.table, sel, fid);
    AcceptedIsDeletable(t, sel, fid);
    LiveIsFile(k, p.slot);
    DeleteKeepsSelection(t, p.slot, sel);
    if n == 0 {
      assert p.writes[..0] == [];
      NothingDone(k);
    } else {
      assert p.writes[..1] == [FreeDesc(p.slot)];
      DiskOne(k, FreeDesc(p.slot));
      DropFile(k, p.slot);
    }
  }

  lemma GoodTree(k: Disk)
    requires Good(k)
    ensures Tree(k.table) && |k.table| == MAX_FILES && |k.flash| < 0x1_0000_0000
  {}

  lemma NothingDone(k: Disk)
    ensures DiskExecAll(k, []) == k
  {}

  lemma LiveIsFile(k: Disk, i: nat)
    requires i < |k.table| && k.table[i].Live?
    ensures i in Files(k) && Files(k)[i] == File(k.table[i].desc, Content(k.table[i].desc, k.flash))
  {}

  // ------------------------------------------------------------------ update

  /** File f with the given bytes stored at an offset inside it. */
  ghost function Patched(f: File, offset: nat, data: seq<byte>): File
    requires offset + |data| <= |f.content|
  {
    f.(content := Splice(f.content, offset, data))
  }

  lemma AcceptedIsWritable(t: seq<Slot>, flashSize: nat, i: u16, offset: u16, data: seq<byte>)
    requires data != [] && EfWrite(t, flashSize, i, offset, data).Accepted?
    ensures i < |t| && t[i].Live? && t[i].desc.IsEf() && offset + |data| <= t[i].desc.size
    ensures EfWrite(t, flashSize, i, offset, data).writes == [WriteData(t[i].desc.off + offset, data)]
  {}

  lemma TopInFlash(k: Disk)
    requires Good(k)
    ensures k.top <= |k.flash|
  {}

  /** UPDATE is a single write of exactly the addressed slice of one file. */
  lemma UpdateStopped(k: Disk, sel: Selection, i: u16, offset: u16, data: seq<byte>, n: nat)
    requires Good(k) && SelectionFits(k.table, sel) && data != []
    requires EfWrite(k.table, |k.flash|, i, offset, data).Accepted?
    requires n <= |EfWrite(k.table, |k.flash|, i, offset, data).writes|
    ensures var p := EfWrite(k.table, |k.flash|, i, offset, data);
            && i as nat in Files(k) && Files(k)[i].desc.IsEf() && offset + |data| <= |Files(k)[i].content|
            && Holds(k, DiskExecAll(k, p.writes[..n]), sel,
                     if n < |p.writes| then Files(k) else Files(k)[i := Patched(Files(k)[i], offset, data)])
  {
    hide Good, EfWrite, Files, SelectionFits, Content;
    TopInFlash(k);
    AcceptedIsWritable(k.table, |k.flash|, i, offset, data);
    var p, d := EfWrite(k.table, |k.flash|, i, offset, data), k.table[i].desc;
    ChangeFile(k, i, offset, data);
    LiveIsFile(k, i);
    if n == 0 {
      assert p.writes[..0] == [];
    } else {
      assert p.writes[..1] == [WriteData(d.off + offset, data)];
      DiskOne(k, WriteData(d.off + offset, data));
    }
  }

  lemma ReadsContent(t: seq<Slot>, flash: seq<byte>, i: u16, offset: u16, len: u16)
    requires EfOf(t, i).Success? && t[i].desc.off + t[i].desc.size <= |flash|
    ensures var c, r := Content(t[i].desc, flash), EfRead(t, flash, i, offset, len);
            && (r.Success? <==> offset <= |c|)
            && (r.Success? ==> r.value == if offset + len <= |c| then c[offset..offset + len] else c[offset..])
  {
    var d := t[i].desc;
    var c := flash[d.off..d.off + d.size];
    if offset <= d.size {
      SliceOfSlice(flash, d.off, d.off + d.size, offset, d.size);
      if offset + len <= d.size {
        SliceOfSlice(flash, d.off, d.off + d.size, offset, offset + len);
      }
    }
  }

  /** A read returns exactly the addressed slice of the file's own contents, cut at its end. */
  lemma ReadIsSlice(k: Disk, i: u16, offset: u16, len: u16)
    requires Good(k)
    ensures EfRead(k.table, k.flash, i, offset, len).Success? <==>
              && EfOf(k.table, i).Success?
              && i as nat in Files(k) && offset <= |Files(k)[i].content|
    ensures EfRead(k.table, k.flash, i, offset, len).Success? ==>
              var c := Files(k)[i].content;
              EfRead(k.table, k.flash, i, offset, len).value
                == if offset + len <= |c| then c[offset..offset + len] else c[offset..]
  {
    hide Tree, Content, Files;
    if EfOf(k.table, i).Success? {
      assert Below(k.table[i], k.top);
      LiveIsFile(k, i);
      ReadsContent(k.table, k.flash, i, offset, len);
      hide EfRead;
    }
  }
}
