/**
  The commands told over the file map alone: exactly when each one succeeds on
  the bytes, which file it names, and what it returns or changes.
 */
module AbstractCard {
  import opened Bytes
  import opened StatusWords
  import opened Apdu
  import opened FsTypes
  import opened FileTree
  import opened SlotSearch
  import opened TreeInvariant
  import opened FileMap
  import opened FileOps
  import opened Commands
  import opened CardMachine
  import opened FcpExactly
  import R = Response
  import F = Fcp

  // ---------------------------------------------------------- naming a file

  /** File i is the EF that P1-P2 name, and off where in it they point. */
  ghost predicate Addresses(m: map<nat, File>, sel: Selection, p1: byte, p2: byte, i: u16, off: u16) {
    if p1 >= 0x80 then
      && 0x81 <= p1 <= 0x9E && off == p2 && i as nat in m
      && m[i].desc.parent == sel.df && m[i].desc.IsEf() && m[i].desc.sfi == p1 - 0x80
    else sel.ef != INVALID_INDEX && i == sel.ef && off == U16(p1, p2)
  }

  /** At most one file of a tree answers a query by identifier or short identifier. */
  lemma OnlyOne(t: seq<Slot>, q: Query, i: nat)
    requires Tree(t) && i < |t| && Answers(t[i], q)
    requires q.ChildOf? || (q.SfiUnder? && q.sfi != NO_SFI)
    ensures First(t, q, 0) == i
  {
    hide First, AllRooted, IsFile;
    forall j | 0 <= j < |t| && Answers(t[j], q)
      ensures j == i
    {
      assert !Clash(t[if i < j then i else j], t[if i < j then j else i]) || i == j;
    }
    FirstIsUnique(t, q, i);
  }

  /** The slots of the table and the files of the map, once and for all. */
  lemma FilesAre(k: Disk)
    ensures forall i: nat :: i in Files(k) <==> i < |k.table| && k.table[i].Live?
    ensures forall i | i in Files(k) :: Files(k)[i].desc == k.table[i].desc
  {}

  ghost function SlotOf(m: map<nat, File>, i: nat): Slot {
    if i in m then Live(m[i].desc) else Free
  }

  /** On a good disk the file map determines the table. */
  lemma TableIsMap(k: Disk)
    requires Good(k)
    ensures |k.table| == MAX_FILES
    ensures forall i: nat | i < |k.table| :: k.table[i] == SlotOf(Files(k), i)
  {
    FilesAre(k);
    hide Files, Extents, AllRooted, IsFile, Clash;
  }

  lemma ShortTarget(k: Disk, df: u16, sfi: byte, i: u16)
    requires Tree(k.table) && sfi != NO_SFI
    ensures BySfi(k.table, df, sfi) == Success(i) <==>
              && sfi <= 30 && i as nat in Files(k)
              && Files(k)[i].desc.parent == df && Files(k)[i].desc.IsEf() && Files(k)[i].desc.sfi == sfi
  {
    TreeSize(k.table);
    FilesAre(k);
    hide Files, First, Tree;
    if i < |k.table| && Answers(k.table[i], SfiUnder(df, sfi)) {
      OnlyOne(k.table, SfiUnder(df, sfi), i);
    }
  }

  /** The handlers' target is the addressed file, and there is at most one. */
  lemma TargetExactly(k: Disk, sel: Selection, p1: byte, p2: byte, i: u16, off: u16)
    requires Tree(k.table) && |k.table| <= MAX_FILES
    ensures BinaryTarget(k.table, sel, p1, p2) == At(i, off) <==> Addresses(Files(k), sel, p1, p2, i, off)
  {
    hide Files, BySfi, Tree;
    if p1 >= 0x80 && p1 % 0x20 != 0 {
      ShortTarget(k, sel.df, p1 % 0x20, i);
    }
  }

  /** File i is an activated EF. */
  ghost predicate IsOpenEf(m: map<nat, File>, i: nat) {
    i in m && m[i].desc.IsEf() && m[i].desc.Usable()
  }

  lemma EfExactly(k: Disk, i: u16)
    requires Good(k)
    ensures EfOf(k.table, i).Success? <==> IsOpenEf(Files(k), i)
    ensures IsOpenEf(Files(k), i) ==>
              && EfOf(k.table, i).value == Files(k)[i].desc
              && |Files(k)[i].content| == Files(k)[i].desc.size
              && Files(k)[i].desc.off + Files(k)[i].desc.size <= |k.flash|
  {
    hide Tree, ErasedFrom;
    if i < |k.table| {
      assert Below(k.table[i], k.top);
    }
  }

  // ------------------------------------------------------------------ UPDATE

  ghost predicate CanUpdate(m: map<nat, File>, sel: Selection, c: Command, i: u16, off: u16) {
    && c.data != [] && !c.lePresent
    && Addresses(m, sel, c.p1, c.p2, i, off) && IsOpenEf(m, i) && off + |c.data| <= |m[i].content|
  }

  lemma WritableExactly(k: Disk, i: u16, off: u16, data: seq<byte>)
    requires Good(k) && data != []
    ensures EfWrite(k.table, |k.flash|, i, off, data).Accepted? <==>
              IsOpenEf(Files(k), i) && off + |data| <= |Files(k)[i].content|
  {
    hide Good, Files, EfOf;
    EfExactly(k, i);
  }

  /** UPDATE BINARY is answered 9000 exactly when the map has room for it, and patches that slice. */
  lemma UpdateExactly(k: Disk, sel: Selection, c: Command)
    requires Good(k) && |k.table| <= MAX_FILES
    ensures CmdUpdate(k.table, |k.flash|, sel, c).sw == SW_OK <==>
              exists i: u16, off: u16 :: CanUpdate(Files(k), sel, c, i, off)
    ensures forall i: u16, off: u16 | CanUpdate(Files(k), sel, c, i, off) ::
              UpdateChange(k, sel, c) == Patch(i, off, c.data)
  {
    hide Good, Files, BinaryTarget, EfWrite, Addresses, IsOpenEf, StatusSw;
    GoodTree(k);
    if CmdUpdate(k.table, |k.flash|, sel, c).sw == SW_OK {
      RefusedUpdate(k, sel, c);
      var at := BinaryTarget(k.table, sel, c.p1, c.p2);
      TargetExactly(k, sel, c.p1, c.p2, at.index, at.offset);
      WritableExactly(k, at.index, at.offset, c.data);
      assert CanUpdate(Files(k), sel, c, at.index, at.offset);
    }
    forall i: u16, off: u16 | CanUpdate(Files(k), sel, c, i, off)
      ensures UpdateChange(k, sel, c) == Patch(i, off, c.data) && CmdUpdate(k.table, |k.flash|, sel, c).sw == SW_OK
    {
      TargetExactly(k, sel, c.p1, c.p2, i, off);
      WritableExactly(k, i, off, c.data);
    }
  }

  // -------------------------------------------------------------------- READ

  /** The bytes a read of le bytes at off delivers: cut at the end of the file. */
  ghost function SliceAt(content: seq<byte>, off: nat, le: nat): seq<byte>
    requires off <= |content|
  {
    if off + le <= |content| then content[off..off + le] else content[off..]
  }

  ghost predicate CanRead(m: map<nat, File>, sel: Selection, c: Command, cap: nat, i: u16, off: u16) {
    && c.data == [] && c.lePresent && c.le <= 256
    && Addresses(m, sel, c.p1, c.p2, i, off) && IsOpenEf(m, i) && off <= |m[i].content|
    && |SliceAt(m[i].content, off, c.le)| <= R.Room(cap)
  }

  lemma ReadableExactly(k: Disk, i: u16, off: u16, le: u16)
    requires Good(k)
    ensures EfRead(k.table, k.flash, i, off, le).Success? <==>
              IsOpenEf(Files(k), i) && off <= |Files(k)[i].content|
    ensures EfRead(k.table, k.flash, i, off, le).Success? ==>
              EfRead(k.table, k.flash, i, off, le).value == SliceAt(Files(k)[i].content, off, le)
  {
    hide Good, Files, EfRead, EfOf;
    EfExactly(k, i);
    ReadIsSlice(k, i, off, le);
  }

  /**
    READ BINARY delivers data exactly when the map has a readable file at that
    place: the addressed slice, 9000 if it is Le bytes long, 6282 if the file ended.
   */
  lemma ReadExactly(k: Disk, sel: Selection, c: Command, cap: nat)
    requires Good(k) && |k.table| <= MAX_FILES
    ensures var a := CmdRead(k.table, k.flash, sel, c, cap);
            && (a.sw == SW_OK || a.sw == SW_END_OF_FILE <==>
                  exists i: u16, off: u16 :: CanRead(Files(k), sel, c, cap, i, off))
            && (forall i: u16, off: u16 | CanRead(Files(k), sel, c, cap, i, off) ::
                  && a.rsp == R.Rsp(SliceAt(Files(k)[i].content, off, c.le), false)
                  && (a.sw == SW_OK <==> off + c.le <= |Files(k)[i].content|))
  {
    hide Good, Files, BinaryTarget, EfRead, Addresses;
    GoodTree(k);
    var a := CmdRead(k.table, k.flash, sel, c, cap);
    var at := BinaryTarget(k.table, sel, c.p1, c.p2);
    NotEnd(k.table, sel, c.p1, c.p2);
    if a.sw == SW_OK || a.sw == SW_END_OF_FILE {
      assert at.At? && c.le <= 256;
      TargetExactly(k, sel, c.p1, c.p2, at.index, at.offset);
      ReadableExactly(k, at.index, at.offset, c.le);
      StatusIsNotWarning(EfRead(k.table, k.flash, at.index, at.offset, c.le));
      assert CanRead(Files(k), sel, c, cap, at.index, at.offset);
    }
    forall i: u16, off: u16 | CanRead(Files(k), sel, c, cap, i, off)
      ensures a.rsp == R.Rsp(SliceAt(Files(k)[i].content, off, c.le), false)
      ensures a.sw == SW_OK || a.sw == SW_END_OF_FILE
      ensures a.sw == SW_OK <==> off + c.le <= |Files(k)[i].content|
    {
      TargetExactly(k, sel, c.p1, c.p2, i, off);
      ReadableExactly(k, i, off, c.le);
    }
  }

  lemma StatusIsNotWarning(r: Result<seq<byte>>)
    ensures r.Failure? && r.error != Ok ==> StatusSw(r.error) != SW_OK && StatusSw(r.error) != SW_END_OF_FILE
  {}

  lemma NotEnd(t: seq<Slot>, sel: Selection, p1: byte, p2: byte)
    requires |t| <= MAX_FILES
    ensures BinaryTarget(t, sel, p1, p2).NoTarget? ==>
              BinaryTarget(t, sel, p1, p2).sw != SW_OK && BinaryTarget(t, sel, p1, p2).sw != SW_END_OF_FILE
  {
    hide BySfi;
  }

  // ------------------------------------------------------------------ DELETE

  ghost predicate HasChild(m: map<nat, File>, i: nat) {
    exists j | j in m :: m[j].desc.parent == i
  }

  ghost predicate CanDelete(m: map<nat, File>, sel: Selection, c: Command, i: nat) {
    && c.p1 == 0 && c.p2 == 0 && |c.data| == 2 && Num16(c.data) != FID_MF
    && i in m && m[i].desc.parent == sel.df && m[i].desc.fid == Num16(c.data) && !HasChild(m, i)
  }

  lemma ChildlessExactly(k: Disk, i: u16)
    ensures Found(k.table, AnyChild(i)) <==> HasChild(Files(k), i)
  {
    FoundExactly(k.table, AnyChild(i));
    FilesAre(k);
    hide Files, Found;
    if exists j | 0 <= j < |k.table| :: Answers(k.table[j], AnyChild(i)) {
      var j :| 0 <= j < |k.table| && Answers(k.table[j], AnyChild(i));
      assert j in Files(k);
    }
  }

  lemma DeletableExactly(k: Disk, sel: Selection, fid: u16, i: nat)
    requires Good(k) && SelectionFits(k.table, sel)
    ensures |k.table| <= MAX_FILES
    ensures var p, m := Delete(k.table, sel, fid), Files(k);
            p.Accepted? && p.slot == i <==>
              && fid != FID_MF && i in m && m[i].desc.parent == sel.df && m[i].desc.fid == fid && !HasChild(m, i)
  {
    GoodTree(k);
    FilesAre(k);
    hide Good, Files, First, Found, Tree, HasChild, SelectionFits;
    var p := Delete(k.table, sel, fid);
    if p.Accepted? && p.slot == i {
      AcceptedIsDeletable(k.table, sel, fid);
      ChildlessExactly(k, i);
    }
    if i in Files(k) && k.table[i].desc.parent == sel.df && k.table[i].desc.fid == fid {
      OnlyOne(k.table, ChildOf(sel.df, fid), i);
      ChildlessExactly(k, i);
      RootIsNoChild(k.table, i, sel.df);
    }
  }

  lemma RootIsNoChild(t: seq<Slot>, i: nat, df: u16)
    requires Tree(t) && i < |t| && t[i].Live? && t[i].desc.parent == df && df < |t|
    ensures t[i].desc.ftype != TYPE_MF
  {
    assert i > 0 ==> IsFile(t, t[i]);
  }

  /**
    DELETE FILE is answered 9000 exactly for a childless file of the current DF,
    and removes it; of the selection only a current EF that was this file is
    lost, and nothing when it is refused.
   */
  lemma DeleteExactly(k: Disk, sel: Selection, c: Command)
    requires Good(k) && SelectionFits(k.table, sel) && |k.table| <= MAX_FILES
    ensures CmdDelete(k.table, sel, c).sw == SW_OK <==> exists i: nat :: CanDelete(Files(k), sel, c, i)
    ensures forall i: nat | CanDelete(Files(k), sel, c, i) ::
              && DeleteChange(k, sel, c) == Remove(i)
              && CmdDelete(k.table, sel, c).sel == Selection(sel.df, if sel.ef == i then INVALID_INDEX else sel.ef)
    ensures CmdDelete(k.table, sel, c).sw != SW_OK ==> CmdDelete(k.table, sel, c).sel == sel
  {
    hide Good, Files, Delete, SelectionFits, HasChild, StatusSw;
    DeleteProper(k.table, sel, c, 0);
    if CmdDelete(k.table, sel, c).sw == SW_OK {
      AcceptedDelete(k.table, sel, c);
      var i := Delete(k.table, sel, Num16(c.data)).slot;
      DeletableExactly(k, sel, Num16(c.data), i);
      assert CanDelete(Files(k), sel, c, i);
    }
    forall i: nat | CanDelete(Files(k), sel, c, i)
      ensures DeleteChange(k, sel, c) == Remove(i) && CmdDelete(k.table, sel, c).sw == SW_OK
      ensures CmdDelete(k.table, sel, c).sel == Selection(sel.df, if sel.ef == i then INVALID_INDEX else sel.ef)
    {
      DeletableExactly(k, sel, Num16(c.data), i);
      DeletedIsNotCurrent(k, sel, i);
    }
  }

  lemma DeletedIsNotCurrent(k: Disk, sel: Selection, i: nat)
    requires Good(k) && i in Files(k) && Files(k)[i].desc.parent == sel.df
    ensures i != sel.df as nat && i < MAX_FILES
  {
    hide Extents, ErasedFrom, AllRooted, IsFile, Clash;
    NotOwnParent(k.table, i);
  }

  // ------------------------------------------------------------------ CREATE

  /** A file of the current DF that already has the identifier or short identifier asked for. */
  ghost predicate Taken(m: map<nat, File>, df: u16, req: Desc) {
    exists j | j in m ::
      && m[j].desc.parent == df
      && (m[j].desc.fid == req.fid || (req.sfi != NO_SFI && m[j].desc.IsEf() && m[j].desc.sfi == req.sfi))
  }

  /** Slot i is the lowest that holds no file. */
  ghost predicate IsNextSlot(m: map<nat, File>, i: nat) {
    i < MAX_FILES && i !in m && forall j: nat | j < i :: j in m
  }

  ghost predicate CanCreate(m: map<nat, File>, top: u32, flashSize: nat, sel: Selection, c: Command, i: nat) {
    && c.p1 == 0 && c.p2 == 0 && Wish(c.data).Request?
    && var req := Wish(c.data).req;
    && !ReservedFid(req.fid) && !Taken(m, sel.df, req) && IsNextSlot(m, i)
    && (req.ftype == TYPE_EF ==> top + req.size <= flashSize)
  }

  lemma TakenExactly(k: Disk, df: u16, req: Desc)
    ensures Taken(Files(k), df, req) <==>
              || Found(k.table, ChildOf(df, req.fid))
              || (req.sfi != NO_SFI && Found(k.table, SfiUnder(df, req.sfi)))
  {
    FoundExactly(k.table, ChildOf(df, req.fid));
    FoundExactly(k.table, SfiUnder(df, req.sfi));
    FilesAre(k);
    hide Files, Found;
    if j :| 0 <= j < |k.table| && Answers(k.table[j], ChildOf(df, req.fid)) {
      assert j in Files(k);
    }
    if j :| 0 <= j < |k.table| && Answers(k.table[j], SfiUnder(df, req.sfi)) {
      assert j in Files(k);
    }
  }

  lemma NextSlotExactly(k: Disk, i: nat)
    requires Tree(k.table)
    ensures IsNextSlot(Files(k), i) <==> Found(k.table, FreeSlot) && First(k.table, FreeSlot, 0) == i
  {
    FilesAre(k);
    hide Files, AllRooted, IsFile;
    var f := First(k.table, FreeSlot, 0);
    hide First;
    forall j: nat | j < MAX_FILES
      ensures j in Files(k) <==> !k.table[j].Free?
    {
    }
  }

  lemma CreatableExactly(k: Disk, sel: Selection, req: Desc, i: nat)
    requires Good(k) && SelectionFits(k.table, sel) && |k.table| <= MAX_FILES
    requires CheckRequest(req) == if ReservedFid(req.fid) then ErrExists else Ok
    ensures var p, m := CreatePlan(k, sel, req), Files(k);
            p.Accepted? && p.slot == i <==>
              && !ReservedFid(req.fid) && !Taken(m, sel.df, req) && IsNextSlot(m, i)
              && (req.ftype == TYPE_EF ==> k.top + req.size <= |k.flash|)
  {
    hide Files, First, Found, Tree, Extents, ErasedFrom, CheckRequest, Taken, IsNextSlot;
    GoodTree(k);
    TakenExactly(k, sel.df, req);
    NextSlotExactly(k, i);
    if Found(k.table, FreeSlot) {
      FoundFirst(k.table, FreeSlot);
    }
  }

  /**
    CREATE FILE is answered 9000 exactly for a well-formed request whose
    identifiers are free, while a slot and the data space last; it adds that
    one file, erased, in the lowest free slot.
   */
  lemma CreateExactly(k: Disk, sel: Selection, c: Command)
    requires Good(k) && SelectionFits(k.table, sel) && |k.table| <= MAX_FILES
    ensures CmdCreate(k.table, k.top, |k.flash|, sel, c).sw == SW_OK <==>
              c.data != [] && exists i: nat :: CanCreate(Files(k), k.top, |k.flash|, sel, c, i)
    ensures forall i: nat | c.data != [] && CanCreate(Files(k), k.top, |k.flash|, sel, c, i) ::
              CreateChange(k, sel, c) == Add(i, NewFile(k, sel, Wish(c.data).req))
  {
    hide Files, Create, SelectionFits, StatusSw, Tree, Extents, ErasedFrom, F.ParseFcp, Wish, Taken, IsNextSlot,
      NewFile;
    ParseIsWish(c.data);
    if F.ParseFcp(c.data).Request? {
      F.ParsedRequestIsValid(c.data);
    }
    if CmdCreate(k.table, k.top, |k.flash|, sel, c).sw == SW_OK {
      AcceptedCreate(k, sel, c);
      var req := F.ParseFcp(c.data).req;
      var i := CreatePlan(k, sel, req).slot;
      CreatableExactly(k, sel, req, i);
      assert CanCreate(Files(k), k.top, |k.flash|, sel, c, i);
    }
    forall i: nat | c.data != [] && CanCreate(Files(k), k.top, |k.flash|, sel, c, i)
      ensures CreateChange(k, sel, c) == Add(i, NewFile(k, sel, F.ParseFcp(c.data).req))
      ensures CmdCreate(k.table, k.top, |k.flash|, sel, c).sw == SW_OK
    {
      CreatableExactly(k, sel, F.ParseFcp(c.data).req, i);
    }
  }

  /** Whatever the FCP parser lets through never comes back as a parameter error. */
  lemma CreateNeverBlamesParameters(k: Disk, sel: Selection, c: Command)
    requires Good(k) && SelectionFits(k.table, sel) && |k.table| <= MAX_FILES
    requires F.ParseFcp(c.data).Request?
    ensures var p := CreatePlan(k, sel, F.ParseFcp(c.data).req);
            p.Refused? ==> p.error == ErrExists || p.error == ErrNoSpace
  {
    F.ParsedRequestIsValid(c.data);
    hide First, Found, Tree, Extents, ErasedFrom, CheckRequest, F.ParseFcp;
  }

  // --------------------------------------------------------- the whole of it

  /** The abstract card's transition relation: what command c does to the map, told without any byte. */
  ghost predicate Does(m: map<nat, File>, top: u32, flashSize: nat, sel: Selection, c: Command, ch: Change) {
    match ch
    case Patch(i, off, data) =>
      && c.ins == INS_UPDATE_BINARY && data == c.data
      && i < 0x10000 && off < 0x10000 && CanUpdate(m, sel, c, i, off)
    case Add(i, f) =>
      && c.ins == INS_CREATE_FILE && c.data != [] && CanCreate(m, top, flashSize, sel, c, i)
      && var req := Wish(c.data).req;
      f == File(Created(top, sel, req), Fill(req.size, ERASED))
    case Remove(i) => c.ins == INS_DELETE_FILE && CanDelete(m, sel, c, i)
    case Keep =>
      && (c.ins == INS_UPDATE_BINARY ==> !exists i: u16, off: u16 :: CanUpdate(m, sel, c, i, off))
      && (c.ins == INS_CREATE_FILE && c.data != [] ==> !exists i: nat :: CanCreate(m, top, flashSize, sel, c, i))
      && (c.ins == INS_DELETE_FILE ==> !exists i: nat :: CanDelete(m, sel, c, i))
  }

  lemma UpdateKeeps(k: Disk, sel: Selection, c: Command)
    requires |k.table| <= MAX_FILES
    ensures UpdateChange(k, sel, c) == Keep <==> CmdUpdate(k.table, |k.flash|, sel, c).sw != SW_OK
    ensures UpdateChange(k, sel, c).Keep? || UpdateChange(k, sel, c).Patch?
  {
    hide BinaryTarget, EfWrite, StatusSw;
    if CmdUpdate(k.table, |k.flash|, sel, c).sw == SW_OK {
      RefusedUpdate(k, sel, c);
    }
  }

  lemma CreateKeeps(k: Disk, sel: Selection, c: Command)
    requires |k.table| <= MAX_FILES && |k.flash| < 0x1_0000_0000
    ensures CreateChange(k, sel, c) == Keep <==> CmdCreate(k.table, k.top, |k.flash|, sel, c).sw != SW_OK
    ensures CreateChange(k, sel, c).Keep? || CreateChange(k, sel, c).Add?
  {
    hide CmdCreate, CreatePlan, F.ParseFcp;
    if CmdCreate(k.table, k.top, |k.flash|, sel, c).sw == SW_OK {
      AcceptedCreate(k, sel, c);
    }
  }

  lemma DeleteKeeps(k: Disk, sel: Selection, c: Command)
    requires |k.table| <= MAX_FILES
    ensures DeleteChange(k, sel, c) == Keep <==> CmdDelete(k.table, sel, c).sw != SW_OK
    ensures DeleteChange(k, sel, c).Keep? || DeleteChange(k, sel, c).Remove?
  {
    hide CmdDelete, Delete;
    if CmdDelete(k.table, sel, c).sw == SW_OK {
      AcceptedDelete(k.table, sel, c);
    }
  }

  /** The bytes do exactly what the abstract card does: one change per command, and the same one. */
  lemma MeaningExactly(k: Disk, sel: Selection, c: Command, ch: Change)
    requires Good(k) && SelectionFits(k.table, sel) && |k.table| <= MAX_FILES
    ensures Meaning(k, sel, c) == ch <==> Does(Files(k), k.top, |k.flash|, sel, c, ch)
  {
    hide Files, SelectionFits, Tree, Extents, ErasedFrom, CmdUpdate, CmdCreate, CmdDelete, UpdateChange, CreateChange,
      DeleteChange, CanUpdate, CanCreate, CanDelete, F.ParseFcp, Wish;
    if c.ins == INS_UPDATE_BINARY {
      UpdateExactly(k, sel, c);
      UpdateKeeps(k, sel, c);
    } else if c.ins == INS_CREATE_FILE {
      CreateExactly(k, sel, c);
      CreateKeeps(k, sel, c);
    } else if c.ins == INS_DELETE_FILE {
      DeleteExactly(k, sel, c);
      DeleteKeeps(k, sel, c);
    }
  }
}
