/** The handlers answer, move the selection and write as the commands are told over the file map. */
module CommandAgreement {
  import opened Bytes
  import opened StatusWords
  import opened Apdu
  import opened FsTypes
  import opened FsStore
  import opened SlotSearch
  import opened FileTree
  import opened TreeInvariant
  import opened FileMap
  import opened FileOps
  import opened Commands
  import opened CardMachine
  import opened AbstractCard
  import opened CommandMeaning
  import R = Response
  import F = Fcp
  import FX = FcpExactly
  import T = Tlv

  // ------------------------------------------------------------ what to show

  /** The writes a change is made of. */
  ghost predicate WritesFit(k: Disk, ws: seq<Write>, ch: Change) {
    && |ws| == Writes(ch)
    && match ch
       case Add(_, f) =>
         if Elementary(f.desc)
         then ws[0].WriteSb? && ws[0].top == k.top + f.desc.size <= |k.flash| && !ws[1].WriteSb?
         else !ws[0].WriteSb?
       case Keep => true
       case _ => !ws[0].WriteSb?
  }

  /** The card's answer and change are the ones told. */
  ghost predicate Tells(k: Disk, a: Answer, ch: Change, told: Told) {
    && R.Finish(a.rsp, a.sw) == told.data + Be16(told.sw)
    && a.sel == told.sel && ch == told.change && WritesFit(k, a.writes, ch)
  }

  // ------------------------------------------------------------ naming files

  lemma ChildTold(k: Disk, df: u16, fid: u16)
    requires Good(k) && |k.table| <= MAX_FILES
    ensures Child(k.table, df, fid).Success? <==> exists i: u16 :: InDf(Files(k), df, fid, i)
    ensures Child(k.table, df, fid).Failure? ==> Child(k.table, df, fid).error == ErrNotFound
    ensures forall i: u16 | InDf(Files(k), df, fid, i) :: Child(k.table, df, fid) == Success(i)
  {
    hide Good, Files, First;
    GoodTree(k);
    FilesAre(k);
    if Child(k.table, df, fid).Success? {
      assert InDf(Files(k), df, fid, Child(k.table, df, fid).value);
    }
    forall i: u16 | InDf(Files(k), df, fid, i)
      ensures Child(k.table, df, fid) == Success(i)
    {
      OnlyOne(k.table, ChildOf(df, fid), i);
    }
  }

  /** On a good disk a file is an EF or a DF, and its slot reads as it is in the map. */
  lemma SlotTold(k: Disk, i: u16)
    requires Good(k)
    ensures ReadSlot(k.table, i).Success? <==> i as nat in Files(k)
    ensures i as nat in Files(k) ==>
              && ReadSlot(k.table, i) == Success(Files(k)[i].desc)
              && Files(k)[i].desc.IsDf() == !Elementary(Files(k)[i].desc)
              && Files(k)[i].desc.sfi <= 30
  {
    hide Extents, AllRooted, Clash, ErasedFrom;
    FilesAre(k);
    if i < |k.table| && i > 0 {
      assert IsFile(k.table, k.table[i]);
    }
  }

  ghost function PickOf(s: Selected): Pick {
    match s
    case Malformed(sw) => Stay(sw)
    case Chosen(Failure(e)) => Stay(StatusSw(e))
    case Chosen(Success(x)) => Go(x)
  }

  lemma OpenedTold(k: Disk, i: u16)
    requires Good(k) && i as nat in Files(k)
    ensures PickOf(Chosen(SelectIndex(k.table, i))) == Opened(Files(k), i)
  {
    hide Good, Files, ReadSlot;
    SlotTold(k, i);
  }

  lemma MeantTold(k: Disk, sel: Selection, fid: u16, i: u16)
    requires Good(k) && |k.table| <= MAX_FILES && SelectionFits(k.table, sel)
    ensures Meant(Files(k), sel.df, fid, i) <==> FidTarget(k.table, sel, fid) == Success(i)
  {
    hide Good, Files, Child;
    GoodRoot(k, sel);
    ChildTold(k, sel.df, fid);
    SlotTold(k, i);
    SlotTold(k, sel.df);
    var parent := Files(k)[sel.df].desc.parent;
    SlotTold(k, parent);
    NoSuchSlot(k);
  }

  lemma NoSuchSlot(k: Disk)
    requires Good(k)
    ensures NO_PARENT as nat !in Files(k)
  {}

  lemma GoodRoot(k: Disk, sel: Selection)
    requires Good(k) && SelectionFits(k.table, sel)
    ensures 0 in Files(k) && sel.df as nat in Files(k) && Files(k)[sel.df].desc.IsDf()
    ensures Activated(Files(k)[sel.df].desc) && Activated(Files(k)[0].desc)
  {
    FilesAre(k);
  }

  lemma ByNameTold(k: Disk, sel: Selection, fid: u16)
    requires Good(k) && |k.table| <= MAX_FILES && SelectionFits(k.table, sel)
    ensures PickOf(Chosen(SelectByFid(k.table, sel, fid))) == ByName(Files(k), sel.df, fid)
  {
    hide Good, Files, FidTarget, Meant, SelectIndex, Opened, SelectionFits;
    forall i: u16
      ensures Meant(Files(k), sel.df, fid, i) <==> FidTarget(k.table, sel, fid) == Success(i)
    {
      MeantTold(k, sel, fid, i);
    }
    FidMissing(k.table, sel, fid);
    if FidTarget(k.table, sel, fid).Success? {
      var i := FidTarget(k.table, sel, fid).value;
      assert Meant(Files(k), sel.df, fid, i);
      MeantIsFile(Files(k), sel.df, fid, i);
      OpenedTold(k, i);
    }
  }

  lemma MeantIsFile(m: map<nat, File>, df: u16, fid: u16, i: u16)
    requires Meant(m, df, fid, i)
    ensures i as nat in m
  {}

  lemma FidMissing(t: seq<Slot>, sel: Selection, fid: u16)
    requires |t| <= MAX_FILES
    ensures FidTarget(t, sel, fid).Failure? ==> FidTarget(t, sel, fid).error == ErrNotFound
  {}

  lemma ByTypeTold(k: Disk, sel: Selection, fid: u16, wantDf: bool)
    requires Good(k) && |k.table| <= MAX_FILES
    ensures PickOf(Chosen(SelectChild(k.table, sel, fid, wantDf))) == ByType(Files(k), sel.df, fid, wantDf)
  {
    hide Good, Files, Child, ReadSlot;
    ChildTold(k, sel.df, fid);
    if Child(k.table, sel.df, fid).Success? {
      var i: u16 :| InDf(Files(k), sel.df, fid, i);
      SlotTold(k, i);
    }
  }

  lemma UpTold(k: Disk, sel: Selection)
    requires Good(k) && |k.table| <= MAX_FILES && SelectionFits(k.table, sel)
    ensures PickOf(Chosen(SelectParent(k.table, sel))) == Up(Files(k), sel.df)
  {
    hide Good, Files, ReadSlot, SelectIndex, Opened;
    GoodRoot(k, sel);
    SlotTold(k, sel.df);
    NoSuchSlot(k);
    ParentIsFile(k, sel.df);
    var parent := Files(k)[sel.df].desc.parent;
    if parent as nat in Files(k) {
      OpenedTold(k, parent);
    }
  }

  lemma ParentIsFile(k: Disk, i: u16)
    requires Good(k) && i as nat in Files(k)
    ensures Files(k)[i].desc.parent == NO_PARENT || Files(k)[i].desc.parent as nat in Files(k)
  {
    hide Extents, AllRooted, Clash, ErasedFrom;
    FilesAre(k);
    if i > 0 {
      assert IsFile(k.table, k.table[i]);
    }
  }

  // -------------------------------------------------------------- by its path

  lemma StepTold(k: Disk, at: Selection, fid: u16, last: bool)
    requires Good(k) && |k.table| <= MAX_FILES
    ensures match WalkStep(k.table, at, fid, last)
            case Failure(e) =>
              if exists i: u16 :: InDf(Files(k), at.df, fid, i)
              then forall i: u16 | InDf(Files(k), at.df, fid, i) ::
                     if Activated(Files(k)[i].desc) then e == ErrWrongType && !last && Elementary(Files(k)[i].desc)
                     else e == ErrNotUsable
              else e == ErrNotFound
            case Success(next) =>
              && (exists i: u16 :: InDf(Files(k), at.df, fid, i))
              && forall i: u16 | InDf(Files(k), at.df, fid, i) ::
                   && Activated(Files(k)[i].desc) && (!last ==> !Elementary(Files(k)[i].desc))
                   && next == Place(Files(k), i)
  {
    hide Good, Files, Child, ReadSlot;
    ChildTold(k, at.df, fid);
    if Child(k.table, at.df, fid).Success? {
      SlotTold(k, Child(k.table, at.df, fid).value);
    }
  }

  lemma {:induction false} DownTold(k: Disk, at: Selection, path: seq<byte>, s: nat)
    requires Good(k) && |k.table| <= MAX_FILES && |path| % 2 == 0 && 2 * s < |path|
    requires s == 0 ==> !HasFid(k.table, at.df, PathFid(path, 0))
    ensures PickOf(Chosen(Walk(k.table, at, path, s))) == Down(Files(k), at.df, Components(path)[s..])
    decreases |path| - 2 * s
  {
    hide Good, Files, WalkStep, HasFid, InDf;
    var fids, last := Components(path)[s..], 2 * (s + 1) == |path|;
    assert fids[0] == PathFid(path, s) && |fids| == |path| / 2 - s;
    StepTold(k, at, fids[0], last);
    match WalkStep(k.table, at, fids[0], last)
    case Failure(_) =>
    case Success(next) =>
      assert fids[1..] == Components(path)[s + 1..];
      if last {
        assert Walk(k.table, next, path, s + 1) == Success(next);
      } else {
        DownTold(k, next, path, s + 1);
      }
  }

  lemma ByPathTold(k: Disk, sel: Selection, path: seq<byte>, fromMf: bool)
    requires Good(k) && |k.table| <= MAX_FILES && SelectionFits(k.table, sel) && path != [] && |path| % 2 == 0
    ensures PickOf(Chosen(SelectByPath(k.table, sel, path, fromMf)))
         == ByPath(Files(k), if fromMf then Selection(0, NONE) else sel, Components(path))
  {
    hide Good, Files, Walk, Down, SelectionFits, PathFid;
    var start := if fromMf then Reset else sel;
    GoodRoot(k, sel);
    SlotTold(k, start.df);
    var fids := Components(path);
    FirstComponent(path);
    assert fids[0..] == fids;
    if |path| <= 2 * MAX_DEPTH {
      if HasFid(k.table, start.df, fids[0]) {
        OwnStep(k.table, start, path);
        if |fids| > 1 {
          DownTold(k, start, path, 1);
        }
      } else {
        DownTold(k, start, path, 0);
      }
    }
  }

  lemma FirstComponent(path: seq<byte>)
    requires path != [] && |path| % 2 == 0
    ensures Components(path)[0] == PathFid(path, 0)
  {}

  lemma OwnStep(t: seq<Slot>, at: Selection, path: seq<byte>)
    requires |t| <= MAX_FILES && path != [] && |path| % 2 == 0 && HasFid(t, at.df, PathFid(path, 0))
    ensures Walk(t, at, path, 0) == Walk(t, at, path, 1)
    ensures |path| == 2 ==> Walk(t, at, path, 0) == Success(at)
  {
    hide HasFid, PathFid, WalkStep;
  }

  // ------------------------------------------------------------------ SELECT

  lemma WantedTold(k: Disk, sel: Selection, c: Command)
    requires Good(k) && |k.table| <= MAX_FILES && SelectionFits(k.table, sel)
    ensures PickOf(SelectTarget(k.table, sel, c)) == Wanted(Files(k), sel, c)
  {
    hide Good, Files, SelectByFid, SelectChild, SelectParent, SelectByPath, ByName, ByType, Up, ByPath, SelectionFits;
    if c.p1 == 0x00 {
      ByNameTold(k, sel, if |c.data| == 2 then U16(c.data[0], c.data[1]) else FID_MF);
    } else if c.p1 == 0x01 || c.p1 == 0x02 {
      if |c.data| == 2 {
        ByTypeTold(k, sel, U16(c.data[0], c.data[1]), c.p1 == 0x01);
      }
    } else if c.p1 == 0x03 {
      UpTold(k, sel);
    } else if (c.p1 == 0x08 || c.p1 == 0x09) && c.data != [] && |c.data| % 2 == 0 {
      ByPathTold(k, sel, c.data, c.p1 == 0x08);
    }
  }

  lemma ParametersTold(d: Desc)
    requires d.IsDf() == !Elementary(d)
    ensures Parameters(d) == F.FcpBytes(d)
  {
    hide Be16;
    Be16Bytes(d.fid);
    Be16Bytes(d.size);
  }

  /** The words and bytes of a SELECT that has found file i. */
  lemma EmitTold(t: seq<Slot>, c: Command, cap: nat, i: u16, ret: nat)
    requires ReadSlot(t, i).Success? && ret < 4
    requires var d := ReadSlot(t, i).value; d.IsDf() == !Elementary(d)
    ensures var (sw, rsp) := EmitFci(t, c, cap, i, ret);
            var out := T.Encoded(if ret == 1 then 0x62 else 0x6F, Parameters(ReadSlot(t, i).value));
            && |out| < 0x100
            && if ret == 2 then sw == 0x6A81 && rsp == R.Empty
               else if ret == 3 || !c.lePresent then sw == 0x9000 && rsp == R.Empty
               else if c.le < |out| then sw == 0x6C00 + |out| && rsp == R.Empty
               else if |out| + 2 > cap then sw == 0x6F00 && rsp.overflow
               else sw == 0x9000 && rsp == R.Rsp(out, false)
  {
    hide F.FcpBytes, Parameters, ReadSlot;
    ParametersTold(ReadSlot(t, i).value);
  }

  lemma SelectAgrees(k: Disk, sel: Selection, c: Command, cap: nat)
    requires Good(k) && |k.table| <= MAX_FILES && SelectionFits(k.table, sel)
    ensures Tells(k, CmdSelect(k.table, sel, c, cap), Keep, SelectTold(Files(k), sel, c, cap))
  {
    hide Good, Files, SelectTarget, Wanted, EmitFci, SelectionFits, Parameters, StatusSw, Be16, T.Encoded;
    WantedTold(k, sel, c);
    SelectTargetFits(k, sel, c);
    match SelectTarget(k.table, sel, c)
    case Malformed(_) =>
    case Chosen(Failure(_)) =>
    case Chosen(Success(next)) =>
      if c.p2 < 0x10 {
        IndexIsFile(k, next);
        SlotTold(k, next.Index());
        EmitTold(k.table, c, cap, next.Index(), c.p2 / 4);
      }
  }

  lemma IndexIsFile(k: Disk, sel: Selection)
    requires Good(k) && SelectionFits(k.table, sel)
    ensures sel.Index() as nat in Files(k)
  {}

  /**
    SELECT by identifier with no data asked for, exactly: 9000 and selection x
    if and only if the identifier means an activated file that x is the place of.
   */
  lemma SelectByIdExactly(k: Disk, sel: Selection, c: Command, cap: nat, x: Selection)
    requires Good(k) && |k.table| <= MAX_FILES && SelectionFits(k.table, sel)
    requires c.p1 == 0x00 && c.p2 == 0x0C && |c.data| == 2
    ensures CmdSelect(k.table, sel, c, cap).sw == SW_OK && CmdSelect(k.table, sel, c, cap).sel == x <==>
              exists i: u16 :: Meant(Files(k), sel.df, U16(c.data[0], c.data[1]), i)
                               && Activated(Files(k)[i].desc) && x == Place(Files(k), i)
  {
    hide Good, Files, SelectByFid, SelectionFits, Meant, Place, StatusSw;
    var fid := U16(c.data[0], c.data[1]);
    ByNameTold(k, sel, fid);
    forall i: u16, j: u16 | Meant(Files(k), sel.df, fid, i) && Meant(Files(k), sel.df, fid, j)
      ensures i == j
    {
      MeantTold(k, sel, fid, i);
      MeantTold(k, sel, fid, j);
    }
    forall e: Status
      ensures StatusSw(e) == SW_OK <==> e == Ok
    {
      StatusSwProper(e);
    }
  }

  // ---------------------------------------------------------- READ and UPDATE

  lemma ByShortTold(k: Disk, df: u16, sfi: byte, off: u16)
    requires Good(k) && |k.table| <= MAX_FILES && 1 <= sfi <= 30
    ensures ByShort(Files(k), df, sfi, off)
         == match BySfi(k.table, df, sfi)
            case Failure(e) => Nowhere(StatusSw(e))
            case Success(i) => There(i, off)
  {
    hide Good, Files, BySfi;
    GoodTree(k);
    ShortMissing(k.table, df, sfi);
    forall i: u16
      ensures HasSfi(Files(k), df, sfi, i) <==> BySfi(k.table, df, sfi) == Success(i)
    {
      ShortTarget(k, df, sfi, i);
    }
    if BySfi(k.table, df, sfi).Success? {
      assert HasSfi(Files(k), df, sfi, BySfi(k.table, df, sfi).value);
    }
  }

  lemma ShortMissing(t: seq<Slot>, df: u16, sfi: byte)
    requires |t| <= MAX_FILES && 1 <= sfi <= 30
    ensures BySfi(t, df, sfi).Failure? ==> BySfi(t, df, sfi).error == ErrNotFound
  {}

  lemma AddressedTold(k: Disk, sel: Selection, p1: byte, p2: byte)
    requires Good(k) && |k.table| <= MAX_FILES && SelectionFits(k.table, sel)
    ensures Addressed(Files(k), sel, p1, p2)
         == match BinaryTarget(k.table, sel, p1, p2)
            case NoTarget(sw) => Nowhere(sw)
            case At(i, off) => There(i, off)
    ensures match Addressed(Files(k), sel, p1, p2)
            case There(i, off) => i as nat in Files(k) && Elementary(Files(k)[i].desc)
            case Nowhere(_) => true
  {
    hide Good, Files, BySfi, ByShort;
    if 0x80 < p1 <= 0x9E {
      ByShortTold(k, sel.df, p1 - 0x80, p2);
      ByShortIsEf(Files(k), sel.df, p1 - 0x80, p2);
    } else if p1 == 0x9F {
      NoSuchShort(k.table, sel.df);
    }
    FilesAre(k);
  }

  lemma NoSuchShort(t: seq<Slot>, df: u16)
    requires |t| <= MAX_FILES
    ensures BySfi(t, df, 0x1F) == Failure(ErrParam)
  {}

  lemma ByShortIsEf(m: map<nat, File>, df: u16, sfi: byte, off: u16)
    ensures match ByShort(m, df, sfi, off)
            case There(i, _) => i as nat in m && Elementary(m[i].desc)
            case Nowhere(_) => true
  {}

  /** Why an EF cannot be used: it is not activated. */
  lemma EfTold(k: Disk, i: u16)
    requires Good(k) && i as nat in Files(k) && Elementary(Files(k)[i].desc)
    ensures if Activated(Files(k)[i].desc) then IsOpenEf(Files(k), i)
            else EfOf(k.table, i) == Failure(ErrNotUsable) && !IsOpenEf(Files(k), i)
  {
    hide Good, Files, ReadSlot;
    SlotTold(k, i);
  }

  lemma ReadFailure(k: Disk, i: u16, off: u16, le: u16)
    requires Good(k) && i as nat in Files(k) && Elementary(Files(k)[i].desc)
    requires EfRead(k.table, k.flash, i, off, le).Failure?
    ensures EfRead(k.table, k.flash, i, off, le).error
         == if Activated(Files(k)[i].desc) then ErrRange else ErrNotUsable
  {
    hide Good, Files, EfOf;
    EfTold(k, i);
    EfExactly(k, i);
  }

  /** The read of an addressed EF. */
  lemma ReadAt(k: Disk, i: u16, off: u16, le: u16)
    requires Good(k) && i as nat in Files(k) && Elementary(Files(k)[i].desc)
    ensures var f, r := Files(k)[i], EfRead(k.table, k.flash, i, off, le);
            if !Activated(f.desc) then r == Failure(ErrNotUsable)
            else if off > |f.content| then r == Failure(ErrRange)
            else r == Success(SliceAt(f.content, off, le))
  {
    hide Good, Files, EfRead;
    EfTold(k, i);
    ReadableExactly(k, i, off, le);
    if EfRead(k.table, k.flash, i, off, le).Failure? {
      ReadFailure(k, i, off, le);
    }
  }

  /** Data that is put whole into the response, or 6F00 when there is no room for it. */
  lemma PutTold(out: seq<byte>, cap: nat, sw: u16)
    ensures var (ok, rsp) := R.Put(R.Empty, cap, out);
            R.Finish(rsp, if ok then sw else 0x6F00)
            == if out != [] && |out| + 2 > cap then [] + Be16(0x6F00) else out + Be16(sw)
  {
    hide Be16;
  }

  lemma RefusalTold(sw: u16)
    ensures R.Finish(R.Empty, sw) == [] + Be16(sw)
  {
    hide Be16;
  }

  lemma ReadAgrees(k: Disk, sel: Selection, c: Command, cap: nat)
    requires Good(k) && |k.table| <= MAX_FILES && SelectionFits(k.table, sel)
    ensures Tells(k, CmdRead(k.table, k.flash, sel, c, cap), Keep, ReadTold(Files(k), sel, c, cap))
  {
    hide Good, Files, BinaryTarget, Addressed, EfRead, SelectionFits, Be16, R.Finish, R.Put;
    AddressedTold(k, sel, c.p1, c.p2);
    RefusalTold(CmdRead(k.table, k.flash, sel, c, cap).sw);
    match Addressed(Files(k), sel, c.p1, c.p2)
    case Nowhere(_) =>
    case There(i, off) =>
      if c.le <= 256 {
        ReadAt(k, i, off, c.le);
        var r := EfRead(k.table, k.flash, i, off, c.le);
        if r.Success? {
          PutTold(r.value, cap, if |r.value| < c.le then 0x6282 else 0x9000);
        }
      }
  }

  lemma WriteFailure(k: Disk, i: u16, off: u16, data: seq<byte>)
    requires Good(k) && i as nat in Files(k) && Elementary(Files(k)[i].desc) && data != []
    ensures var w := EfWrite(k.table, |k.flash|, i, off, data);
            if !Activated(Files(k)[i].desc) then w == Refused(ErrNotUsable)
            else if off + |data| > |Files(k)[i].content| then w == Refused(ErrRange)
            else w.Accepted? && |w.writes| == 1 && w.writes[0].WriteData?
  {
    hide Good, Files, EfOf;
    EfTold(k, i);
    EfExactly(k, i);
  }

  lemma UpdateAgrees(k: Disk, sel: Selection, c: Command)
    requires Good(k) && |k.table| <= MAX_FILES && SelectionFits(k.table, sel)
    ensures Tells(k, CmdUpdate(k.table, |k.flash|, sel, c), UpdateChange(k, sel, c), UpdateTold(Files(k), sel, c))
  {
    hide Good, Files, BinaryTarget, Addressed, EfWrite, SelectionFits, Be16;
    AddressedTold(k, sel, c.p1, c.p2);
    TargetProper(k.table, sel, c.p1, c.p2);
    match Addressed(Files(k), sel, c.p1, c.p2)
    case Nowhere(_) =>
    case There(i, off) =>
      if c.data != [] {
        WriteFailure(k, i, off, c.data);
      }
  }

  // -------------------------------------------------------- CREATE and DELETE

  lemma CreateAgrees(k: Disk, sel: Selection, c: Command)
    requires Good(k) && |k.table| <= MAX_FILES && SelectionFits(k.table, sel)
    ensures Tells(k, CmdCreate(k.table, k.top, |k.flash|, sel, c), CreateChange(k, sel, c),
                  CreateTold(Files(k), k.top, |k.flash|, sel, c))
  {
    hide Good, Files, Create, SelectionFits, Be16, F.ParseFcp, FX.Wish, Taken, IsNextSlot, Fresh, NewFile;
    FX.ParseIsWish(c.data);
    RejectionProper(c.data);
    match F.ParseFcp(c.data)
    case Rejected(_) =>
    case Request(req) =>
      F.ParsedRequestIsValid(c.data);
      PlainRequest(c.data, req);
      PlanTold(k, sel, req);
  }

  lemma PlainRequest(body: seq<byte>, req: Desc)
    requires F.ParseFcp(body) == F.Request(req)
    ensures req.acRead == 0 && req.acUpdate == 0
  {
    hide F.ParseFcp, FX.StandsAlone;
    FX.AcceptedExactly(body, req);
  }

  lemma CheckedType(req: Desc)
    requires CheckRequest(req) == Ok
    ensures req.ftype == TYPE_EF <==> Elementary(req)
    ensures !ReservedFid(req.fid)
  {}

  /** The plan for a request that parsed. */
  lemma PlanTold(k: Disk, sel: Selection, req: Desc)
    requires Good(k) && |k.table| <= MAX_FILES && SelectionFits(k.table, sel)
    requires CheckRequest(req) == (if ReservedFid(req.fid) then ErrExists else Ok) && req.acRead == req.acUpdate == 0
    ensures var p, m := Create(k.table, k.top, |k.flash|, sel, req), Files(k);
            if ReservedFid(req.fid) || Taken(m, sel.df, req) then p == Refused(ErrExists)
            else if !exists i: nat :: IsNextSlot(m, i) then p == Refused(ErrNoSpace)
            else if Elementary(req) && k.top + req.size > |k.flash| then p == Refused(ErrNoSpace)
            else && p.Accepted? && (forall i: nat | IsNextSlot(m, i) :: p.slot == i)
                 && NewFile(k, sel, req) == Fresh(req, sel.df, k.top)
                 && WritesFit(k, p.writes, Add(p.slot, NewFile(k, sel, req)))
  {
    hide Good, Files, First, Found, CheckRequest, Taken, IsNextSlot, ReservedFid;
    GoodTree(k);
    TakenExactly(k, sel.df, req);
    SlotsTold(k);
    if CheckRequest(req) == Ok {
      CheckedType(req);
    }
  }

  lemma SlotsTold(k: Disk)
    requires Good(k)
    ensures (exists i: nat :: IsNextSlot(Files(k), i)) <==> Found(k.table, FreeSlot)
    ensures forall i: nat | IsNextSlot(Files(k), i) :: First(k.table, FreeSlot, 0) == i
  {
    hide Good, Files, First, Found, IsNextSlot;
    GoodTree(k);
    forall i: nat
      ensures IsNextSlot(Files(k), i) <==> Found(k.table, FreeSlot) && First(k.table, FreeSlot, 0) == i
    {
      NextSlotExactly(k, i);
    }
    if Found(k.table, FreeSlot) {
      assert IsNextSlot(Files(k), First(k.table, FreeSlot, 0));
    }
  }

  lemma DeleteAgrees(k: Disk, sel: Selection, c: Command)
    requires Good(k) && |k.table| <= MAX_FILES && SelectionFits(k.table, sel)
    ensures Tells(k, CmdDelete(k.table, sel, c), DeleteChange(k, sel, c), DeleteTold(Files(k), sel, c))
  {
    hide Good, Files, SelectionFits, Be16, Child, Found, HasChild;
    if |c.data| == 2 {
      var fid := Num16(c.data);
      GoodTree(k);
      ChildTold(k, sel.df, fid);
      if Child(k.table, sel.df, fid).Success? {
        var i := Child(k.table, sel.df, fid).value;
        assert InDf(Files(k), sel.df, fid, i);
        DeleteChild(k, sel, fid, i);
      }
    }
  }

  lemma DeleteChild(k: Disk, sel: Selection, fid: u16, i: u16)
    requires Good(k) && SelectionFits(k.table, sel) && InDf(Files(k), sel.df, fid, i)
    ensures i < |k.table| && k.table[i].Live? && k.table[i].desc.ftype != TYPE_MF && i != sel.df
    ensures k.table[i].desc.IsDf() && Found(k.table, AnyChild(i)) <==> HasChild(Files(k), i)
  {
    hide Files, Found, HasChild, Extents, ErasedFrom, Clash;
    FilesAre(k);
    ChildlessExactly(k, i);
    RootIsNoChild(k.table, i, sel.df);
    NotOwnParent(k.table, i);
    if k.table[i].desc.IsEf() {
      EfHasNoChildren(k.table, i);
    }
  }

  // ------------------------------------------------------------- any command

  /** Every command on every good disk is answered, and acts, as told. */
  lemma CommandAgrees(k: Disk, sel: Selection, c: Command, cap: nat)
    requires Good(k) && |k.table| <= MAX_FILES && |k.flash| < 0x1_0000_0000 && SelectionFits(k.table, sel)
    ensures Tells(k, Dispatch(k, sel, c, cap), Meaning(k, sel, c),
                  CommandTold(Files(k), k.top, |k.flash|, sel, c, cap))
  {
    hide Good, Files, SelectionFits, CmdSelect, CmdRead, CmdUpdate, CmdCreate, CmdDelete, SelectTold, ReadTold,
      UpdateTold, CreateTold, DeleteTold, UpdateChange, CreateChange, DeleteChange, WritesFit;
    if c.ins == INS_SELECT {
      SelectAgrees(k, sel, c, cap);
    } else if c.ins == INS_READ_BINARY {
      ReadAgrees(k, sel, c, cap);
    } else if c.ins == INS_UPDATE_BINARY {
      UpdateAgrees(k, sel, c);
    } else if c.ins == INS_CREATE_FILE {
      CreateAgrees(k, sel, c);
    } else if c.ins == INS_DELETE_FILE {
      DeleteAgrees(k, sel, c);
    } else {
      NothingWritten(k);
    }
  }

  lemma NothingWritten(k: Disk)
    ensures WritesFit(k, [], Keep)
  {}

  // ------------------------------------------------------------ after DELETE

  lemma ShortOnce(k: Disk, df: u16, sfi: byte, i: u16, j: u16)
    requires Good(k) && sfi != 0 && HasSfi(Files(k), df, sfi, i) && HasSfi(Files(k), df, sfi, j)
    ensures i == j
  {
    hide Good, Files, BySfi;
    GoodTree(k);
    SlotTold(k, i);
    ShortTarget(k, df, sfi, i);
    ShortTarget(k, df, sfi, j);
  }

  /** With file i gone, P1-P2 name what they named before, unless it was file i. */
  lemma OtherAddressed(k: Disk, sel: Selection, i: u16, p1: byte, p2: byte)
    requires Good(k) && Addressed(Files(k), sel, p1, p2) != There(i, if p1 < 0x80 then U16(p1, p2) else p2)
    ensures Addressed(Files(k) - {i as nat}, Selection(sel.df, if sel.ef == i then NONE else sel.ef), p1, p2)
         == Addressed(Files(k), sel, p1, p2)
  {
    hide Good, Files;
    if 0x80 < p1 <= 0x9E {
      var m, sfi := Files(k), p1 - 0x80;
      var rest := m - {i as nat};
      assert forall n: u16 :: HasSfi(rest, sel.df, sfi, n) <==> HasSfi(m, sel.df, sfi, n) && n != i;
      assert ByShort(m, sel.df, sfi, p2) != There(i, p2);
      if j: u16 :| HasSfi(m, sel.df, sfi, j) {
        forall n: u16 | HasSfi(m, sel.df, sfi, n)
          ensures n == j
        {
          ShortOnce(k, sel.df, sfi, j, n);
        }
        assert ByShort(m, sel.df, sfi, p2) == There(j, p2);
        assert HasSfi(rest, sel.df, sfi, j);
        assert ByShort(rest, sel.df, sfi, p2) == There(j, p2);
      }
    }
  }

  /** After an accepted DELETE, a READ that does not name the deleted file is answered as before. */
  lemma DeleteSparesReads(k: Disk, sel: Selection, d: Command, c: Command, cap: nat)
    requires Good(k) && SelectionFits(k.table, sel) && DeleteTold(Files(k), sel, d).sw == 0x9000
    ensures var r := DeleteTold(Files(k), sel, d);
            && r.change.Remove?
            && match Addressed(Files(k), sel, c.p1, c.p2)
               case There(i, _) =>
                 i as nat != r.change.slot ==>
                   ReadTold(Apply(Files(k), r.change), r.sel, c, cap)
                   == ReadTold(Files(k), sel, c, cap).(sel := r.sel)
               case Nowhere(_) => true
  {
    hide Good, Files, Addressed, HasChild, SelectionFits;
    var r := DeleteTold(Files(k), sel, d);
    match Addressed(Files(k), sel, c.p1, c.p2)
    case Nowhere(_) =>
    case There(i, _) =>
      if i as nat != r.change.slot {
        OtherAddressed(k, sel, r.change.slot, c.p1, c.p2);
        AddressedIn(k, sel, c.p1, c.p2);
      }
  }

  lemma AddressedIn(k: Disk, sel: Selection, p1: byte, p2: byte)
    requires Good(k) && SelectionFits(k.table, sel)
    ensures match Addressed(Files(k), sel, p1, p2)
            case There(i, _) => i as nat in Files(k)
            case Nowhere(_) => true
  {
    hide Good, Files, Addressed, SelectionFits;
    GoodTree(k);
    AddressedTold(k, sel, p1, p2);
  }
}
