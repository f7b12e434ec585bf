/**
  A card whose filesystem did not come up. It is meant to answer 6581 to
  everything; a warm reset makes it operational all the same, and what it
  then serves depends on whether its superblock could be mounted.
 */
module FsErrorCard {
  import opened Bytes
  import opened StatusWords
  import opened Apdu
  import opened FsTypes
  import opened NvmLayout
  import opened FsStore
  import opened FileTree
  import opened SlotSearch
  import opened FileMap
  import opened Commands
  import opened Factory
  import opened CardMachine
  import opened CardSurface
  import opened CardNavigation
  import opened CardRuns
  import opened TreeInvariant
  import opened Crc16
  import R = Response
  import F = Fcp

  // -------------------------------------------------------- until the reset

  /** One command after another. */
  ghost function SendAll(card: Card, cmds: seq<seq<byte>>, cap: nat): (r: Card)
    requires Sound(card.store)
    ensures Sound(r.store)
    decreases |cmds|
  {
    if cmds == [] then card else SendAll(Process(card, cmds[0], cap).0, cmds[1..], cap)
  }

  /** Whatever is sent, and however much: 6581, and nothing changes. */
  lemma {:induction false} SixFiveEightOne(card: Card, cmds: seq<seq<byte>>, cmd: seq<byte>, cap: nat)
    requires Sound(card.store) && card.life == FsError
    ensures SendAll(card, cmds, cap) == card
    ensures Process(SendAll(card, cmds, cap), cmd, cap) == (card, Be16(SW_MEMORY_FAILURE))
    decreases |cmds|
  {
    hide Sound, Be16;
    ErrorAnswer(card, cmd, cap);
    if cmds != [] {
      ErrorAnswer(card, cmds[0], cap);
      SixFiveEightOne(card, cmds[1..], cmd, cap);
    }
  }

  lemma ErrorAnswer(card: Card, cmd: seq<byte>, cap: nat)
    requires Sound(card.store) && card.life == FsError
    ensures Process(card, cmd, cap) == (card, Be16(SW_MEMORY_FAILURE))
  {
    hide Dispatch, View, Parse, Be16;
    assert [] + Be16(SW_MEMORY_FAILURE) == Be16(SW_MEMORY_FAILURE);
  }

  // ------------------------------------------------- after it, not mounted

  lemma EmptyTable(t: seq<Slot>, q: Query)
    requires t == []
    ensures First(t, q, 0) == 0 && !Found(t, q)
  {}

  lemma NoWalk(sel: Selection, path: seq<byte>, fromMf: bool)
    ensures SelectByPath([], sel, path, fromMf).Failure?
  {
    if |path| % 2 == 0 && |path| > 0 {
      var at := if fromMf then Reset else sel;
      EmptyTable([], ChildOf(at.df, PathFid(path, 0)));
      assert WalkStep([], at, PathFid(path, 0), |path| == 2).Failure?;
    }
  }

  lemma NothingSelected(sel: Selection, c: Command)
    ensures SelectTarget([], sel, c).Malformed? || SelectTarget([], sel, c).result.Failure?
  {
    hide SelectByPath;
    NoWalk(sel, c.data, c.p1 == 0x08);
    if |c.data| == 2 {
      EmptyTable([], ChildOf(sel.df, Num16(c.data)));
    }
  }

  lemma MalformedIsNoSuccess(t: seq<Slot>, sel: Selection, c: Command)
    requires |t| <= MAX_FILES
    ensures SelectTarget(t, sel, c).Malformed? ==> SelectTarget(t, sel, c).sw != SW_OK
  {
    hide SelectByFid, SelectChild, SelectParent, SelectByPath;
  }

  lemma SelectRefused(sel: Selection, c: Command, cap: nat)
    ensures CmdSelect([], sel, c, cap).sw != SW_OK
  {
    hide SelectTarget, StatusSw, EmitFci;
    NothingSelected(sel, c);
    MalformedIsNoSuccess([], sel, c);
    match SelectTarget([], sel, c)
    case Malformed(_) =>
    case Chosen(Failure(e)) => ChosenError([], sel, c);
  }

  lemma NoEf(i: u16)
    ensures EfOf([], i).Failure?
  {}

  lemma BinaryRefused(flash: seq<byte>, sel: Selection, c: Command, cap: nat)
    ensures CmdRead([], flash, sel, c, cap).sw != SW_OK && CmdUpdate([], |flash|, sel, c).sw != SW_OK
  {
    hide BinaryTarget, EfOf, StatusSw;
    TargetProper([], sel, c.p1, c.p2);
    var at := BinaryTarget([], sel, c.p1, c.p2);
    if at.At? {
      NoEf(at.index);
      StatusSwProper(EfOf([], at.index).error);
    }
  }

  lemma FileCommandsRefused(top: u32, flashSize: nat, sel: Selection, c: Command)
    requires flashSize < 0x1_0000_0000
    ensures CmdCreate([], top, flashSize, sel, c).sw != SW_OK && CmdDelete([], sel, c).sw != SW_OK
  {
    hide F.ParseFcp;
    RejectionProper(c.data);
    if |c.data| == 2 {
      EmptyTable([], ChildOf(sel.df, Num16(c.data)));
    }
  }

  /** With no table to look at, no command is answered 9000. */
  lemma NothingServed(k: Disk, sel: Selection, c: Command, cap: nat)
    requires k.table == [] && |k.flash| < 0x1_0000_0000
    ensures Dispatch(k, sel, c, cap).sw != SW_OK
  {
    hide CmdSelect, CmdRead, CmdUpdate, CmdCreate, CmdDelete;
    SelectRefused(sel, c, cap);
    BinaryRefused(k.flash, sel, c, cap);
    FileCommandsRefused(k.top, |k.flash|, sel, c);
  }

  lemma UnmountedView(s: Store)
    requires Sound(s) && !s.sb.mounted
    ensures View(s).table == [] && |View(s).flash| < 0x1_0000_0000
  {}

  /** An unmounted card, operational or not, answers nothing with 9000 and stays as it is. */
  lemma UnmountedServesNothing(card: Card, cmd: seq<byte>, cap: nat)
    requires Sound(card.store) && !card.store.sb.mounted && cap >= 2
    ensures var (card', out) := Process(card, cmd, cap); card' == card && |out| >= 2 && StatusOf(out) != SW_OK
  {
    hide Answered, Dispatch, View, Parse, Sound, R.Finish, CheckCla;
    EveryByteString(card, cmd, cap);
    var a := Answered(card, cmd, cap);
    FinishStatus(a.rsp, a.sw);
    if card.life == Operational && Parse(cmd).Parsed? && CheckCla(Parse(cmd).cmd.cla) == ClaOk {
      DispatchedAnswer(card, cmd, cap);
      UnmountedView(card.store);
      NothingServed(View(card.store), card.sel, Parse(cmd).cmd, cap);
    } else {
      RefusalProper(card, cmd);
    }
  }

  // ------------------------------------------------ after it, in either case

  /** The lowest child of slot 0 with this identifier can be selected, or deleted. */
  ghost predicate ServableChild(t: seq<Slot>, fid: u16) {
    var i := First(t, ChildOf(ROOT, fid), 0);
    i < |t| && (t[i].desc.Usable() || DeletableChild(t, fid))
  }

  /** The lowest child of slot 0 with this identifier is an EF or an empty DF. */
  ghost predicate DeletableChild(t: seq<Slot>, fid: u16) {
    var i := First(t, ChildOf(ROOT, fid), 0);
    && i < |t| && i < 0x10000 && fid != FID_MF && t[i].desc.ftype != TYPE_MF
    && !(t[i].desc.IsDf() && Found(t, AnyChild(i)))
  }

  /** The lowest EF of slot 0 with this short identifier can be read. */
  ghost predicate ServableSfi(t: seq<Slot>, sfi: byte) {
    var i := First(t, SfiUnder(ROOT, sfi), 0);
    1 <= sfi <= 30 && i < |t| && t[i].desc.Usable() && t[i].desc.size > 0
  }

  /** Slot 0 is readable, whatever it holds, or something that names it as its parent can be used. */
  ghost predicate Servable(t: seq<Slot>) {
    || (|t| > 0 && t[0].Live?)
    || (exists fid: u16 :: ServableChild(t, fid))
    || (exists sfi: byte :: ServableSfi(t, sfi))
  }

  // ------------------------------------------------------ 9000 needs as much

  lemma ChildServes(t: seq<Slot>, fid: u16)
    requires |t| <= MAX_FILES && Child(t, ROOT, fid).Success? && Resolve(t, Child(t, ROOT, fid).value).Success?
    ensures Servable(t)
  {
    hide First;
    assert ServableChild(t, fid);
  }

  lemma RootServes(t: seq<Slot>)
    requires ReadSlot(t, ROOT).Success?
    ensures Servable(t)
  {
    hide First, Found;
  }

  lemma PathServes(t: seq<Slot>, path: seq<byte>)
    requires |t| <= MAX_FILES && |path| % 2 == 0 && |path| > 0 && Walk(t, Reset, path, 0).Success?
    ensures Servable(t)
  {
    hide Servable, Child, Resolve, ReadSlot;
    var fid := PathFid(path, 0);
    if HasFid(t, ROOT, fid) {
      RootServes(t);
    } else {
      ChildServes(t, fid);
    }
  }

  lemma FidServes(t: seq<Slot>, fid: u16)
    requires |t| <= MAX_FILES && SelectByFid(t, Reset, fid).Success?
    ensures Servable(t)
  {
    hide Servable, Child, ReadSlot;
    if fid != FID_MF && Child(t, ROOT, fid).Success? {
      ChildServes(t, fid);
    } else {
      RootServes(t);
    }
  }

  lemma TargetServes(t: seq<Slot>, c: Command)
    requires |t| <= MAX_FILES
    requires SelectTarget(t, Reset, c).Chosen? && SelectTarget(t, Reset, c).result.Success?
    ensures Servable(t)
  {
    hide Servable, SelectByFid, Walk, Child, ReadSlot, Num16, Resolve;
    if c.p1 == 0x00 {
      FidServes(t, if c.data == [] then FID_MF else Num16(c.data));
    } else if c.p1 == 0x01 || c.p1 == 0x02 {
      ChildServes(t, Num16(c.data));
    } else if c.p1 == 0x03 {
      RootServes(t);
    } else {
      PathServes(t, c.data);
    }
  }

  lemma SelectServes(t: seq<Slot>, c: Command, cap: nat)
    requires |t| <= MAX_FILES && CmdSelect(t, Reset, c, cap).sw == SW_OK
    ensures Servable(t)
  {
    hide Servable, SelectTarget, StatusSw, EmitFci;
    MalformedIsNoSuccess(t, Reset, c);
    match SelectTarget(t, Reset, c)
    case Malformed(_) =>
    case Chosen(Failure(e)) => ChosenError(t, Reset, c);
    case Chosen(Success(_)) => TargetServes(t, c);
  }

  lemma ChosenError(t: seq<Slot>, sel: Selection, c: Command)
    requires |t| <= MAX_FILES
    ensures var r := SelectTarget(t, sel, c);
            r.Chosen? && r.result.Failure? ==> StatusSw(r.result.error) != SW_OK
  {
    hide SelectByFid, SelectChild, SelectParent, SelectByPath, StatusSw;
    var r := SelectTarget(t, sel, c);
    if r.Chosen? && r.result.Failure? {
      StatusSwProper(r.result.error);
    }
  }

  /** From the reset selection only the short form names a file. */
  lemma ShortForm(t: seq<Slot>, p1: byte, p2: byte)
    requires |t| <= MAX_FILES && BinaryTarget(t, Reset, p1, p2).At?
    ensures var i := BinaryTarget(t, Reset, p1, p2).index;
            && 1 <= p1 % 0x20 <= 30 && i as nat < |t| && i as nat == First(t, SfiUnder(ROOT, p1 % 0x20), 0)
  {
    hide First;
  }

  lemma SfiServes(t: seq<Slot>, p1: byte, p2: byte)
    requires |t| <= MAX_FILES && BinaryTarget(t, Reset, p1, p2).At?
    requires var ef := EfOf(t, BinaryTarget(t, Reset, p1, p2).index); ef.Success? && ef.value.size > 0
    ensures Servable(t)
  {
    hide First, Found, BinaryTarget;
    ShortForm(t, p1, p2);
    assert ServableSfi(t, p1 % 0x20);
  }

  lemma ReadServes(t: seq<Slot>, flash: seq<byte>, c: Command, cap: nat)
    requires |t| <= MAX_FILES && CmdRead(t, flash, Reset, c, cap).sw == SW_OK && (c.lePresent ==> c.le >= 1)
    ensures Servable(t)
  {
    hide Servable, BinaryTarget, StatusSw, EfOf;
    TargetProper(t, Reset, c.p1, c.p2);
    var at := BinaryTarget(t, Reset, c.p1, c.p2);
    if EfRead(t, flash, at.index, at.offset, c.le).Failure? {
      StatusSwProper(EfRead(t, flash, at.index, at.offset, c.le).error);
    }
    SfiServes(t, c.p1, c.p2);
  }

  lemma UpdateServes(t: seq<Slot>, flashSize: nat, c: Command)
    requires |t| <= MAX_FILES && CmdUpdate(t, flashSize, Reset, c).sw == SW_OK
    ensures Servable(t)
  {
    hide Servable, BinaryTarget, StatusSw, EfOf;
    TargetProper(t, Reset, c.p1, c.p2);
    var at := BinaryTarget(t, Reset, c.p1, c.p2);
    if EfWrite(t, flashSize, at.index, at.offset, c.data).Refused? {
      StatusSwProper(EfWrite(t, flashSize, at.index, at.offset, c.data).error);
    }
    SfiServes(t, c.p1, c.p2);
  }

  lemma CreateServes(t: seq<Slot>, top: u32, flashSize: nat, c: Command)
    requires |t| <= MAX_FILES && flashSize < 0x1_0000_0000 && CmdCreate(t, top, flashSize, Reset, c).sw == SW_OK
    ensures Servable(t)
  {
    hide Servable, F.ParseFcp, StatusSw, Found, First, CheckRequest;
    RejectionProper(c.data);
    if ReadSlot(t, ROOT).Failure? {
      StatusSwProper(ReadSlot(t, ROOT).error);
    } else {
      RootServes(t);
    }
  }

  lemma DeleteServes(t: seq<Slot>, c: Command)
    requires |t| <= MAX_FILES && CmdDelete(t, Reset, c).sw == SW_OK
    ensures Servable(t)
  {
    hide First, Found, StatusSw, Num16, Deselect;
    if |c.data| == 2 && Delete(t, Reset, Num16(c.data)).Refused? {
      StatusSwProper(Delete(t, Reset, Num16(c.data)).error);
    }
    assert ServableChild(t, Num16(c.data));
  }

  lemma DispatchServes(k: Disk, c: Command, cap: nat)
    requires |k.table| <= MAX_FILES && |k.flash| < 0x1_0000_0000 && (c.lePresent ==> c.le >= 1)
    requires Dispatch(k, Reset, c, cap).sw == SW_OK
    ensures Servable(k.table)
  {
    hide Servable, CmdSelect, CmdRead, CmdUpdate, CmdCreate, CmdDelete;
    if c.ins == INS_SELECT {
      SelectServes(k.table, c, cap);
    } else if c.ins == INS_READ_BINARY {
      ReadServes(k.table, k.flash, c, cap);
    } else if c.ins == INS_UPDATE_BINARY {
      UpdateServes(k.table, |k.flash|, c);
    } else if c.ins == INS_CREATE_FILE {
      CreateServes(k.table, k.top, |k.flash|, c);
    } else {
      DeleteServes(k.table, c);
    }
  }

  // ------------------------------------------------------ and it is enough

  /** A command string whose handler says 9000 is answered 9000. */
  lemma HandlerDecides(card: Card, cmd: seq<byte>, cap: nat)
    requires Sound(card.store) && card.life == Operational && cap >= 2
    requires Parse(cmd).Parsed? && Parse(cmd).cmd.cla == 0
    ensures |View(card.store).table| <= MAX_FILES && |View(card.store).flash| < 0x1_0000_0000
    ensures |Process(card, cmd, cap).1| >= 2
    ensures StatusOf(Process(card, cmd, cap).1) == SW_OK <==>
              Dispatch(View(card.store), card.sel, Parse(cmd).cmd, cap).sw == SW_OK
  {
    hide Answered, Dispatch, View, Parse, Sound, R.Finish, CheckCla;
    OnlyClassZero(0);
    SoundSizes(card.store);
    DispatchedAnswer(card, cmd, cap);
    var a := Answered(card, cmd, cap);
    FinishStatus(a.rsp, a.sw);
    DispatchProper(View(card.store), card.sel, Parse(cmd).cmd, cap);
  }

  lemma PathSelected(t: seq<Slot>, c: Command, cap: nat)
    requires 0 < |t| <= MAX_FILES && t[0].Live? && c.p1 == 0x08 && c.p2 == 0x0C
    requires |c.data| == 2 && Num16(c.data) == t[0].desc.fid
    ensures CmdSelect(t, Reset, c, cap).sw == SW_OK
  {
    assert Walk(t, Reset, c.data, 1) == Success(Reset);
    assert HasFid(t, ROOT, PathFid(c.data, 0));
    assert SelectByPath(t, Reset, c.data, true) == Success(Reset);
  }

  lemma ChildSelected(t: seq<Slot>, fid: u16, c: Command, cap: nat)
    requires |t| <= MAX_FILES && First(t, ChildOf(ROOT, fid), 0) < |t|
    requires var d := t[First(t, ChildOf(ROOT, fid), 0)].desc; d.Usable() && c.p1 == if d.IsDf() then 1 else 2
    requires c.ins == INS_SELECT && c.p2 == 0x0C && |c.data| == 2 && Num16(c.data) == fid
    ensures CmdSelect(t, Reset, c, cap).sw == SW_OK
  {
    hide First, Num16, CmdSelect;
    var g := Goal(t, Reset, c.p1, fid);
    SelectHandled(t, Reset, c, cap, g.value);
  }

  function DeleteString(fid: u16): seq<byte> {
    [0x00, INS_DELETE_FILE, 0x00, 0x00, 2, fid / 0x100, fid % 0x100]
  }

  lemma DeleteParsed(fid: u16)
    ensures var c := Command(0x00, INS_DELETE_FILE, 0, 0, DeleteString(fid)[5..], 0, false, Case3);
            && Parse(DeleteString(fid)) == Parsed(c) && |c.data| == 2 && Num16(c.data) == fid
  {}

  lemma ChildDeleted(t: seq<Slot>, fid: u16, c: Command)
    requires |t| <= MAX_FILES && DeletableChild(t, fid)
    requires c.p1 == 0 && c.p2 == 0 && |c.data| == 2 && Num16(c.data) == fid
    ensures CmdDelete(t, Reset, c).sw == SW_OK
  {
    hide First, Found, Num16;
  }

  /** READ BINARY of one byte by short identifier. */
  function ReadString(sfi: byte): seq<byte>
    requires sfi <= 30
  {
    [0x00, INS_READ_BINARY, 0x80 + sfi, 0x00, 0x01]
  }

  lemma OneByteRead(t: seq<Slot>, flash: seq<byte>, sfi: byte, c: Command)
    requires |t| <= MAX_FILES && ServableSfi(t, sfi)
    requires t[First(t, SfiUnder(ROOT, sfi), 0)].desc.off + 1 <= |flash|
    requires c.p1 == 0x80 + sfi && c.p2 == 0 && c.data == [] && c.lePresent && c.le == 1
    ensures CmdRead(t, flash, Reset, c, 3).sw == SW_OK
  {
    hide First;
    var i := First(t, SfiUnder(ROOT, sfi), 0);
    assert c.p1 / 0x20 % 4 == 0 && c.p1 % 0x20 == sfi;
    assert BinaryTarget(t, Reset, c.p1, c.p2) == At(i, 0);
  }

  lemma EfsInFlash(s: Store, i: nat)
    requires Sound(s) && i < |Table(s)| && Table(s)[i].Live? && Table(s)[i].desc.IsEf()
    ensures Table(s)[i].desc.off + Table(s)[i].desc.size <= |s.flash|
  {
    hide DescFields;
  }

  /** A string that is answered 9000 straight after the reset. */
  lemma ServingString(card: Card) returns (cmd: seq<byte>)
    requires Sound(card.store) && card.life == Operational && card.sel == Reset && Servable(Table(card.store))
    ensures |Process(card, cmd, 3).1| >= 2 && StatusOf(Process(card, cmd, 3).1) == SW_OK
  {
    hide Process, Table, Sound, Parse, First, Found, SelectString, CmdSelect, CmdRead, CmdUpdate, CmdCreate, CmdDelete,
      DeletableChild, Num16;
    SoundSizes(card.store);
    var t := View(card.store).table;
    if |t| > 0 && t[0].Live? {
      cmd := SelectString(8, t[0].desc.fid);
      SelectParsed(8, t[0].desc.fid);
      PathSelected(t, Parse(cmd).cmd, 3);
    } else if fid: u16 :| ServableChild(t, fid) {
      cmd := ChildString(t, fid, card.store.flash);
    } else {
      var sfi: byte :| ServableSfi(t, sfi);
      cmd := ReadString(sfi);
      ReadParsed(sfi);
      EfsInFlash(card.store, First(t, SfiUnder(ROOT, sfi), 0));
      OneByteRead(t, card.store.flash, sfi, Parse(cmd).cmd);
    }
    HandlerDecides(card, cmd, 3);
  }

  lemma ReadParsed(sfi: byte)
    requires sfi <= 30
    ensures Parse(ReadString(sfi)) == Parsed(Command(0, INS_READ_BINARY, 0x80 + sfi, 0, [], 1, true, Case2))
  {}

  lemma ChildString(t: seq<Slot>, fid: u16, flash: seq<byte>) returns (cmd: seq<byte>)
    requires |t| <= MAX_FILES && ServableChild(t, fid) && |flash| < 0x1_0000_0000
    ensures Parse(cmd).Parsed? && Parse(cmd).cmd.cla == 0
    ensures forall top: u32 :: Dispatch(Disk(t, top, flash), Reset, Parse(cmd).cmd, 3).sw == SW_OK
  {
    hide Parse, First, Found, SelectString, CmdSelect, CmdRead, CmdUpdate, CmdCreate, CmdDelete, DeletableChild, Num16;
    if DeletableChild(t, fid) {
      cmd := DeleteString(fid);
      DeleteParsed(fid);
      ChildDeleted(t, fid, Parse(cmd).cmd);
    } else {
      var p1 := if t[First(t, ChildOf(ROOT, fid), 0)].desc.IsDf() then 1 else 2;
      cmd := SelectString(p1, fid);
      SelectParsed(p1, fid);
      ChildSelected(t, fid, Parse(cmd).cmd, 3);
    }
  }

  /** Some command string is answered 9000, given room for the answer. */
  ghost predicate Serves(card: Card)
    requires Sound(card.store)
  {
    exists cmd: seq<byte>, cap: nat | cap >= 2 ::
      |Process(card, cmd, cap).1| >= 2 && StatusOf(Process(card, cmd, cap).1) == SW_OK
  }

  /**
    A card that failed to start, mounted or not: before a warm reset it serves
    nothing; after one it serves something exactly when its table is servable.
   */
  lemma ServesExactly(card: Card)
    requires Sound(card.store) && card.life == FsError
    ensures !Serves(card)
    ensures Serves(WarmReset(card)) <==> Servable(Table(card.store))
  {
    hide Process, Servable, Table, Sound;
    var up := WarmReset(card);
    forall cmd: seq<byte>, cap: nat | cap >= 2 && |Process(card, cmd, cap).1| >= 2
      ensures StatusOf(Process(card, cmd, cap).1) != SW_OK
    {
      ErrorAnswer(card, cmd, cap);
      MemoryFailureIsNoSuccess();
    }
    if Servable(Table(card.store)) {
      var cmd := ServingString(up);
    }
    forall cmd: seq<byte>, cap: nat
      | cap >= 2 && |Process(up, cmd, cap).1| >= 2 && StatusOf(Process(up, cmd, cap).1) == SW_OK
      ensures Servable(Table(card.store))
    {
      ServedMeansServable(up, cmd, cap);
    }
  }

  lemma MemoryFailureIsNoSuccess()
    ensures StatusOf(Be16(SW_MEMORY_FAILURE)) != SW_OK
  {
    Be16Bytes(SW_MEMORY_FAILURE);
  }

  lemma ServedMeansServable(card: Card, cmd: seq<byte>, cap: nat)
    requires Sound(card.store) && card.life == Operational && card.sel == Reset && cap >= 2
    requires |Process(card, cmd, cap).1| >= 2 && StatusOf(Process(card, cmd, cap).1) == SW_OK
    ensures Servable(Table(card.store))
  {
    hide Process, Servable, Table, Sound, Dispatch, Parse, Encode;
    ServedOnlyWhenOperational(card, cmd, cap);
    EncodeOfParse(cmd);
    HandlerDecides(card, cmd, cap);
    DispatchServes(View(card.store), Parse(cmd).cmd, cap);
  }

  /** Where nothing is servable, no run of commands changes that or anything else. */
  lemma {:induction false} UnservableStays(card: Card, cmds: seq<seq<byte>>, cap: nat)
    requires Sound(card.store) && card.life == Operational && card.sel == Reset && cap >= 2
    requires !Servable(Table(card.store))
    ensures SendAll(card, cmds, cap) == card
    decreases |cmds|
  {
    hide Process, Servable, Table, Sound;
    if cmds != [] {
      EveryByteString(card, cmds[0], cap);
      if StatusOf(Process(card, cmds[0], cap).1) == SW_OK {
        ServedMeansServable(card, cmds[0], cap);
      }
      UnservableStays(card, cmds[1..], cap);
    }
  }

  // ------------------------------------------------------- a damaged MF slot

  /** The chip of a card with other bytes in slot 0. */
  ghost function WithRoot(s: Store, raw: seq<byte>): Store
    requires |raw| == DESC_SIZE && TableEnd(1) <= |s.eeprom|
  {
    s.(eeprom := Splice(s.eeprom, TableEnd(0), raw))
  }

  /** A good card whose slot 0 no longer reads comes up with a filesystem error, all other slots as they were. */
  lemma UnreadableRootFails(s: Store, raw: seq<byte>)
    requires GoodStore(s) && |raw| == DESC_SIZE && !DecodeSlot(raw, |s.flash|).Live?
    ensures TableEnd(1) <= |s.eeprom| && Sound(WithRoot(s, raw))
    ensures |WithRoot(s, raw).eeprom| < 0x1_0000_0000 && |WithRoot(s, raw).flash| < 0x1_0000_0000
    ensures PowerUp(WithRoot(s, raw)) == Card(WithRoot(s, raw), FsError, Selection(0, 0), 0)
    ensures Table(WithRoot(s, raw)) == Table(s)[0 := DecodeSlot(raw, |s.flash|)]
  {
    hide Table, DecodeSlot, MountRaw, Good;
    SlotUpdate(s, 0, raw);
    var d := WithRoot(s, raw);
    assert d.eeprom[..SB_SIZE] == s.eeprom[..SB_SIZE];
    assert d.(sb := d.sb) == d;
  }

  lemma ChildFound(t: seq<Slot>, x: Slot, i: nat)
    requires Tree(t) && !x.Live? && 0 < i < |t| && t[i].Live? && t[i].desc.parent == ROOT
    ensures First(t[0 := x], ChildOf(ROOT, t[i].desc.fid), 0) == i
  {
    hide First, AllRooted, IsFile;
    var t', q := t[0 := x], ChildOf(ROOT, t[i].desc.fid);
    forall j | 0 <= j < |t'| && Answers(t'[j], q)
      ensures j == i
    {
      assert !Clash(t[if i < j then i else j], t[if i < j then j else i]) || i == j;
    }
    FirstIsUnique(t', q, i);
  }

  /**
    However the slot of the MF was lost, the card answers 6581 to everything;
    and after one warm reset it still lets any activated file of the MF be
    selected.
   */
  lemma LostRootIsServed(s: Store, raw: seq<byte>, i: nat, cap: nat)
    requires GoodStore(s) && |raw| == DESC_SIZE && !DecodeSlot(raw, |s.flash|).Live? && cap >= 2
    requires 0 < i < |Table(s)| && Table(s)[i].Live? && Table(s)[i].desc.Usable() && Table(s)[i].desc.parent == ROOT
    ensures TableEnd(1) <= |s.eeprom|
    ensures var card, d := PowerUp(WithRoot(s, raw)), Table(s)[i].desc;
            && card.life == FsError && Sound(card.store) && !Serves(card)
            && var out := Process(WarmReset(card), SelectString(if d.IsDf() then 1 else 2, d.fid), cap).1;
            |out| >= 2 && StatusOf(out) == SW_OK
  {
    hide Process, Table, Sound, Parse, First, SelectString, CmdSelect, CmdRead, CmdUpdate, CmdCreate, CmdDelete, Num16,
      DecodeSlot, Serves, PowerUp, Mirrored, Tree, Extents, ErasedFrom, WithRoot;
    UnreadableRootFails(s, raw);
    var t', d := Table(WithRoot(s, raw)), Table(s)[i].desc;
    ChildFound(Table(s), DecodeSlot(raw, |s.flash|), i);
    var card := PowerUp(WithRoot(s, raw));
    ServesExactly(card);
    var p1 := if d.IsDf() then 1 else 2;
    SelectParsed(p1, d.fid);
    HandlerDecides(WarmReset(card), SelectString(p1, d.fid), cap);
    ChildSelected(t', d.fid, Parse(SelectString(p1, d.fid)).cmd, cap);
  }

  lemma FactorySlots(k: Disk)
    requires Good(k) && Files(k) == FactoryFiles
    ensures |k.table| == MAX_FILES && k.table[0].Live? && k.table[1] == Live(EntryDesc(LAYOUT[0], 0))
  {
    hide Tree, Extents;
    TreeSize(k.table);
    assert 0 in Files(k) && 1 in Files(k);
  }

  /** A factory card with two adjacent bytes of slot 0 damaged: EF 2F00 is selected after a reset. */
  lemma DamagedFactoryCardIsServed(f: Store, bad: seq<byte>, k: nat, cap: nat)
    requires GoodStore(f) && Files(View(f)) == FactoryFiles && TableEnd(1) <= |f.eeprom|
    requires |bad| == DESC_SIZE && DamagedPair(SlotRaw(f.eeprom, 0), bad, k) && cap >= 2
    ensures var card := PowerUp(WithRoot(f, bad));
            && card.life == FsError && Sound(card.store) && !Serves(card)
            && var out := Process(WarmReset(card), SelectString(2, 0x2F00), cap).1;
            |out| >= 2 && StatusOf(out) == SW_OK
  {
    hide PowerUp, Process, Table, SelectString, Serves, DecodeSlot, WithRoot, Mirrored, SlotRaw, Good, Files;
    FactorySlots(View(f));
    assert Table(f)[0] == DecodeSlot(SlotRaw(f.eeprom, 0), |f.flash|);
    DamagedDescIsSeen(SlotRaw(f.eeprom, 0), bad, |f.flash|, k);
    LostRootIsServed(f, bad, 1, cap);
  }
}
