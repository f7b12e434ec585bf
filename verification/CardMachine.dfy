/**
  The whole card as a state machine over command strings, resets and power
  cuts, and what every run of it keeps.
 */
module CardMachine {
  import opened Bytes
  import opened StatusWords
  import opened Apdu
  import opened FsTypes
  import opened FsStore
  import opened FileTree
  import opened TreeInvariant
  import opened FileMap
  import opened FileOps
  import opened Commands
  import opened Factory
  import R = Response
  import F = Fcp

  datatype Life = NoPower | Initialising | Operational | FsError | Terminated

  /** Chip, kernel life cycle, selection, resets in this power session. */
  datatype Card = Card(store: Store, life: Life, sel: Selection, resets: u32)

  // --------------------------------------------------------------- the steps

  /** The answer to one command string: structure, then class, then instruction. */
  ghost function Answered(card: Card, cmd: seq<byte>, cap: nat): Answer
    requires Sound(card.store)
  {
    if card.life == FsError then Fail(SW_MEMORY_FAILURE, card.sel)
    else if card.life != Operational then Fail(SW_CONDITIONS_NOT_SATISFIED, card.sel)
    else
      var p := Parse(cmd);
      if !p.Parsed? then Fail(ParsingSw(p), card.sel)
      else if CheckCla(p.cmd.cla) != ClaOk then Fail(ClaSw(CheckCla(p.cmd.cla)), card.sel)
      else Dispatch(View(card.store), card.sel, p.cmd, cap)
  }

  ghost function Process(card: Card, cmd: seq<byte>, cap: nat): (r: (Card, seq<byte>))
    requires Sound(card.store)
    ensures Sound(r.0.store)
  {
    var a := Answered(card, cmd, cap);
    (card.(store := ExecAll(card.store, a.writes), sel := a.sel), R.Finish(a.rsp, a.sw))
  }

  /** Cold boot over whatever the memories hold. */
  ghost function PowerUp(s: Store): Card
    requires |s.eeprom| < 0x1_0000_0000 && |s.flash| < 0x1_0000_0000
  {
    var (st, s') := InitResult(s);
    if st == FsTypes.Ok then Card(s', Operational, Reset, 0) else Card(s', FsError, Selection(0, 0), 0)
  }

  function WarmReset(card: Card): Card {
    Card(card.store, Operational, Reset, (card.resets + 1) % 0x1_0000_0000)
  }

  /** A command, a reset, or a command cut off after its first n NVM writes and a cold boot. */
  datatype Event = Send(cmd: seq<byte>, cap: nat) | ResetLine | Cut(cmd: seq<byte>, cap: nat, n: nat)

  ghost function Prefix(ws: seq<Write>, n: nat): seq<Write> {
    if n < |ws| then ws[..n] else ws
  }

  ghost function Step(card: Card, e: Event): Card
    requires Sound(card.store)
  {
    match e
    case Send(cmd, cap) => Process(card, cmd, cap).0
    case ResetLine => WarmReset(card)
    case Cut(cmd, cap, n) => PowerUp(ExecAll(card.store, Prefix(Answered(card, cmd, cap).writes, n)))
  }

  // -------------------------------------------------------- abstract meaning

  /** What a command does to the file map. */
  datatype Change =
    | Keep
    | Patch(slot: nat, offset: nat, data: seq<byte>)
    | Add(slot: nat, file: File)
    | Remove(slot: nat)

  ghost function Apply(m: map<nat, File>, c: Change): map<nat, File> {
    match c
    case Keep => m
    case Patch(i, offset, data) =>
      if i in m && offset + |data| <= |m[i].content| then m[i := Patched(m[i], offset, data)] else m
    case Add(i, f) => m[i := f]
    case Remove(i) => m - {i}
  }

  ghost function UpdateChange(k: Disk, sel: Selection, c: Command): Change
    requires |k.table| <= MAX_FILES
  {
    if CmdUpdate(k.table, |k.flash|, sel, c).sw != SW_OK then Keep
    else match BinaryTarget(k.table, sel, c.p1, c.p2)
      case NoTarget(_) => Keep
      case At(i, offset) => Patch(i, offset, c.data)
  }

  ghost function CreateChange(k: Disk, sel: Selection, c: Command): Change
    requires |k.table| <= MAX_FILES && |k.flash| < 0x1_0000_0000
  {
    if CmdCreate(k.table, k.top, |k.flash|, sel, c).sw != SW_OK then Keep
    else match F.ParseFcp(c.data)
      case Rejected(_) => Keep
      case Request(req) =>
        var p := CreatePlan(k, sel, req);
        if p.Accepted? then Add(p.slot, NewFile(k, sel, req)) else Keep
  }

  ghost function DeleteChange(k: Disk, sel: Selection, c: Command): Change
    requires |k.table| <= MAX_FILES
  {
    if CmdDelete(k.table, sel, c).sw != SW_OK || |c.data| != 2 then Keep
    else
      var p := Delete(k.table, sel, Num16(c.data));
      if p.Accepted? then Remove(p.slot) else Keep
  }

  ghost function Meaning(k: Disk, sel: Selection, c: Command): Change
    requires |k.table| <= MAX_FILES && |k.flash| < 0x1_0000_0000
  {
    if c.ins == INS_UPDATE_BINARY then UpdateChange(k, sel, c)
    else if c.ins == INS_CREATE_FILE then CreateChange(k, sel, c)
    else if c.ins == INS_DELETE_FILE then DeleteChange(k, sel, c)
    else Keep
  }

  // -------------------------------------------------- every prefix is settled

  /** After the first n writes of answer a: a good disk with the old files, or all of a's effect. */
  ghost predicate Settled(k: Disk, sel: Selection, a: Answer, ch: Change, n: nat)
    requires n <= |a.writes|
  {
    Holds(k, DiskExecAll(k, a.writes[..n]),
          if n < |a.writes| then sel else a.sel,
          if n < |a.writes| then Files(k) else Apply(Files(k), ch))
  }

  lemma HoldsNow(k: Disk, sel: Selection)
    requires Good(k) && SelectionFits(k.table, sel)
    ensures Holds(k, DiskExecAll(k, []), sel, Files(k))
  {}

  lemma QuietSettled(k: Disk, sel: Selection, a: Answer)
    requires Good(k) && SelectionFits(k.table, a.sel) && a.writes == []
    ensures Settled(k, sel, a, Keep, 0)
  {
    hide Holds, Good;
    HoldsNow(k, a.sel);
    assert a.writes[..0] == [];
  }

  lemma SelectSettled(k: Disk, sel: Selection, c: Command, cap: nat)
    requires Good(k) && SelectionFits(k.table, sel) && |k.table| <= MAX_FILES
    ensures CmdSelect(k.table, sel, c, cap).writes == []
    ensures Settled(k, sel, CmdSelect(k.table, sel, c, cap), Keep, 0)
  {
    hide EmitFci, SelectByFid, SelectChild, SelectParent, SelectByPath, SelectionFits, Settled, Good, Tree;
    var a := CmdSelect(k.table, sel, c, cap);
    SelectTargetFits(k, sel, c);
    QuietSettled(k, sel, a);
  }

  lemma SelectTargetFits(k: Disk, sel: Selection, c: Command)
    requires Good(k) && SelectionFits(k.table, sel) && |k.table| <= MAX_FILES
    ensures match SelectTarget(k.table, sel, c)
            case Chosen(Success(next)) => SelectionFits(k.table, next)
            case _ => true
  {
    hide SelectByFid, SelectChild, SelectParent, SelectByPath, SelectionFits, Tree, Extents;
    match SelectTarget(k.table, sel, c)
    case Malformed(_) =>
    case Chosen(Failure(_)) =>
    case Chosen(Success(next)) =>
      if c.p1 == 0x00 {
        SelectByFidFits(k.table, sel, if c.data == [] then FID_MF else Num16(c.data));
      } else if c.p1 == 0x01 || c.p1 == 0x02 {
        SelectChildFits(k.table, sel, Num16(c.data), c.p1 == 0x01);
      } else if c.p1 == 0x03 {
        SelectParentFits(k.table, sel);
      } else {
        PathFits(k.table, sel, c.data, c.p1 == 0x08);
      }
  }

  lemma PathFits(t: seq<Slot>, sel: Selection, path: seq<byte>, fromMf: bool)
    requires Tree(t) && SelectionFits(t, sel) && SelectByPath(t, sel, path, fromMf).Success?
    ensures SelectionFits(t, SelectByPath(t, sel, path, fromMf).value)
  {
    hide Tree, SelectionFits, Walk;
    TreeSize(t);
    ResetFits(t);
    WalkFits(t, if fromMf then Reset else sel, path, 0);
  }

  lemma UpdateSettled(k: Disk, sel: Selection, c: Command, n: nat)
    requires Good(k) && SelectionFits(k.table, sel) && |k.table| <= MAX_FILES
    requires n <= |CmdUpdate(k.table, |k.flash|, sel, c).writes|
    ensures Settled(k, sel, CmdUpdate(k.table, |k.flash|, sel, c), UpdateChange(k, sel, c), n)
  {
    hide BinaryTarget, EfWrite, SelectionFits, Holds, Good, Files;
    var a := CmdUpdate(k.table, |k.flash|, sel, c);
    UpdateProper(k.table, |k.flash|, sel, c, 0);
    if a.sw != SW_OK {
      HoldsNow(k, sel);
      assert a.writes[..0] == [];
    } else {
      var target := BinaryTarget(k.table, sel, c.p1, c.p2);
      TargetProper(k.table, sel, c.p1, c.p2);
      RefusedUpdate(k, sel, c);
      UpdateStopped(k, sel, target.index, target.offset, c.data, n);
    }
  }

  /** 9000 is only ever answered when the plan was accepted. */
  lemma RefusedUpdate(k: Disk, sel: Selection, c: Command)
    requires |k.table| <= MAX_FILES && CmdUpdate(k.table, |k.flash|, sel, c).sw == SW_OK
    ensures var t := BinaryTarget(k.table, sel, c.p1, c.p2);
            && c.data != [] && t.At?
            && EfWrite(k.table, |k.flash|, t.index, t.offset, c.data).Accepted?
            && CmdUpdate(k.table, |k.flash|, sel, c).writes
               == EfWrite(k.table, |k.flash|, t.index, t.offset, c.data).writes
            && CmdUpdate(k.table, |k.flash|, sel, c).sel == sel
  {
    hide BinaryTarget, EfWrite, StatusSw;
    TargetProper(k.table, sel, c.p1, c.p2);
    var t := BinaryTarget(k.table, sel, c.p1, c.p2);
    if t.At? && EfWrite(k.table, |k.flash|, t.index, t.offset, c.data).Refused? {
      StatusSwProper(EfWrite(k.table, |k.flash|, t.index, t.offset, c.data).error);
    }
  }

  lemma AcceptedCreate(k: Disk, sel: Selection, c: Command)
    requires |k.table| <= MAX_FILES && |k.flash| < 0x1_0000_0000
    requires CmdCreate(k.table, k.top, |k.flash|, sel, c).sw == SW_OK
    ensures var a := CmdCreate(k.table, k.top, |k.flash|, sel, c);
            && F.ParseFcp(c.data).Request?
            && var p := CreatePlan(k, sel, F.ParseFcp(c.data).req);
            && p.Accepted? && a.writes == p.writes && a.sel == sel
  {
    hide Create, F.ParseFcp, StatusSw;
    RejectionProper(c.data);
    match F.ParseFcp(c.data)
    case Rejected(_) =>
    case Request(req) =>
      if Create(k.table, k.top, |k.flash|, sel, req).Refused? {
        StatusSwProper(Create(k.table, k.top, |k.flash|, sel, req).error);
      }
  }

  lemma CreateSettled(k: Disk, sel: Selection, c: Command, n: nat)
    requires Good(k) && SelectionFits(k.table, sel) && |k.table| <= MAX_FILES
    requires n <= |CmdCreate(k.table, k.top, |k.flash|, sel, c).writes|
    ensures Settled(k, sel, CmdCreate(k.table, k.top, |k.flash|, sel, c), CreateChange(k, sel, c), n)
  {
    hide CmdCreate, CreatePlan, F.ParseFcp, SelectionFits, Holds, Files, NewFile, Tree, Extents, ErasedFrom;
    var a := CmdCreate(k.table, k.top, |k.flash|, sel, c);
    CreateProper(k.table, k.top, |k.flash|, sel, c, 0);
    if a.sw != SW_OK {
      HoldsNow(k, sel);
      assert a.writes[..0] == [];
    } else {
      AcceptedCreate(k, sel, c);
      CreateStopped(k, sel, F.ParseFcp(c.data).req, n);
    }
  }

  lemma AcceptedDelete(t: seq<Slot>, sel: Selection, c: Command)
    requires |t| <= MAX_FILES && CmdDelete(t, sel, c).sw == SW_OK
    ensures |c.data| == 2
    ensures var a, p := CmdDelete(t, sel, c), Delete(t, sel, Num16(c.data));
            p.Accepted? && p.slot < 0x10000 && a.writes == p.writes && a.sel == Deselect(sel, p.slot)
  {
    hide StatusSw;
    if |c.data| == 2 && Delete(t, sel, Num16(c.data)).Refused? {
      StatusSwProper(Delete(t, sel, Num16(c.data)).error);
    }
  }

  lemma DeleteSettled(k: Disk, sel: Selection, c: Command, n: nat)
    requires Good(k) && SelectionFits(k.table, sel) && |k.table| <= MAX_FILES
    requires n <= |CmdDelete(k.table, sel, c).writes|
    ensures Settled(k, sel, CmdDelete(k.table, sel, c), DeleteChange(k, sel, c), n)
  {
    hide CmdDelete, Delete, Deselect, SelectionFits, Holds, Files, Good;
    var a := CmdDelete(k.table, sel, c);
    DeleteProper(k.table, sel, c, 0);
    if a.sw != SW_OK {
      HoldsNow(k, sel);
      assert a.writes[..0] == [];
    } else {
      AcceptedDelete(k.table, sel, c);
      DeleteStopped(k, sel, Num16(c.data), n);
    }
  }

  lemma ReadQuiet(t: seq<Slot>, flash: seq<byte>, sel: Selection, c: Command, cap: nat)
    requires |t| <= MAX_FILES
    ensures CmdRead(t, flash, sel, c, cap).writes == [] && CmdRead(t, flash, sel, c, cap).sel == sel
  {
    hide EfRead, BinaryTarget;
  }

  /**
    Every command, stopped after any number of its NVM writes, leaves a good
    disk that holds either exactly the files of before or exactly its meaning.
   */
  lemma DispatchSettled(k: Disk, sel: Selection, c: Command, cap: nat, n: nat)
    requires Good(k) && SelectionFits(k.table, sel) && |k.table| <= MAX_FILES
    requires n <= |Dispatch(k, sel, c, cap).writes|
    ensures Settled(k, sel, Dispatch(k, sel, c, cap), Meaning(k, sel, c), n)
  {
    hide CmdSelect, CmdRead, CmdUpdate, CmdCreate, CmdDelete, Settled, SelectionFits, Tree, Extents, ErasedFrom,
      UpdateChange, CreateChange, DeleteChange;
    if c.ins == INS_SELECT {
      SelectSettled(k, sel, c, cap);
    } else if c.ins == INS_READ_BINARY {
      ReadQuiet(k.table, k.flash, sel, c, cap);
      QuietSettled(k, sel, CmdRead(k.table, k.flash, sel, c, cap));
    } else if c.ins == INS_UPDATE_BINARY {
      UpdateSettled(k, sel, c, n);
    } else if c.ins == INS_CREATE_FILE {
      CreateSettled(k, sel, c, n);
    } else if c.ins == INS_DELETE_FILE {
      DeleteSettled(k, sel, c, n);
    } else {
      QuietSettled(k, sel, Fail(SW_INS_NOT_SUPPORTED, sel));
    }
  }
}
