/**
  The five command handlers as functions of the disk, the selection and the
  parsed command: status word, response data, new selection, NVM writes.
 */
module Commands {
  import opened Bytes
  import opened StatusWords
  import opened Apdu
  import opened FsTypes
  import opened FsStore
  import opened FileTree
  import opened FileMap
  import R = Response
  import F = Fcp
  import T = Tlv

  const INS_SELECT: byte := 0xA4
  const INS_READ_BINARY: byte := 0xB0
  const INS_UPDATE_BINARY: byte := 0xD6
  const INS_CREATE_FILE: byte := 0xE0
  const INS_DELETE_FILE: byte := 0xE4

  datatype Answer = Answer(sw: u16, rsp: R.Rsp, sel: Selection, writes: seq<Write>)

  function Fail(sw: u16, sel: Selection): Answer {
    Answer(sw, R.Empty, sel, [])
  }

  /** One filesystem error, one status word, whichever command met it. */
  function StatusSw(st: Status): u16 {
    match st
    case Ok => SW_OK
    case ErrNotFound => SW_FILE_NOT_FOUND
    case ErrNotUsable => SW_CONDITIONS_NOT_SATISFIED
    case ErrWrongType => SW_INCOMPATIBLE_FILE
    case ErrRange => SW_WRONG_P1P2
    case ErrParam => SW_INCORRECT_P1P2
    case ErrNoSpace => SW_NOT_ENOUGH_SPACE
    case ErrExists => SW_FILE_EXISTS
    case ErrCorrupt => SW_MEMORY_FAILURE
    case ErrVersion => SW_MEMORY_FAILURE
    case ErrNotFormatted => SW_MEMORY_FAILURE
    case ErrNvm => SW_MEMORY_FAILURE
  }

  // ------------------------------------------------------------------ SELECT

  datatype Selected = Chosen(result: Result<Selection>) | Malformed(sw: u16)

  function SelectTarget(t: seq<Slot>, sel: Selection, c: Command): Selected
    requires |t| <= MAX_FILES
  {
    if c.p1 == 0x00 then
      if c.data == [] then Chosen(SelectByFid(t, sel, FID_MF))
      else if |c.data| == 2 then Chosen(SelectByFid(t, sel, Num16(c.data)))
      else Malformed(SW_LC_INCONSISTENT)
    else if c.p1 == 0x01 || c.p1 == 0x02 then
      if |c.data| != 2 then Malformed(SW_LC_INCONSISTENT)
      else Chosen(SelectChild(t, sel, Num16(c.data), c.p1 == 0x01))
    else if c.p1 == 0x03 then
      if c.data != [] then Malformed(SW_LC_INCONSISTENT) else Chosen(SelectParent(t, sel))
    else if c.p1 == 0x08 || c.p1 == 0x09 then
      if c.data == [] then Malformed(SW_LC_INCONSISTENT)
      else if |c.data| % 2 != 0 then Malformed(SW_WRONG_DATA)
      else Chosen(SelectByPath(t, sel, c.data, c.p1 == 0x08))
    else if c.p1 == 0x04 then Malformed(SW_FUNC_NOT_SUPPORTED)
    else Malformed(SW_INCORRECT_P1P2)
  }

  const RET_FCP := 1
  const RET_FMD := 2
  const RET_NONE := 3

  /** The file's control information in template 62 or 6F, if it was asked for and fits. */
  function EmitFci(t: seq<Slot>, c: Command, cap: nat, index: u16, ret: nat): (u16, R.Rsp) {
    if ret == RET_NONE then (SW_OK, R.Empty)
    else if ret == RET_FMD then (SW_FUNC_NOT_SUPPORTED, R.Empty)
    else match ReadSlot(t, index)
      case Failure(e) => (StatusSw(e), R.Empty)
      case Success(d) =>
        var body := F.FcpBytes(d);
        if !c.lePresent then (SW_OK, R.Empty)
        else if c.le < |body| + 2 then (WrongLe(|body| + 2), R.Empty)
        else
          var (ok1, r1) := R.Put(R.Empty, cap, [if ret == RET_FCP then 0x62 else 0x6F]);
          if !ok1 then (SW_NO_DIAGNOSIS, r1)
          else
            var (ok2, r2) := R.Put(r1, cap, [|body|]);
            if !ok2 then (SW_NO_DIAGNOSIS, r2)
            else
              var (ok3, r3) := R.Put(r2, cap, body);
              (if ok3 then SW_OK else SW_NO_DIAGNOSIS, r3)
  }

  function CmdSelect(t: seq<Slot>, sel: Selection, c: Command, cap: nat): Answer
    requires |t| <= MAX_FILES
  {
    if c.p2 / 0x10 != 0 then Fail(SW_INCORRECT_P1P2, sel)
    else if c.p2 % 4 != 0 then Fail(SW_FUNC_NOT_SUPPORTED, sel)
    else match SelectTarget(t, sel, c)
      case Malformed(sw) => Fail(sw, sel)
      case Chosen(Failure(e)) => Fail(StatusSw(e), sel)
      case Chosen(Success(next)) =>
        var (sw, rsp) := EmitFci(t, c, cap, next.Index(), c.p2 / 4);
        Answer(sw, rsp, if sw == SW_OK then next else sel, [])
  }

  // ------------------------------------------------------------------ binary

  datatype Target = At(index: u16, offset: u16) | NoTarget(sw: u16)

  /** Offset form on the current EF, or short-identifier form under the current DF. */
  function BinaryTarget(t: seq<Slot>, sel: Selection, p1: byte, p2: byte): Target
    requires |t| <= MAX_FILES
  {
    if p1 >= 0x80 then
      if p1 / 0x20 % 4 != 0 then NoTarget(SW_INCORRECT_P1P2)
      else if p1 % 0x20 == 0 then NoTarget(SW_INCORRECT_P1P2)
      else match BySfi(t, sel.df, p1 % 0x20)
        case Failure(e) => NoTarget(StatusSw(e))
        case Success(i) => At(i, p2)
    else if sel.ef == INVALID_INDEX then NoTarget(SW_NO_CURRENT_EF)
    else At(sel.ef, U16(p1, p2))
  }

  function CmdRead(t: seq<Slot>, flash: seq<byte>, sel: Selection, c: Command, cap: nat): Answer
    requires |t| <= MAX_FILES
  {
    if c.data != [] then Fail(SW_LC_INCONSISTENT, sel)
    else if !c.lePresent then Fail(SW_WRONG_LENGTH, sel)
    else match BinaryTarget(t, sel, c.p1, c.p2)
      case NoTarget(sw) => Fail(sw, sel)
      case At(i, offset) =>
        if c.le > 256 then Fail(SW_NO_DIAGNOSIS, sel)
        else match EfRead(t, flash, i, offset, c.le)
          case Failure(e) => Fail(StatusSw(e), sel)
          case Success(bytes) =>
            var (ok, rsp) := R.Put(R.Empty, cap, bytes);
            Answer(if !ok then SW_NO_DIAGNOSIS else if |bytes| < c.le then SW_END_OF_FILE else SW_OK, rsp, sel, [])
  }

  function CmdUpdate(t: seq<Slot>, flashSize: nat, sel: Selection, c: Command): Answer
    requires |t| <= MAX_FILES
  {
    if c.data == [] || c.lePresent then Fail(SW_WRONG_LENGTH, sel)
    else match BinaryTarget(t, sel, c.p1, c.p2)
      case NoTarget(sw) => Fail(sw, sel)
      case At(i, offset) =>
        match EfWrite(t, flashSize, i, offset, c.data)
        case Refused(e) => Fail(StatusSw(e), sel)
        case Accepted(_, ws) => Answer(SW_OK, R.Empty, sel, ws)
  }

  // ---------------------------------------------------------- create, delete

  function CmdCreate(t: seq<Slot>, top: u32, flashSize: nat, sel: Selection, c: Command): Answer
    requires |t| <= MAX_FILES && flashSize < 0x1_0000_0000
  {
    if c.p1 != 0 || c.p2 != 0 then Fail(SW_INCORRECT_P1P2, sel)
    else if c.data == [] then Fail(SW_WRONG_LENGTH, sel)
    else match F.ParseFcp(c.data)
      case Rejected(sw) => Fail(sw, sel)
      case Request(req) =>
        match Create(t, top, flashSize, sel, req)
        case Refused(e) => Fail(StatusSw(e), sel)
        case Accepted(_, ws) => Answer(SW_OK, R.Empty, sel, ws)
  }

  function CmdDelete(t: seq<Slot>, sel: Selection, c: Command): Answer
    requires |t| <= MAX_FILES
  {
    if c.p1 != 0 || c.p2 != 0 then Fail(SW_INCORRECT_P1P2, sel)
    else if |c.data| != 2 then Fail(SW_WRONG_LENGTH, sel)
    else match Delete(t, sel, Num16(c.data))
      case Refused(e) => Fail(StatusSw(e), sel)
      case Accepted(i, ws) => Answer(SW_OK, R.Empty, Deselect(sel, i), ws)
  }

  function Dispatch(k: Disk, sel: Selection, c: Command, cap: nat): Answer
    requires |k.table| <= MAX_FILES && |k.flash| < 0x1_0000_0000
  {
    if c.ins == INS_SELECT then CmdSelect(k.table, sel, c, cap)
    else if c.ins == INS_READ_BINARY then CmdRead(k.table, k.flash, sel, c, cap)
    else if c.ins == INS_UPDATE_BINARY then CmdUpdate(k.table, |k.flash|, sel, c)
    else if c.ins == INS_CREATE_FILE then CmdCreate(k.table, k.top, |k.flash|, sel, c)
    else if c.ins == INS_DELETE_FILE then CmdDelete(k.table, sel, c)
    else Fail(SW_INS_NOT_SUPPORTED, sel)
  }

  // ----------------------------------------------------- the shape of answers

  /** A status word of the 6x classes, or 9000. */
  predicate IsStatus(sw: u16) {
    sw == SW_OK || 0x6100 <= sw < 0x7000
  }

  /** What every answer guarantees, whatever was sent. */
  ghost predicate Proper(a: Answer, sel: Selection, c: Command, cap: nat) {
    && IsStatus(a.sw)
    && |a.rsp.data| <= R.Room(cap)
    && (a.rsp.overflow ==> a.sw == SW_NO_DIAGNOSIS)
    && (!a.rsp.overflow ==> |a.rsp.data| <= if c.lePresent then c.le else 0)
    && (!a.rsp.overflow && a.rsp.data != [] ==> a.sw == SW_OK || a.sw == SW_END_OF_FILE)
    && (a.sw != SW_OK ==> a.sel == sel && a.writes == [])
  }

  lemma StatusSwProper(st: Status)
    ensures IsStatus(StatusSw(st)) && (StatusSw(st) == SW_OK <==> st == Ok)
  {}

  lemma EmitProper(t: seq<Slot>, c: Command, cap: nat, index: u16, ret: nat)
    ensures var (sw, rsp) := EmitFci(t, c, cap, index, ret); Proper(Answer(sw, rsp, Reset, []), Reset, c, cap)
  {
    hide F.FcpBytes, ReadSlot, StatusSw;
    if ReadSlot(t, index).Failure? {
      StatusSwProper(ReadSlot(t, index).error);
    }
  }

  lemma SelectProper(t: seq<Slot>, sel: Selection, c: Command, cap: nat)
    requires |t| <= MAX_FILES
    ensures Proper(CmdSelect(t, sel, c, cap), sel, c, cap)
  {
    hide SelectByFid, SelectChild, SelectParent, SelectByPath, EmitFci, StatusSw;
    match SelectTarget(t, sel, c)
    case Chosen(Success(next)) => EmitProper(t, c, cap, next.Index(), c.p2 / 4);
    case Chosen(Failure(e)) => StatusSwProper(e);
    case Malformed(_) =>
  }

  lemma TargetProper(t: seq<Slot>, sel: Selection, p1: byte, p2: byte)
    requires |t| <= MAX_FILES
    ensures BinaryTarget(t, sel, p1, p2).NoTarget? ==>
              IsStatus(BinaryTarget(t, sel, p1, p2).sw) && BinaryTarget(t, sel, p1, p2).sw != SW_OK
  {
    hide BySfi, StatusSw;
    if BySfi(t, sel.df, p1 % 0x20).Failure? {
      StatusSwProper(BySfi(t, sel.df, p1 % 0x20).error);
    }
  }

  lemma ReadProper(t: seq<Slot>, flash: seq<byte>, sel: Selection, c: Command, cap: nat)
    requires |t| <= MAX_FILES
    ensures Proper(CmdRead(t, flash, sel, c, cap), sel, c, cap)
  {
    hide BinaryTarget, EfRead, StatusSw;
    TargetProper(t, sel, c.p1, c.p2);
    match BinaryTarget(t, sel, c.p1, c.p2)
    case NoTarget(_) =>
    case At(i, offset) =>
      if c.le <= 256 {
        ReadLength(t, flash, i, offset, c.le);
        if EfRead(t, flash, i, offset, c.le).Failure? {
          StatusSwProper(EfRead(t, flash, i, offset, c.le).error);
        }
      }
  }

  lemma ReadLength(t: seq<Slot>, flash: seq<byte>, i: u16, offset: u16, len: u16)
    ensures EfRead(t, flash, i, offset, len).Success? ==> |EfRead(t, flash, i, offset, len).value| <= len
  {}

  lemma UpdateProper(t: seq<Slot>, flashSize: nat, sel: Selection, c: Command, cap: nat)
    requires |t| <= MAX_FILES
    ensures Proper(CmdUpdate(t, flashSize, sel, c), sel, c, cap)
  {
    hide BinaryTarget, EfWrite, StatusSw;
    TargetProper(t, sel, c.p1, c.p2);
    match BinaryTarget(t, sel, c.p1, c.p2)
    case NoTarget(_) =>
    case At(i, offset) =>
      if EfWrite(t, flashSize, i, offset, c.data).Refused? {
        StatusSwProper(EfWrite(t, flashSize, i, offset, c.data).error);
      }
  }

  lemma CreateProper(t: seq<Slot>, top: u32, flashSize: nat, sel: Selection, c: Command, cap: nat)
    requires |t| <= MAX_FILES && flashSize < 0x1_0000_0000
    ensures Proper(CmdCreate(t, top, flashSize, sel, c), sel, c, cap)
  {
    hide Create, F.ParseFcp, StatusSw;
    RejectionProper(c.data);
    match F.ParseFcp(c.data)
    case Rejected(_) =>
    case Request(req) =>
      if Create(t, top, flashSize, sel, req).Refused? {
        StatusSwProper(Create(t, top, flashSize, sel, req).error);
      }
  }

  lemma RejectionProper(body: seq<byte>)
    ensures F.ParseFcp(body).Rejected? ==> IsStatus(F.ParseFcp(body).sw) && F.ParseFcp(body).sw != SW_OK
  {
    hide F.Fold, T.Next, T.ReadAll, T.SkipPadding;
    var (o, q) := T.Next(body, 0);
    var inner := if o.Ok? && o.obj.tag == F.TAG_TEMPLATE then o.obj.value else body;
    var (os, end) := T.ReadAll(inner, 0);
    FoldRejects(F.Start, os, end);
  }

  lemma {:induction false} FoldRejects(a: F.Acc, os: seq<T.Object>, end: T.Outcome)
    ensures F.Fold(a, os, end).Rejected? ==> IsStatus(F.Fold(a, os, end).sw) && F.Fold(a, os, end).sw != SW_OK
    decreases |os|
  {
    if os != [] && F.Absorb(a, os[0]).More? {
      FoldRejects(F.Absorb(a, os[0]).acc, os[1..], end);
    }
  }

  lemma DeleteProper(t: seq<Slot>, sel: Selection, c: Command, cap: nat)
    requires |t| <= MAX_FILES
    ensures Proper(CmdDelete(t, sel, c), sel, c, cap)
  {
    hide Delete, StatusSw;
    if |c.data| == 2 && Delete(t, sel, Num16(c.data)).Refused? {
      StatusSwProper(Delete(t, sel, Num16(c.data)).error);
    }
  }

  /** Every command on every disk gets a proper answer. */
  lemma DispatchProper(k: Disk, sel: Selection, c: Command, cap: nat)
    requires |k.table| <= MAX_FILES && |k.flash| < 0x1_0000_0000
    ensures Proper(Dispatch(k, sel, c, cap), sel, c, cap)
  {
    hide CmdSelect, CmdRead, CmdUpdate, CmdCreate, CmdDelete;
    SelectProper(k.table, sel, c, cap);
    ReadProper(k.table, k.flash, sel, c, cap);
    UpdateProper(k.table, |k.flash|, sel, c, cap);
    CreateProper(k.table, k.top, |k.flash|, sel, c, cap);
    DeleteProper(k.table, sel, c, cap);
  }
}
