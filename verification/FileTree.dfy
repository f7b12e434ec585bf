/**
  The logical layer as functions of the descriptor table: navigation, and the
  NVM writes that creating, deleting and updating files consist of.
 */
module FileTree {
  import opened Bytes
  import opened FsTypes
  import opened FsStore
  import opened SlotSearch

  const ROOT: u16 := 0

  const Reset := Selection(ROOT, INVALID_INDEX)

  // -------------------------------------------------------------- selection

  /** A descriptor that is readable and activated. */
  function Resolve(t: seq<Slot>, i: u16): (r: Result<Desc>)
    ensures r.Failure? ==> r.error != Ok
  {
    match ReadSlot(t, i)
    case Failure(e) => Failure(e)
    case Success(d) => if d.Usable() then Success(d) else Failure(ErrNotUsable)
  }

  function Commit(i: u16, d: Desc): Selection {
    if d.IsDf() then Selection(i, INVALID_INDEX) else Selection(d.parent, i)
  }

  function Child(t: seq<Slot>, df: u16, fid: u16): (r: Result<u16>)
    requires |t| <= MAX_FILES
    ensures r.Failure? ==> r.error != Ok
  {
    var i := First(t, ChildOf(df, fid), 0);
    if i < |t| then Success(i) else Failure(ErrNotFound)
  }

  function BySfi(t: seq<Slot>, df: u16, sfi: byte): (r: Result<u16>)
    requires |t| <= MAX_FILES
    ensures r.Failure? ==> r.error != Ok
  {
    if sfi == NO_SFI || sfi > 30 then Failure(ErrParam)
    else
      var i := First(t, SfiUnder(df, sfi), 0);
      if i < |t| then Success(i) else Failure(ErrNotFound)
  }

  predicate HasFid(t: seq<Slot>, i: u16, fid: u16) {
    ReadSlot(t, i).Success? && ReadSlot(t, i).value.fid == fid
  }

  /** The documented search order: the MF, a child, the current DF, its parent. */
  function FidTarget(t: seq<Slot>, sel: Selection, fid: u16): (r: Result<u16>)
    requires |t| <= MAX_FILES
    ensures r.Failure? ==> r.error != Ok
  {
    if fid == FID_MF then Success(ROOT)
    else if Child(t, sel.df, fid).Success? then Child(t, sel.df, fid)
    else if HasFid(t, sel.df, fid) then Success(sel.df)
    else if ReadSlot(t, sel.df).Success? && ReadSlot(t, sel.df).value.parent != NO_PARENT
            && HasFid(t, ReadSlot(t, sel.df).value.parent, fid) then
      Success(ReadSlot(t, sel.df).value.parent)
    else Failure(ErrNotFound)
  }

  function SelectIndex(t: seq<Slot>, i: u16): (r: Result<Selection>)
    ensures r.Failure? ==> r.error != Ok
  {
    match Resolve(t, i)
    case Failure(e) => Failure(e)
    case Success(d) => Success(Commit(i, d))
  }

  function SelectByFid(t: seq<Slot>, sel: Selection, fid: u16): (r: Result<Selection>)
    requires |t| <= MAX_FILES
    ensures r.Failure? ==> r.error != Ok
  {
    match FidTarget(t, sel, fid)
    case Failure(e) => Failure(e)
    case Success(i) => SelectIndex(t, i)
  }

  function SelectChild(t: seq<Slot>, sel: Selection, fid: u16, wantDf: bool): (r: Result<Selection>)
    requires |t| <= MAX_FILES
    ensures r.Failure? ==> r.error != Ok
  {
    match Child(t, sel.df, fid)
    case Failure(e) => Failure(e)
    case Success(i) =>
      match Resolve(t, i)
      case Failure(e) => Failure(e)
      case Success(d) => if wantDf != d.IsDf() then Failure(ErrWrongType) else Success(Commit(i, d))
  }

  function SelectParent(t: seq<Slot>, sel: Selection): (r: Result<Selection>)
    ensures r.Failure? ==> r.error != Ok
  {
    match ReadSlot(t, sel.df)
    case Failure(e) => Failure(e)
    case Success(d) => if d.parent == NO_PARENT then Failure(ErrNotFound) else SelectIndex(t, d.parent)
  }

  function PathFid(path: seq<byte>, s: nat): u16
    requires 2 * s + 1 < |path|
  {
    U16(path[2 * s], path[2 * s + 1])
  }

  /** One step below the scratch selection; only the last component may be an EF. */
  function WalkStep(t: seq<Slot>, at: Selection, fid: u16, last: bool): (r: Result<Selection>)
    requires |t| <= MAX_FILES
    ensures r.Failure? ==> r.error != Ok
  {
    match Child(t, at.df, fid)
    case Failure(_) => Failure(ErrNotFound)
    case Success(i) =>
      match Resolve(t, i)
      case Failure(e) => Failure(e)
      case Success(d) => if !last && !d.IsDf() then Failure(ErrWrongType) else Success(Commit(i, d))
  }

  function Walk(t: seq<Slot>, at: Selection, path: seq<byte>, s: nat): (r: Result<Selection>)
    requires |t| <= MAX_FILES && 2 * s <= |path| && |path| % 2 == 0
    ensures r.Failure? ==> r.error != Ok
    decreases |path| - 2 * s
  {
    if 2 * s == |path| then Success(at)
    else if s == 0 && HasFid(t, at.df, PathFid(path, 0)) then Walk(t, at, path, 1)
    else match WalkStep(t, at, PathFid(path, s), 2 * (s + 1) == |path|)
      case Failure(e) => Failure(e)
      case Success(next) => Walk(t, next, path, s + 1)
  }

  function SelectByPath(t: seq<Slot>, sel: Selection, path: seq<byte>, fromMf: bool): (r: Result<Selection>)
    requires |t| <= MAX_FILES
    ensures r.Failure? ==> r.error != Ok
  {
    if |path| == 0 || |path| % 2 != 0 || |path| / 2 > MAX_DEPTH then Failure(ErrParam)
    else Walk(t, if fromMf then Reset else sel, path, 0)
  }

  // ---------------------------------------------------------------- EF data

  function EfOf(t: seq<Slot>, i: u16): (r: Result<Desc>)
    ensures r.Failure? ==> r.error != Ok
  {
    match Resolve(t, i)
    case Failure(e) => Failure(e)
    case Success(d) => if d.IsEf() then Success(d) else Failure(ErrWrongType)
  }

  /** The FLASH range a read covers: clamped to the file's own end. */
  function EfRead(t: seq<Slot>, flash: seq<byte>, i: u16, offset: u16, len: u16): (r: Result<seq<byte>>)
    ensures r.Failure? ==> r.error != Ok
  {
    match EfOf(t, i)
    case Failure(e) => Failure(e)
    case Success(d) =>
      if offset > d.size then Failure(ErrRange)
      else
        var n := if len < d.size - offset then len else d.size - offset;
        if n == 0 then Success([])
        else if d.off + offset + n > |flash| then Failure(ErrRange)
        else Success(flash[d.off + offset..d.off + offset + n])
  }

  datatype Plan = Refused(error: Status) | Accepted(slot: nat, writes: seq<Write>)

  function EfWrite(t: seq<Slot>, flashSize: nat, i: u16, offset: u16, data: seq<byte>): (r: Plan)
    ensures r.Refused? ==> r.error != Ok
  {
    if data == [] then Accepted(i, [])
    else match EfOf(t, i)
      case Failure(e) => Refused(e)
      case Success(d) =>
        if offset + |data| > d.size || d.off + offset + |data| > flashSize then Refused(ErrRange)
        else Accepted(i, [WriteData(d.off + offset, data)])
  }

  // ---------------------------------------------------------- create, delete

  predicate ReservedFid(fid: u16) {
    fid == FID_MF || fid == 0xFFFF
  }

  /** The type- and state-specific checks on a creation request. */
  function CheckRequest(req: Desc): Status {
    if ReservedFid(req.fid) then ErrExists
    else if req.ftype == TYPE_MF then ErrExists
    else if req.ftype == TYPE_DF then
      if req.size != 0 || req.sfi != NO_SFI then ErrParam else CheckLifecycle(req.lc)
    else if req.ftype == TYPE_EF then
      if req.size == 0 || req.size > MAX_EF_SIZE then ErrParam
      else if req.sfi > 30 then ErrParam
      else CheckLifecycle(req.lc)
    else ErrParam
  }

  function CheckLifecycle(lc: byte): Status {
    if lc == LC_CREATION || lc == LC_INITIALISED || lc == LC_ACTIVATED || lc == LC_DEACTIVATED then Ok else ErrParam
  }

  function NewDesc(req: Desc, parent: u16, off: u32): Desc {
    Desc(req.fid, req.ftype, req.lc, parent, req.size, off, req.acRead, req.acUpdate, req.sfi, 0)
  }

  /** Creation as a child of the current DF: every check comes before the first write. */
  function Create(t: seq<Slot>, top: u32, flashSize: nat, sel: Selection, req: Desc): (r: Plan)
    requires |t| <= MAX_FILES && flashSize < 0x1_0000_0000
    ensures r.Refused? ==> r.error != Ok
  {
    match ReadSlot(t, sel.df)
    case Failure(e) => Refused(e)
    case Success(p) =>
      if !p.IsDf() then Refused(ErrWrongType)
      else if !p.Usable() then Refused(ErrNotUsable)
      else if CheckRequest(req) != Ok then Refused(CheckRequest(req))
      else if Found(t, ChildOf(sel.df, req.fid)) then Refused(ErrExists)
      else if req.sfi != NO_SFI && Found(t, SfiUnder(sel.df, req.sfi)) then Refused(ErrExists)
      else if !Found(t, FreeSlot) then Refused(ErrNoSpace)
      else
        var slot := First(t, FreeSlot, 0);
        if req.ftype != TYPE_EF then Accepted(slot, [WriteDesc(slot, NewDesc(req, sel.df, 0))])
        else if top + req.size > flashSize then Refused(ErrNoSpace)
        else Accepted(slot, [WriteSb(top + req.size), WriteDesc(slot, NewDesc(req, sel.df, top))])
  }

  function Delete(t: seq<Slot>, sel: Selection, fid: u16): (r: Plan)
    requires |t| <= MAX_FILES
    ensures r.Refused? ==> r.error != Ok
  {
    if fid == FID_MF then Refused(ErrNotUsable)
    else match Child(t, sel.df, fid)
      case Failure(e) => Refused(e)
      case Success(i) =>
        var d := t[i].desc;
        if d.ftype == TYPE_MF then Refused(ErrNotUsable)
        else if d.IsDf() && Found(t, AnyChild(i)) then Refused(ErrNotUsable)
        else Accepted(i, [FreeDesc(i)])
  }

  /** The selection after slot i has been freed. */
  function Deselect(sel: Selection, i: u16): Selection {
    if sel.df == i then Reset
    else if sel.ef == i then sel.(ef := INVALID_INDEX)
    else sel
  }
}
