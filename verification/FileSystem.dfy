/** The logical layer as it runs: slot scans over the mounted chip, and writes through the store. */
module FileSystem {
  import opened Bytes
  import opened FsTypes
  import opened NvmLayout
  import opened FsStore
  import opened FileTree
  import opened SlotSearch

  // -------------------------------------------------------------- inspection

  method FindChild(n: Nvm, parent: u16, fid: u16) returns (r: Result<u16>)
    requires n.Valid()
    ensures r == Child(Table(n.Abs()), parent, fid)
  {
    hide DecodeSlot;
    ghost var t, q := Table(n.Abs()), ChildOf(parent, fid);
    var count := if n.mounted then n.maxFiles else 0;
    for i := 0 to count
      invariant First(t, q, 0) == First(t, q, i)
    {
      var d := n.ReadDesc(i);
      if d.Success? && d.value.parent == parent && d.value.fid == fid {
        return Success(i);
      }
    }
    return Failure(ErrNotFound);
  }

  method FindBySfi(n: Nvm, df: u16, sfi: byte) returns (r: Result<u16>)
    requires n.Valid()
    ensures r == BySfi(Table(n.Abs()), df, sfi)
  {
    hide DecodeSlot;
    if sfi == NO_SFI || sfi > 30 {
      return Failure(ErrParam);
    }
    ghost var t, q := Table(n.Abs()), SfiUnder(df, sfi);
    var count := if n.mounted then n.maxFiles else 0;
    for i := 0 to count
      invariant First(t, q, 0) == First(t, q, i)
    {
      var d := n.ReadDesc(i);
      if d.Success? && d.value.parent == df && d.value.IsEf() && d.value.sfi == sfi {
        return Success(i);
      }
    }
    return Failure(ErrNotFound);
  }

  method ChildCount(n: Nvm, parent: u16) returns (c: nat)
    requires n.Valid()
    ensures c == Count(Table(n.Abs()), AnyChild(parent), |Table(n.Abs())|)
    ensures c > 0 <==> Found(Table(n.Abs()), AnyChild(parent))
  {
    hide Sound, DecodeSlot, First, Found;
    ghost var t, q := Table(n.Abs()), AnyChild(parent);
    c := 0;
    var count := if n.mounted then n.maxFiles else 0;
    for i := 0 to count
      invariant c == Count(t, q, i)
    {
      var d := n.ReadDesc(i);
      if d.Success? && d.value.parent == parent {
        c := c + 1;
      }
    }
    CountPositive(t, q, |t|);
    FoundExactly(t, q);
  }

  // --------------------------------------------------------------- selection

  method ResolveSlot(n: Nvm, index: u16) returns (r: Result<Desc>)
    requires n.Valid()
    ensures r == Resolve(Table(n.Abs()), index)
  {
    hide DecodeSlot;
    r := n.ReadDesc(index);
    if r.Success? && !r.value.Usable() {
      return Failure(ErrNotUsable);
    }
  }

  method SelectFid(n: Nvm, sel: Selection, fid: u16) returns (r: Result<Selection>)
    requires n.Valid()
    ensures r == SelectByFid(Table(n.Abs()), sel, fid)
  {
    hide DecodeSlot, First;
    var index := INVALID_INDEX;
    if fid == FID_MF {
      index := ROOT;
    }
    if index == INVALID_INDEX {
      var found := FindChild(n, sel.df, fid);
      if found.Success? {
        index := found.value;
      }
    }
    if index == INVALID_INDEX {
      var d := n.ReadDesc(sel.df);
      if d.Success? && d.value.fid == fid {
        index := sel.df;
      }
    }
    if index == INVALID_INDEX {
      var d := n.ReadDesc(sel.df);
      if d.Success? && d.value.parent != NO_PARENT {
        var p := n.ReadDesc(d.value.parent);
        if p.Success? && p.value.fid == fid {
          index := d.value.parent;
        }
      }
    }
    if index == INVALID_INDEX {
      return Failure(ErrNotFound);
    }
    var d := ResolveSlot(n, index);
    if d.Failure? {
      return Failure(d.error);
    }
    return Success(Commit(index, d.value));
  }

  method SelectTypedChild(n: Nvm, sel: Selection, fid: u16, wantDf: bool) returns (r: Result<Selection>)
    requires n.Valid()
    ensures r == SelectChild(Table(n.Abs()), sel, fid, wantDf)
  {
    hide DecodeSlot, First;
    var found := FindChild(n, sel.df, fid);
    if found.Failure? {
      return Failure(found.error);
    }
    var d := ResolveSlot(n, found.value);
    if d.Failure? {
      return Failure(d.error);
    }
    if wantDf != d.value.IsDf() {
      return Failure(ErrWrongType);
    }
    return Success(Commit(found.value, d.value));
  }

  method SelectParentDf(n: Nvm, sel: Selection) returns (r: Result<Selection>)
    requires n.Valid()
    ensures r == SelectParent(Table(n.Abs()), sel)
  {
    hide DecodeSlot;
    var cur := n.ReadDesc(sel.df);
    if cur.Failure? {
      return Failure(cur.error);
    }
    if cur.value.parent == NO_PARENT {
      return Failure(ErrNotFound);
    }
    var p := ResolveSlot(n, cur.value.parent);
    if p.Failure? {
      return Failure(p.error);
    }
    return Success(Commit(cur.value.parent, p.value));
  }

  method StepDown(n: Nvm, at: Selection, fid: u16, last: bool) returns (r: Result<Selection>)
    requires n.Valid()
    ensures r == WalkStep(Table(n.Abs()), at, fid, last)
  {
    hide DecodeSlot, First;
    var found := FindChild(n, at.df, fid);
    if found.Failure? {
      return Failure(ErrNotFound);
    }
    var d := ResolveSlot(n, found.value);
    if d.Failure? {
      return Failure(d.error);
    }
    if !last && !d.value.IsDf() {
      return Failure(ErrWrongType);
    }
    return Success(Commit(found.value, d.value));
  }

  /** The path walk on a scratch selection; the caller's selection is replaced only on success. */
  method SelectPath(n: Nvm, sel: Selection, path: seq<byte>, fromMf: bool) returns (r: Result<Selection>)
    requires n.Valid()
    ensures r == SelectByPath(Table(n.Abs()), sel, path, fromMf)
  {
    hide DecodeSlot, WalkStep, ReadSlot, PathFid;
    if |path| == 0 || |path| % 2 != 0 {
      return Failure(ErrParam);
    }
    var steps := |path| / 2;
    if steps > MAX_DEPTH {
      return Failure(ErrParam);
    }
    ghost var t := Table(n.Abs());
    var scratch := if fromMf then Reset else sel;
    ghost var start := scratch;
    for s := 0 to steps
      invariant Walk(t, start, path, 0) == Walk(t, scratch, path, s)
    {
      var fid := PathFid(path, s);
      var skip := false;
      if s == 0 {
        var here := n.ReadDesc(scratch.df);
        skip := here.Success? && here.value.fid == fid;
      }
      if !skip {
        var next := StepDown(n, scratch, fid, s + 1 == steps);
        if next.Failure? {
          return Failure(next.error);
        }
        scratch := next.value;
      }
    }
    return Success(scratch);
  }

  // ----------------------------------------------------------------- EF data

  method ReadEf(n: Nvm, index: u16, offset: u16, len: u16) returns (r: Result<seq<byte>>)
    requires n.Valid()
    ensures r == EfRead(Table(n.Abs()), n.flash[..], index, offset, len)
  {
    hide DecodeSlot;
    var d := ResolveSlot(n, index);
    if d.Failure? {
      return Failure(d.error);
    }
    if !d.value.IsEf() {
      return Failure(ErrWrongType);
    }
    if offset > d.value.size {
      return Failure(ErrRange);
    }
    var available := d.value.size - offset;
    var toRead := if len < available then len else available;
    if toRead == 0 {
      return Success([]);
    }
    var at := d.value.off + offset;
    if at + toRead > n.flash.Length {
      return Failure(ErrRange);
    }
    r := n.ReadData(at, toRead);
  }

  method WriteEf(n: Nvm, index: u16, offset: u16, src: seq<byte>) returns (st: Status)
    requires n.Valid()
    modifies n.flash, n`log
    ensures n.Valid()
    ensures match EfWrite(Table(old(n.Abs())), n.flash.Length, index, offset, src)
            case Refused(e) => st == e && n.Abs() == old(n.Abs()) && n.log == old(n.log)
            case Accepted(_, ws) => st == Ok && n.Abs() == ExecAll(old(n.Abs()), ws) && n.log == old(n.log) + ws
  {
    hide DecodeSlot, Exec;
    if |src| == 0 {
      return Ok;
    }
    var d := ResolveSlot(n, index);
    if d.Failure? {
      return d.error;
    }
    if !d.value.IsEf() {
      return ErrWrongType;
    }
    if offset + |src| > d.value.size {
      return ErrRange;
    }
    var at := d.value.off + offset;
    if at + |src| > n.flash.Length {
      return ErrRange;
    }
    ExecOne(n.Abs(), WriteData(at, src));
    st := n.StoreData(at, src);
  }

  // ---------------------------------------------------------- create, delete

  /** Identifiers free, and a slot to put the file in. */
  method Admit(n: Nvm, df: u16, req: Desc) returns (st: Status, slot: u16)
    requires n.Valid() && req.sfi <= 30
    ensures var t := Table(n.Abs());
            st == if Found(t, ChildOf(df, req.fid)) then ErrExists
                  else if req.sfi != NO_SFI && Found(t, SfiUnder(df, req.sfi)) then ErrExists
                  else if !Found(t, FreeSlot) then ErrNoSpace
                  else Ok
    ensures st == Ok ==> slot == First(Table(n.Abs()), FreeSlot, 0)
  {
    hide Sound, DecodeSlot, First, Answers;
    slot := INVALID_INDEX;
    var existing := FindChild(n, df, req.fid);
    if existing.Success? {
      return ErrExists, slot;
    }
    if req.sfi != NO_SFI {
      existing := FindBySfi(n, df, req.sfi);
      if existing.Success? {
        return ErrExists, slot;
      }
    }
    slot := n.FindFreeSlot();
    if slot == INVALID_INDEX {
      return ErrNoSpace, slot;
    }
    return Ok, slot;
  }

  method CreateFile(n: Nvm, sel: Selection, req: Desc) returns (st: Status, index: u16)
    requires n.Valid()
    modifies n, n.eeprom
    ensures n.Valid()
    ensures match Create(Table(old(n.Abs())), old(n.dataTop), n.flash.Length, sel, req)
            case Refused(e) => st == e && n.Abs() == old(n.Abs()) && n.log == old(n.log)
            case Accepted(slot, ws) =>
              && st == Ok && index == slot
              && n.Abs() == ExecAll(old(n.Abs()), ws) && n.log == old(n.log) + ws
  {
    hide Sound, DecodeSlot, Exec, First, Answers, ReadSlot, CheckLifecycle, NewDesc;
    index := INVALID_INDEX;
    var parent := n.ReadDesc(sel.df);
    if parent.Failure? {
      return parent.error, index;
    }
    if !parent.value.IsDf() {
      return ErrWrongType, index;
    }
    if !parent.value.Usable() {
      return ErrNotUsable, index;
    }
    var check := CheckRequest(req);
    if check != Ok {
      return check, index;
    }
    var slot;
    st, slot := Admit(n, sel.df, req);
    if st != Ok {
      return st, index;
    }
    st := Place(n, sel.df, req, slot);
    index := slot;
  }

  /** Allocation, if the file has data, and then the descriptor: the only writes of a creation. */
  method Place(n: Nvm, df: u16, req: Desc, slot: u16) returns (st: Status)
    requires n.Valid() && n.mounted && slot < n.maxFiles && (req.ftype == TYPE_DF || req.ftype == TYPE_EF)
    modifies n, n.eeprom
    ensures n.Valid()
    ensures var s := old(n.Abs());
            if req.ftype != TYPE_EF then
              var ws := [WriteDesc(slot, NewDesc(req, df, 0))];
              st == Ok && n.Abs() == ExecAll(s, ws) && n.log == old(n.log) + ws
            else if s.sb.dataTop + req.size > |s.flash| then
              st == ErrNoSpace && n.Abs() == s && n.log == old(n.log)
            else
              var ws := [WriteSb(s.sb.dataTop + req.size), WriteDesc(slot, NewDesc(req, df, s.sb.dataTop))];
              st == Ok && n.Abs() == ExecAll(s, ws) && n.log == old(n.log) + ws
  {
    hide DecodeSlot, Exec, Table;
    ghost var s := n.Abs();
    var off: u32 := 0;
    if req.ftype == TYPE_EF {
      st, off := n.AllocData(req.size);
      if st != Ok {
        return;
      }
    }
    var d := NewDesc(req, df, off);
    ghost var m := n.Abs();
    st := n.StoreDesc(slot, d);
    if req.ftype == TYPE_EF {
      ExecTwo(s, WriteSb(off + req.size), WriteDesc(slot, d));
    } else {
      ExecOne(s, WriteDesc(slot, d));
    }
  }

  method DeleteFile(n: Nvm, sel: Selection, fid: u16) returns (st: Status, sel': Selection)
    requires n.Valid()
    modifies n.eeprom, n`log
    ensures n.Valid()
    ensures match Delete(Table(old(n.Abs())), sel, fid)
            case Refused(e) => st == e && sel' == sel && n.Abs() == old(n.Abs()) && n.log == old(n.log)
            case Accepted(slot, ws) =>
              && st == Ok && slot < 0x1_0000 && sel' == Deselect(sel, slot)
              && n.Abs() == ExecAll(old(n.Abs()), ws) && n.log == old(n.log) + ws
  {
    hide DecodeSlot, Exec, First;
    sel' := sel;
    if fid == FID_MF {
      return ErrNotUsable, sel;
    }
    var found := FindChild(n, sel.df, fid);
    if found.Failure? {
      return found.error, sel;
    }
    var index := found.value;
    var d := n.ReadDesc(index);
    assert d.Success?;
    if d.value.ftype == TYPE_MF {
      return ErrNotUsable, sel;
    }
    if d.value.IsDf() {
      var c := ChildCount(n, index);
      if c > 0 {
        return ErrNotUsable, sel;
      }
    }
    ExecOne(n.Abs(), FreeDesc(index));
    st := n.ReleaseDesc(index);
    if sel'.ef == index {
      sel' := sel'.(ef := INVALID_INDEX);
    }
    if sel'.df == index {
      sel' := Selection(ROOT, INVALID_INDEX);
    }
  }
}
