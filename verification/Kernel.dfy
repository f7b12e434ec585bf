/** The kernel and its command handlers as they run: fields updated in place, answers built in the caller's buffer. */
module Kernel {
  import opened Bytes
  import opened StatusWords
  import opened Apdu
  import opened FsTypes
  import opened NvmLayout
  import opened FsStore
  import opened FileTree
  import opened FileMap
  import opened Commands
  import opened CardMachine
  import Fs = FileSystem
  import Factory
  import R = Response
  import F = Fcp

  class Scos {
    const nvm: Nvm
    var life: Life
    var sel: Selection
    var resets: u32

    ghost predicate Valid()
      reads this, nvm, nvm.eeprom, nvm.flash
    {
      nvm.Valid()
    }

    ghost function Abs(): Card
      reads this, nvm, nvm.eeprom, nvm.flash
    {
      Card(nvm.Abs(), life, sel, resets)
    }

    constructor (nvm: Nvm)
      requires nvm.Valid()
      ensures Valid() && this.nvm == nvm && Abs() == Card(nvm.Abs(), NoPower, Selection(0, 0), 0)
    {
      this.nvm, life, sel, resets := nvm, NoPower, Selection(0, 0), 0;
    }

    /** A response builder over a buffer that is none of the chip's memories. */
    ghost predicate Fresh(r: R.Builder)
      reads r, r.buf
    {
      r.Valid() && r.Abs() == R.Empty && r.buf != nvm.eeprom && r.buf != nvm.flash
    }

    // ---------------------------------------------------------------- SELECT

    method EmitControlInfo(c: Command, r: R.Builder, index: u16, ret: nat) returns (sw: u16)
      requires Valid() && Fresh(r)
      modifies r, r.buf
      ensures Valid() && r.Valid()
      ensures (sw, r.Abs()) == EmitFci(Table(nvm.Abs()), c, r.buf.Length, index, ret)
    {
      hide Sound, DecodeSlot, F.FcpBytes, ReadSlot, StatusSw;
      if ret == RET_NONE {
        return SW_OK;
      }
      if ret == RET_FMD {
        return SW_FUNC_NOT_SUPPORTED;
      }
      var d := nvm.ReadDesc(index);
      if d.Failure? {
        return StatusSw(d.error);
      }
      // An FCP is never longer than 17 bytes, so the local buffer always holds it.
      var body := F.BuildFcp(d.value, 32);
      if !c.lePresent {
        return SW_OK;
      }
      if c.le < |body| + 2 {
        return WrongLe(|body| + 2);
      }
      var ok := r.Append([if ret == RET_FCP then 0x62 else 0x6F]);
      if !ok {
        return SW_NO_DIAGNOSIS;
      }
      ok := r.Append([|body|]);
      if !ok {
        return SW_NO_DIAGNOSIS;
      }
      ok := r.Append(body);
      return if ok then SW_OK else SW_NO_DIAGNOSIS;
    }

    method ChooseTarget(c: Command) returns (t: Selected)
      requires Valid()
      ensures t == SelectTarget(Table(nvm.Abs()), sel, c)
    {
      hide Sound, DecodeSlot, SelectByFid, SelectChild, SelectParent, SelectByPath, Num16;
      var r: Result<Selection>;
      if c.p1 == 0x00 {
        if |c.data| == 0 {
          r := Fs.SelectFid(nvm, sel, FID_MF);
        } else if |c.data| == 2 {
          r := Fs.SelectFid(nvm, sel, Num16(c.data));
        } else {
          return Malformed(SW_LC_INCONSISTENT);
        }
      } else if c.p1 == 0x01 || c.p1 == 0x02 {
        if |c.data| != 2 {
          return Malformed(SW_LC_INCONSISTENT);
        }
        r := Fs.SelectTypedChild(nvm, sel, Num16(c.data), c.p1 == 0x01);
      } else if c.p1 == 0x03 {
        if |c.data| != 0 {
          return Malformed(SW_LC_INCONSISTENT);
        }
        r := Fs.SelectParentDf(nvm, sel);
      } else if c.p1 == 0x08 || c.p1 == 0x09 {
        if |c.data| == 0 {
          return Malformed(SW_LC_INCONSISTENT);
        }
        if |c.data| % 2 != 0 {
          return Malformed(SW_WRONG_DATA);
        }
        r := Fs.SelectPath(nvm, sel, c.data, c.p1 == 0x08);
      } else if c.p1 == 0x04 {
        return Malformed(SW_FUNC_NOT_SUPPORTED);
      } else {
        return Malformed(SW_INCORRECT_P1P2);
      }
      return Chosen(r);
    }

    /** Resolve, emit, and only then commit the selection. */
    method Select(c: Command, r: R.Builder) returns (sw: u16)
      requires Valid() && Fresh(r)
      modifies `sel, r, r.buf
      ensures Valid() && r.Valid()
      ensures Answer(sw, r.Abs(), sel, []) == CmdSelect(Table(nvm.Abs()), old(sel), c, r.buf.Length)
    {
      hide Sound, DecodeSlot, SelectTarget, EmitFci, StatusSw;
      if c.p2 / 0x10 != 0 {
        return SW_INCORRECT_P1P2;
      }
      if c.p2 % 4 != 0 {
        return SW_FUNC_NOT_SUPPORTED;
      }
      var target := ChooseTarget(c);
      if target.Malformed? {
        return target.sw;
      }
      if target.result.Failure? {
        return StatusSw(target.result.error);
      }
      sw := EmitControlInfo(c, r, target.result.value.Index(), c.p2 / 4);
      if sw == SW_OK {
        sel := target.result.value;
      }
    }

    // ---------------------------------------------------------------- binary

    method ResolveTarget(p1: byte, p2: byte) returns (t: Target)
      requires Valid()
      ensures t == BinaryTarget(Table(nvm.Abs()), sel, p1, p2)
    {
      hide Sound, DecodeSlot, BySfi, StatusSw;
      if p1 >= 0x80 {
        if p1 / 0x20 % 4 != 0 {
          return NoTarget(SW_INCORRECT_P1P2);
        }
        var sfi := p1 % 0x20;
        if sfi == 0 {
          return NoTarget(SW_INCORRECT_P1P2);
        }
        var found := Fs.FindBySfi(nvm, sel.df, sfi);
        if found.Failure? {
          return NoTarget(StatusSw(found.error));
        }
        return At(found.value, p2);
      }
      if sel.ef == INVALID_INDEX {
        return NoTarget(SW_NO_CURRENT_EF);
      }
      return At(sel.ef, U16(p1, p2));
    }

    method ReadBinary(c: Command, r: R.Builder) returns (sw: u16)
      requires Valid() && Fresh(r)
      modifies r, r.buf
      ensures Valid() && r.Valid()
      ensures Answer(sw, r.Abs(), sel, []) == CmdRead(Table(nvm.Abs()), nvm.flash[..], sel, c, r.buf.Length)
    {
      hide Sound, DecodeSlot, BinaryTarget, EfRead, StatusSw;
      if |c.data| != 0 {
        return SW_LC_INCONSISTENT;
      }
      if !c.lePresent {
        return SW_WRONG_LENGTH;
      }
      var target := ResolveTarget(c.p1, c.p2);
      if target.NoTarget? {
        return target.sw;
      }
      if c.le > 256 {
        return SW_NO_DIAGNOSIS;
      }
      var bytes := Fs.ReadEf(nvm, target.index, target.offset, c.le);
      if bytes.Failure? {
        return StatusSw(bytes.error);
      }
      var ok := r.Append(bytes.value);
      if !ok {
        return SW_NO_DIAGNOSIS;
      }
      return if |bytes.value| < c.le then SW_END_OF_FILE else SW_OK;
    }

    /** The state a handler must leave: answer a carried out on the chip, write by write, and on the selection. */
    twostate predicate Carried(a: Answer, sw: u16)
      reads this, nvm, nvm.eeprom, nvm.flash
      requires old(Valid())
    {
      && Valid() && sw == a.sw && sel == a.sel
      && nvm.Abs() == ExecAll(old(nvm.Abs()), a.writes) && nvm.log == old(nvm.log) + a.writes
    }

    method UpdateBinary(c: Command) returns (sw: u16)
      requires Valid()
      modifies nvm.flash, nvm`log
      ensures Carried(CmdUpdate(old(Table(nvm.Abs())), nvm.flash.Length, sel, c), sw)
    {
      hide Sound, DecodeSlot, BinaryTarget, EfWrite, StatusSw, Exec;
      if |c.data| == 0 {
        return SW_WRONG_LENGTH;
      }
      if c.lePresent {
        return SW_WRONG_LENGTH;
      }
      var target := ResolveTarget(c.p1, c.p2);
      if target.NoTarget? {
        return target.sw;
      }
      var st := Fs.WriteEf(nvm, target.index, target.offset, c.data);
      OkIsOk();
      return StatusSw(st);
    }

    lemma OkIsOk()
      ensures StatusSw(FsTypes.Ok) == SW_OK
    {}

    // -------------------------------------------------------- create, delete

    method CreateFile(c: Command) returns (sw: u16)
      requires Valid() && |c.data| < 0x1_0000
      modifies nvm, nvm.eeprom
      ensures Carried(CmdCreate(old(Table(nvm.Abs())), old(nvm.dataTop), nvm.flash.Length, sel, c), sw)
    {
      hide DecodeSlot, Create, F.ParseFcp, StatusSw, Exec;
      if c.p1 != 0 || c.p2 != 0 {
        return SW_INCORRECT_P1P2;
      }
      if |c.data| == 0 {
        return SW_WRONG_LENGTH;
      }
      var req := F.Parse(c.data);
      if req.Rejected? {
        return req.sw;
      }
      var st, _ := Fs.CreateFile(nvm, sel, req.req);
      OkIsOk();
      return StatusSw(st);
    }

    method DeleteFile(c: Command) returns (sw: u16)
      requires Valid()
      modifies `sel, nvm.eeprom, nvm`log
      ensures Carried(CmdDelete(old(Table(nvm.Abs())), old(sel), c), sw)
    {
      hide Sound, DecodeSlot, Delete, StatusSw, Exec, Num16, Deselect;
      if c.p1 != 0 || c.p2 != 0 {
        return SW_INCORRECT_P1P2;
      }
      if |c.data| != 2 {
        return SW_WRONG_LENGTH;
      }
      var st;
      st, sel := Fs.DeleteFile(nvm, sel, Num16(c.data));
      OkIsOk();
      return StatusSw(st);
    }

    /** The commands that change files return no data. */
    lemma NoData(k: Disk, c: Command)
      requires |k.table| <= MAX_FILES && |k.flash| < 0x1_0000_0000
      ensures CmdUpdate(k.table, |k.flash|, sel, c).rsp == R.Empty
      ensures CmdCreate(k.table, k.top, |k.flash|, sel, c).rsp == R.Empty
      ensures CmdDelete(k.table, sel, c).rsp == R.Empty
    {
      hide BinaryTarget, EfWrite, F.ParseFcp, Create, Delete, StatusSw;
    }

    method Route(c: Command, r: R.Builder) returns (sw: u16)
      requires Valid() && Fresh(r) && |c.data| < 0x1_0000
      modifies `sel, nvm, nvm.eeprom, nvm.flash, r, r.buf
      ensures r.Valid()
      ensures var a := Dispatch(old(View(nvm.Abs())), old(sel), c, r.buf.Length);
              Carried(a, sw) && r.Abs() == a.rsp
    {
      hide DecodeSlot, CmdSelect, CmdRead, CmdUpdate, CmdCreate, CmdDelete, Exec, Table;
      NoData(View(nvm.Abs()), c);
      if c.ins == INS_SELECT {
        sw := Select(c, r);
      } else if c.ins == INS_READ_BINARY {
        sw := ReadBinary(c, r);
      } else if c.ins == INS_UPDATE_BINARY {
        sw := UpdateBinary(c);
      } else if c.ins == INS_CREATE_FILE {
        sw := CreateFile(c);
      } else if c.ins == INS_DELETE_FILE {
        sw := DeleteFile(c);
      } else {
        return SW_INS_NOT_SUPPORTED;
      }
    }

    // ---------------------------------------------------------------- kernel

    /** Cold boot. */
    method Init() returns (ok: bool)
      requires Valid()
      modifies this, nvm, nvm.eeprom
      ensures Valid() && Abs() == PowerUp(old(nvm.Abs())) && (ok <==> life == Operational)
    {
      life, sel, resets := Initialising, Selection(0, 0), 0;
      var st := Factory.Init(nvm);
      if st != FsTypes.Ok {
        life := FsError;
        return false;
      }
      sel := Reset;
      life := Operational;
      return true;
    }

    /** Warm reset: all volatile state goes, the reset counter wraps at 32 bits. */
    method Restart()
      requires Valid()
      modifies this
      ensures Valid() && Abs() == WarmReset(old(Abs()))
    {
      resets := (resets + 1) % 0x1_0000_0000;
      sel := Reset;
      life := Operational;
    }

    /** One command string in, one answer out; without room for a status word there is no answer. */
    method Handle(cmd: seq<byte>, rsp: array<byte>) returns (ok: bool, n: nat)
      requires Valid() && rsp.Length < 0x1_0000 && rsp != nvm.eeprom && rsp != nvm.flash
      modifies this, nvm, nvm.eeprom, nvm.flash, rsp
      ensures ok <==> rsp.Length >= 2
      ensures !ok ==> Valid() && Abs() == old(Abs()) && rsp[..] == old(rsp[..])
      ensures ok ==> Valid() && n <= rsp.Length && (Abs(), rsp[..n]) == Process(old(Abs()), cmd, rsp.Length)
      ensures ok ==> nvm.log == old(nvm.log) + old(Answered(Abs(), cmd, rsp.Length).writes)
    {
      if rsp.Length < 2 {
        return false, 0;
      }
      var r := new R.Builder(rsp);
      var sw: u16;
      if life == FsError {
        sw := SW_MEMORY_FAILURE;
      } else if life != Operational {
        sw := SW_CONDITIONS_NOT_SATISFIED;
      } else {
        var p := Parse(cmd);
        if !p.Parsed? {
          sw := ParsingSw(p);
        } else if CheckCla(p.cmd.cla) != ClaOk {
          sw := ClaSw(CheckCla(p.cmd.cla));
        } else {
          sw := Route(p.cmd, r);
        }
      }
      n := r.Close(sw);
      return true, n;
    }
  }
}
