/**
  The boot loader's command protocol over two NOR regions: OSFLASH holds the
  image, OSHDR the slot header. `Handle` is the step function on values; the
  class `Rom` is the in-place implementation proved against it.
 */
module BootLoader {
  import opened Bytes
  import opened BootHeader
  import opened Crc16
  import CF = CodeFlash

  const SW_OK: u16 := 0x9000
  const SW_WRONG_LENGTH: u16 := 0x6700
  const SW_WRONG_P1P2: u16 := 0x6A86
  const SW_NO_SPACE: u16 := 0x6A84
  const SW_COND_NOT_MET: u16 := 0x6985
  const SW_MEMORY_FAILURE: u16 := 0x6581
  const SW_NOT_FOUND: u16 := 0x6A82
  const SW_BAD_DATA: u16 := 0x6A80
  const SW_DATA_INVALID: u16 := 0x6984
  const SW_INS_NOT_SUP: u16 := 0x6D00
  const SW_CLA_NOT_SUP: u16 := 0x6E00

  const CLA: byte := 0x80
  const INS_GET_STATUS: byte := 0xF2
  const INS_ERASE: byte := 0x0E
  const INS_LOAD: byte := 0x54
  const INS_VERIFY: byte := 0xA0
  const INS_ACTIVATE: byte := 0x44
  const INS_RESTART: byte := 0xF0

  const BLOCK := 128
  const STATUS_LEN := 16

  /** Chip geometry, fixed for the life of the part. */
  datatype Chip = Chip(page: u32, loadAddr: u32, sramBase: u32, sramSize: u32)

  /** The loader's memory: both flash regions and the two volatile fields. */
  datatype Loader = Loader(osflash: seq<byte>, oshdr: seq<byte>, highWater: u32, erased: bool)

  datatype Slot = Blank | Loaded | Active | Damaged

  datatype Reply = Reply(sw: u16, data: seq<byte>, restart: bool, next: Loader)

  // --------------------------------------------------------- slot inspection

  function SlotOf(oshdr: seq<byte>, osflash: seq<byte>): Slot {
    if |oshdr| < HDR_SIZE then Damaged
    else match Parse(oshdr)
      case None => Blank
      case Some(h) =>
        if h.length == 0 || h.length > |osflash| then Damaged
        else if Crc(osflash[..h.length]) != h.imageCrc then Damaged
        else if h.state == STATE_ACTIVE then Active
        else Loaded
  }

  /** The first two words are a usable ARMv7-M stack pointer and reset vector. */
  predicate Plausible(img: seq<byte>, chip: Chip) {
    && |img| >= 8
    && var sp := U32(img[3], img[2], img[1], img[0]);
    && var pc := U32(img[7], img[6], img[5], img[4]);
    && chip.sramBase < sp <= chip.sramBase + chip.sramSize
    && sp % 4 == 0
    && pc % 2 == 1
    && chip.loadAddr <= pc - 1 < chip.loadAddr + |img|
  }

  function SlotCode(s: Slot): byte {
    match s
    case Blank => 0
    case Loaded => 1
    case Active => 2
    case Damaged => 3
  }

  ghost function StatusBytes(st: Slot, size: u32, length: u32, crc: u16, erased: bool, high: u32): (r: seq<byte>)
    ensures |r| == STATUS_LEN
  {
    [1, SlotCode(st)] + Be32(size) + Be32(length) + Be16(crc)
    + [BLOCK, if erased then 1 else 0, high / 0x100 % 0x100, high % 0x100]
  }

  /** Length and image CRC are reported only for a slot whose image checks out. */
  ghost function StatusRecord(l: Loader): (r: seq<byte>)
    requires |l.osflash| < 0x1_0000_0000
    ensures |r| == STATUS_LEN
  {
    var st := SlotOf(l.oshdr, l.osflash);
    var h := if st == Loaded || st == Active then Parse(l.oshdr).value else Header(0, 0, 0, 0);
    StatusBytes(st, |l.osflash|, h.length, h.imageCrc, l.erased, l.highWater)
  }

  // --------------------------------------------------------------- commands

  function DoErase(chip: Chip, l: Loader): (u16, Loader) {
    if CF.EraseStatus(|l.oshdr|, chip.page) != CF.Ok then (SW_MEMORY_FAILURE, l)
    else
      var half := l.(oshdr := Fill(|l.oshdr|, ERASED));
      if CF.EraseStatus(|l.osflash|, chip.page) != CF.Ok then (SW_MEMORY_FAILURE, half)
      else (SW_OK, Loader(Fill(|l.osflash|, ERASED), half.oshdr, 0, true))
  }

  function DoLoad(l: Loader, block: u16, data: seq<byte>): (u16, Loader)
    requires |l.osflash| < 0x1_0000_0000
  {
    var off := block * BLOCK;
    if !l.erased then (SW_COND_NOT_MET, l)
    else if |data| == 0 || |data| > BLOCK then (SW_WRONG_LENGTH, l)
    else if off + |data| > |l.osflash| then (SW_NO_SPACE, l)
    else if CF.ProgramStatus(l.osflash, off, data) == CF.ErrNotErased then (SW_COND_NOT_MET, l)
    else if CF.ProgramStatus(l.osflash, off, data) != CF.Ok then (SW_MEMORY_FAILURE, l)
    else (SW_OK, l.(osflash := Splice(l.osflash, off, data),
                    highWater := if off + |data| > l.highWater then off + |data| else l.highWater))
  }

  /** What VERIFY answers before it writes: 9000 when the header may be programmed. */
  function VerifyVerdict(chip: Chip, l: Loader, length: u32, crc: u16): u16 {
    if length == 0 || length > |l.osflash| then SW_NO_SPACE
    else if length > l.highWater then SW_BAD_DATA
    else if Crc(l.osflash[..length]) != crc then SW_BAD_DATA
    else if !Plausible(l.osflash[..length], chip) then SW_DATA_INVALID
    else SW_OK
  }

  ghost function DoVerify(chip: Chip, l: Loader, data: seq<byte>): (u16, Loader) {
    if |data| != 6 then (SW_WRONG_LENGTH, l)
    else if !l.erased then (SW_COND_NOT_MET, l)
    else
      var length := U32(data[0], data[1], data[2], data[3]);
      var crc := U16(data[4], data[5]);
      var verdict := VerifyVerdict(chip, l, length, crc);
      var raw := Serialised(length, crc);
      if verdict != SW_OK then (verdict, l)
      else if CF.ProgramStatus(l.oshdr, 0, raw) != CF.Ok then (SW_MEMORY_FAILURE, l)
      else (SW_OK, l.(oshdr := Splice(l.oshdr, 0, raw)))
  }

  function DoActivate(l: Loader): (u16, Loader) {
    match SlotOf(l.oshdr, l.osflash)
    case Blank => (SW_NOT_FOUND, l)
    case Damaged => (SW_DATA_INVALID, l)
    case Active => (SW_OK, l)
    case Loaded =>
      if CF.ProgramStatus(l.oshdr, 14, [0, 0]) != CF.Ok then (SW_MEMORY_FAILURE, l)
      else (SW_OK, l.(oshdr := Splice(l.oshdr, 14, [0, 0])))
  }

  // --------------------------------------------------------------- dispatch

  /** The data field: bytes after Lc when the command is longer than five bytes. */
  function DataOf(cmd: seq<byte>): seq<byte> {
    if |cmd| > 5 then cmd[5..] else []
  }

  predicate WellFormed(cmd: seq<byte>)
    requires |cmd| >= 4
  {
    if |cmd| > 5 then cmd[4] != 0 && cmd[4] == |cmd| - 5
    else if |cmd| == 5 then cmd[4] == 0 || cmd[1] == INS_GET_STATUS
    else true
  }

  function Refuse(sw: u16, l: Loader): Reply {
    Reply(sw, [], false, l)
  }

  function Done(r: (u16, Loader)): Reply {
    Reply(r.0, [], false, r.1)
  }

  ghost function Handle(chip: Chip, l: Loader, cmd: seq<byte>, cap: nat): (r: Reply)
    requires |l.osflash| < 0x1_0000_0000
  {
    if |cmd| < 4 then Refuse(SW_WRONG_LENGTH, l)
    else if cmd[0] != CLA then Refuse(SW_CLA_NOT_SUP, l)
    else if !WellFormed(cmd) then Refuse(SW_WRONG_LENGTH, l)
    else Dispatch(chip, l, cmd[1], cmd[2], cmd[3], DataOf(cmd), cap)
  }

  ghost function Dispatch(chip: Chip, l: Loader, ins: byte, p1: byte, p2: byte, data: seq<byte>, cap: nat): Reply
    requires |l.osflash| < 0x1_0000_0000
  {
    if ins == INS_LOAD then
      if data == [] then Refuse(SW_WRONG_LENGTH, l) else Done(DoLoad(l, U16(p1, p2), data))
    else if ins == INS_VERIFY then
      if data == [] then Refuse(SW_WRONG_LENGTH, l)
      else if p1 != 0 || p2 != 0 then Refuse(SW_WRONG_P1P2, l)
      else Done(DoVerify(chip, l, data))
    else if !(ins in {INS_GET_STATUS, INS_ERASE, INS_ACTIVATE, INS_RESTART}) then Refuse(SW_INS_NOT_SUP, l)
    else if data != [] then Refuse(SW_WRONG_LENGTH, l)
    else if p1 != 0 || p2 != 0 then Refuse(SW_WRONG_P1P2, l)
    else if ins == INS_GET_STATUS then
      if cap < STATUS_LEN then Refuse(SW_WRONG_LENGTH, l) else Reply(SW_OK, StatusRecord(l), false, l)
    else if ins == INS_ERASE then Done(DoErase(chip, l))
    else if ins == INS_ACTIVATE then Done(DoActivate(l))
    else if SlotOf(l.oshdr, l.osflash) != Active then Refuse(SW_NOT_FOUND, l)
    else Reply(SW_OK, [], true, l)
  }

  /** A card reset seen by the loader: the flash survives, the load session does not. */
  function Reset(l: Loader): Loader {
    l.(erased := false, highWater := 0)
  }

  // ---------------------------------------------------------- implementation

  method FillStatus(rsp: array<byte>, st: Slot, size: u32, length: u32, crc: u16, erased: bool, high: u32)
    requires rsp.Length >= STATUS_LEN
    modifies rsp
    ensures rsp[..STATUS_LEN] == StatusBytes(st, size, length, crc, erased, high)
  {
    hide Be16, Be32, Num16, Num32;
    rsp[0], rsp[1] := 1, SlotCode(st);
    ghost var head := [1, SlotCode(st)];
    assert rsp[..2] == head;
    PutU32(rsp, 2, size);
    assert rsp[..6] == head + Be32(size);
    PutU32(rsp, 6, length);
    assert rsp[..10] == head + Be32(size) + Be32(length);
    PutU16(rsp, 10, crc);
    assert rsp[..12] == head + Be32(size) + Be32(length) + Be16(crc);
    rsp[12], rsp[13] := BLOCK, if erased then 1 else 0;
    rsp[14], rsp[15] := high / 0x100 % 0x100, high % 0x100;
    assert rsp[..12] == head + Be32(size) + Be32(length) + Be16(crc);
  }

  class Rom {
    const osflash: array<byte>
    const oshdr: array<byte>
    const chip: Chip
    var highWater: u32
    var erased: bool

    ghost predicate Valid() {
      osflash != oshdr && osflash.Length < 0x1_0000_0000 && oshdr.Length < 0x1_0000_0000
    }

    ghost function Abs(): Loader
      reads this, osflash, oshdr
    {
      Loader(osflash[..], oshdr[..], highWater, erased)
    }

    constructor (osflash: array<byte>, oshdr: array<byte>, chip: Chip)
      requires osflash != oshdr && osflash.Length < 0x1_0000_0000 && oshdr.Length < 0x1_0000_0000
      ensures Valid() && this.osflash == osflash && this.oshdr == oshdr && this.chip == chip
      ensures Abs() == Loader(osflash[..], oshdr[..], 0, false)
    {
      this.osflash, this.oshdr, this.chip := osflash, oshdr, chip;
      highWater, erased := 0, false;
    }

    method CheckSlot() returns (st: Slot, h: Header)
      requires Valid()
      ensures st == SlotOf(oshdr[..], osflash[..])
      ensures st == Loaded || st == Active ==> Parse(oshdr[..]) == Some(h)
    {
      h := Header(0, 0, 0, 0);
      if oshdr.Length < HDR_SIZE {
        return Damaged, h;
      }
      var parsed := Parse(oshdr[..]);
      if parsed.None? {
        return Blank, h;
      }
      h := parsed.value;
      if h.length == 0 || h.length > osflash.Length {
        return Damaged, h;
      }
      var crc := Compute(osflash, h.length);
      assert osflash[..h.length] == osflash[..][..h.length];
      if crc != h.imageCrc {
        return Damaged, h;
      }
      st := if h.state == STATE_ACTIVE then Active else Loaded;
    }

    /** Header first, then image; the ghost results are the regions after every store. */
    method EraseSlot() returns (sw: u16, ghost hdrSteps: seq<seq<byte>>, ghost imgSteps: seq<seq<byte>>)
      requires Valid()
      modifies this, osflash, oshdr
      ensures (sw, Abs()) == DoErase(chip, old(Abs()))
      ensures hdrSteps == if CF.EraseStatus(oshdr.Length, chip.page) == CF.Ok
                          then CF.Stores(old(oshdr[..]), 0, Fill(oshdr.Length, ERASED)) else []
      ensures imgSteps == if sw == SW_OK then CF.Stores(old(osflash[..]), 0, Fill(osflash.Length, ERASED)) else []
    {
      imgSteps := [];
      var st: CF.Status;
      st, hdrSteps := CF.EraseAll(oshdr, chip.page);
      if st != CF.Ok {
        return SW_MEMORY_FAILURE, hdrSteps, imgSteps;
      }
      st, imgSteps := CF.EraseAll(osflash, chip.page);
      if st != CF.Ok {
        return SW_MEMORY_FAILURE, hdrSteps, imgSteps;
      }
      erased, highWater := true, 0;
      sw := SW_OK;
    }

    method Load(p1: byte, p2: byte, data: seq<byte>) returns (sw: u16, ghost steps: seq<seq<byte>>)
      requires Valid()
      modifies this, osflash
      ensures (sw, Abs()) == DoLoad(old(Abs()), U16(p1, p2), data)
      ensures sw == SW_OK ==> U16(p1, p2) * BLOCK + |data| <= osflash.Length
      ensures sw == SW_OK ==> steps == CF.Stores(old(osflash[..]), U16(p1, p2) * BLOCK, data)
      ensures sw != SW_OK ==> steps == []
    {
      steps := [];
      if !erased {
        return SW_COND_NOT_MET, steps;
      }
      if |data| == 0 || |data| > BLOCK {
        return SW_WRONG_LENGTH, steps;
      }
      var off := U16(p1, p2) * BLOCK;
      var end := off + |data|;
      if end > osflash.Length {
        return SW_NO_SPACE, steps;
      }
      var st: CF.Status;
      st, steps := CF.Program(osflash, off, data);
      if st == CF.ErrNotErased {
        return SW_COND_NOT_MET, steps;
      }
      if st != CF.Ok {
        return SW_MEMORY_FAILURE, steps;
      }
      if end > highWater {
        highWater := end;
      }
      sw := SW_OK;
    }

    method Verify(data: seq<byte>) returns (sw: u16, ghost steps: seq<seq<byte>>)
      requires Valid()
      modifies oshdr
      ensures (sw, Abs()) == DoVerify(chip, old(Abs()), data)
      ensures sw == SW_OK ==> |data| == 6 && |oshdr[..]| >= HDR_SIZE
      ensures sw == SW_OK ==> steps == CF.Stores(old(oshdr[..]), 0,
                Serialised(U32(data[0], data[1], data[2], data[3]), U16(data[4], data[5])))
      ensures sw != SW_OK ==> steps == []
    {
      steps := [];
      if |data| != 6 {
        return SW_WRONG_LENGTH, steps;
      }
      if !erased {
        return SW_COND_NOT_MET, steps;
      }
      var length := U32(data[0], data[1], data[2], data[3]);
      var crc := U16(data[4], data[5]);
      if length == 0 || length > osflash.Length {
        return SW_NO_SPACE, steps;
      }
      if length > highWater {
        return SW_BAD_DATA, steps;
      }
      assert osflash[..length] == osflash[..][..length];
      var found := Compute(osflash, length);
      if found != crc {
        return SW_BAD_DATA, steps;
      }
      if !Plausible(osflash[..length], chip) {
        return SW_DATA_INVALID, steps;
      }
      var raw := new byte[HDR_SIZE];
      Serialise(Header(length, crc, STATE_LOADED, VERSION), raw);
      var st: CF.Status;
      st, steps := CF.Program(oshdr, 0, raw[..]);
      sw := if st != CF.Ok then SW_MEMORY_FAILURE else SW_OK;
    }

    method Activate() returns (sw: u16, ghost steps: seq<seq<byte>>)
      requires Valid()
      modifies oshdr
      ensures (sw, Abs()) == DoActivate(old(Abs()))
      ensures steps == if SlotOf(old(oshdr[..]), old(osflash[..])) == Loaded && sw == SW_OK
                       then CF.Stores(old(oshdr[..]), 14, [0, 0]) else []
    {
      steps := [];
      var st, h := CheckSlot();
      if st == Blank {
        return SW_NOT_FOUND, steps;
      }
      if st == Damaged {
        return SW_DATA_INVALID, steps;
      }
      if st == Active {
        return SW_OK, steps;
      }
      var cst: CF.Status;
      cst, steps := CF.Program(oshdr, 14, [0, 0]);
      sw := if cst != CF.Ok then SW_MEMORY_FAILURE else SW_OK;
    }

    method BuildStatus(rsp: array<byte>) returns (sw: u16, len: nat)
      requires Valid() && rsp != osflash && rsp != oshdr
      modifies rsp
      ensures len <= rsp.Length
      ensures rsp.Length < STATUS_LEN ==> sw == SW_WRONG_LENGTH && len == 0
      ensures rsp.Length >= STATUS_LEN ==> sw == SW_OK && rsp[..len] == StatusRecord(old(Abs()))
    {
      if rsp.Length < STATUS_LEN {
        return SW_WRONG_LENGTH, 0;
      }
      var st, h := CheckSlot();
      if !(st == Loaded || st == Active) {
        h := Header(0, 0, 0, 0);
      }
      FillStatus(rsp, st, osflash.Length, h.length, h.imageCrc, erased, highWater);
      return SW_OK, STATUS_LEN;
    }

    method Run(cmd: seq<byte>, rsp: array<byte>) returns (sw: u16, len: nat, restart: bool)
      requires Valid() && rsp != osflash && rsp != oshdr
      modifies this, osflash, oshdr, rsp
      ensures len <= rsp.Length
      ensures Reply(sw, rsp[..len], restart, Abs()) == Handle(chip, old(Abs()), cmd, rsp.Length)
    {
      len, restart := 0, false;
      if |cmd| < 4 {
        return SW_WRONG_LENGTH, len, restart;
      }
      if cmd[0] != CLA {
        return SW_CLA_NOT_SUP, len, restart;
      }
      if !WellFormed(cmd) {
        return SW_WRONG_LENGTH, len, restart;
      }
      sw, len, restart := Route(cmd[1], cmd[2], cmd[3], DataOf(cmd), rsp);
    }

    method Route(ins: byte, p1: byte, p2: byte, data: seq<byte>, rsp: array<byte>)
      returns (sw: u16, len: nat, restart: bool)
      requires Valid() && rsp != osflash && rsp != oshdr
      modifies this, osflash, oshdr, rsp
      ensures len <= rsp.Length
      ensures Reply(sw, rsp[..len], restart, Abs()) == Dispatch(chip, old(Abs()), ins, p1, p2, data, rsp.Length)
    {
      len, restart := 0, false;
      if ins == INS_LOAD {
        if data == [] {
          return SW_WRONG_LENGTH, len, restart;
        }
        ghost var steps;
        sw, steps := Load(p1, p2, data);
        return;
      }
      if ins == INS_VERIFY {
        if data == [] {
          return SW_WRONG_LENGTH, len, restart;
        }
        if p1 != 0 || p2 != 0 {
          return SW_WRONG_P1P2, len, restart;
        }
        ghost var steps;
        sw, steps := Verify(data);
        return;
      }
      if !(ins in {INS_GET_STATUS, INS_ERASE, INS_ACTIVATE, INS_RESTART}) {
        return SW_INS_NOT_SUP, len, restart;
      }
      if data != [] {
        return SW_WRONG_LENGTH, len, restart;
      }
      if p1 != 0 || p2 != 0 {
        return SW_WRONG_P1P2, len, restart;
      }
      if ins == INS_GET_STATUS {
        sw, len := BuildStatus(rsp);
      } else if ins == INS_ERASE {
        ghost var a, b;
        sw, a, b := EraseSlot();
      } else if ins == INS_ACTIVATE {
        ghost var steps;
        sw, steps := Activate();
      } else {
        var st, h := CheckSlot();
        if st != Active {
          return SW_NOT_FOUND, len, restart;
        }
        sw, restart := SW_OK, true;
      }
    }
  }
}
