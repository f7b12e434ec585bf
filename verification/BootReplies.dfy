/**
  What the boot loader answers, for every command string and after every run:
  the gate in front of the six instructions, and each of them in terms of what
  was sent and what the slot describes.
 */
module BootReplies {
  import opened Bytes
  import opened BootHeader
  import opened BootLoader
  import opened Crc16
  import CF = CodeFlash
  import BH = BootHistory
  import HT = HostTool
  import LS = LoaderScript

  // ---------------------------------------------------------------- the gate

  /** The bytes of a command: four of header, then Lc and data if there are any. */
  ghost function Spelled(ins: byte, p1: byte, p2: byte, data: seq<byte>): seq<byte>
    requires |data| < 0x100
  {
    [0x80, ins, p1, p2] + if data == [] then [] else [|data|] + data
  }

  predicate TakesData(ins: byte) {
    ins == 0x54 || ins == 0xA0
  }

  predicate TakesNone(ins: byte) {
    ins == 0xF2 || ins == 0x0E || ins == 0x44 || ins == 0xF0
  }

  /** A string an instruction gets to see: with its data, or none; a lone fifth byte is zero, or any Le of F2. */
  ghost predicate Reaches(cmd: seq<byte>, ins: byte, p1: byte, p2: byte, data: seq<byte>) {
    && |data| < 0x100
    && ((TakesData(ins) && data != []) || (TakesNone(ins) && data == []))
    && (ins != 0x54 ==> p1 == 0 && p2 == 0)
    && (|| cmd == Spelled(ins, p1, p2, data)
        || (data == [] && |cmd| == 5 && cmd[..4] == Spelled(ins, p1, p2, []) && (cmd[4] == 0 || ins == 0xF2)))
  }

  /** The Lc byte agrees with the length of the string. */
  predicate LengthsAgree(cmd: seq<byte>) {
    |cmd| >= 4 && (|cmd| == 5 ==> cmd[4] == 0 || cmd[1] == 0xF2) && (|cmd| > 5 ==> cmd[4] == |cmd| - 5)
  }

  /** Every string that reaches no instruction is refused, by the first thing that is wrong with it. */
  lemma GateExactly(chip: Chip, l: Loader, cmd: seq<byte>, cap: nat)
    requires |l.osflash| < 0x1_0000_0000
    ensures (exists ins: byte, p1: byte, p2: byte, data: seq<byte> :: Reaches(cmd, ins, p1, p2, data))
            || var r := Handle(chip, l, cmd, cap);
               && r.data == [] && !r.restart && r.next == l
               && r.sw == if |cmd| < 4 then 0x6700
                          else if cmd[0] != 0x80 then 0x6E00
                          else if !LengthsAgree(cmd) then 0x6700
                          else if !TakesData(cmd[1]) && !TakesNone(cmd[1]) then 0x6D00
                          else if TakesData(cmd[1]) != (|cmd| > 5) then 0x6700
                          else 0x6A86
  {
    hide DoErase, DoLoad, DoVerify, DoActivate, StatusRecord, SlotOf;
    if |cmd| >= 4 && cmd[0] == 0x80 && LengthsAgree(cmd) {
      var ins, p1, p2, data := cmd[1], cmd[2], cmd[3], DataOf(cmd);
      assert data != [] ==> cmd == Spelled(ins, p1, p2, data);
      assert cmd[..4] == Spelled(ins, p1, p2, []);
      assert |cmd| == 4 ==> cmd == Spelled(ins, p1, p2, []);
      if ((TakesData(ins) && data != []) || (TakesNone(ins) && data == [])) && (ins != 0x54 ==> p1 == 0 && p2 == 0) {
        assert Reaches(cmd, ins, p1, p2, data);
      }
    }
  }

  /** A string that reaches an instruction is dispatched with just these fields. */
  lemma GateOpens(chip: Chip, l: Loader, cmd: seq<byte>, cap: nat, ins: byte, p1: byte, p2: byte, data: seq<byte>)
    requires |l.osflash| < 0x1_0000_0000 && Reaches(cmd, ins, p1, p2, data)
    ensures Handle(chip, l, cmd, cap) == Dispatch(chip, l, ins, p1, p2, data, cap)
  {
    hide Dispatch;
    if data != [] {
      assert cmd[5..] == data;
    } else {
      assert cmd[..4] == [0x80, ins, p1, p2];
      assert cmd[0] == cmd[..4][0] && cmd[1] == cmd[..4][1] && cmd[2] == cmd[..4][2] && cmd[3] == cmd[..4][3];
    }
  }

  // ---------------------------------------------------------------- the slot

  /** The header is a sealed one for an image of n bytes with this CRC. */
  ghost predicate Describes(oshdr: seq<byte>, n: u32, crc: u16) {
    |oshdr| >= 16 && oshdr[..14] == Sealed(n, crc)
  }

  /** The slot states, by what the header describes and whether the flash holds it. */
  lemma SlotExactly(l: Loader)
    requires |l.osflash| < 0x1_0000_0000
    ensures SlotOf(l.oshdr, l.osflash) == Blank <==>
              |l.oshdr| >= 16 && !exists n: u32, crc: u16 :: Describes(l.oshdr, n, crc)
    ensures BH.Offers(l) <==>
              exists n: u32 | 0 < n <= |l.osflash| :: Describes(l.oshdr, n, Crc(l.osflash[..n]))
    ensures forall n: u32 | 0 < n <= |l.osflash| && Describes(l.oshdr, n, Crc(l.osflash[..n])) ::
              BH.Offers(l) && BH.Offered(l) == l.osflash[..n]
    ensures SlotOf(l.oshdr, l.osflash) == Active <==> BH.Offers(l) && l.oshdr[14..16] == [0, 0]
  {
    hide Crc, Sealed, Parse, Num16;
    if |l.oshdr| >= 16 {
      forall n: u32, crc: u16
        ensures Describes(l.oshdr, n, crc) <==>
                  Parse(l.oshdr) == Some(Header(n, crc, Num16(l.oshdr[14..16]), VERSION))
      {
        ParseExactly(l.oshdr, n, crc);
      }
      if Parse(l.oshdr).Some? {
        ParsedIsSealed(l.oshdr);
        var h := Parse(l.oshdr).value;
        ParseExactly(l.oshdr, h.length, h.imageCrc);
        assert Describes(l.oshdr, h.length, h.imageCrc);
      }
      StateWord(l.oshdr);
    }
  }

  lemma StateWord(oshdr: seq<byte>)
    requires |oshdr| >= 16
    ensures Num16(oshdr[14..16]) == STATE_ACTIVE <==> oshdr[14..16] == [0, 0]
  {
    hide Num16;
    Num16Zero(oshdr[14..16]);
  }

  lemma Num16Zero(s: seq<byte>)
    requires |s| == 2
    ensures Num16(s) == STATE_ACTIVE <==> s == [0, 0]
  {}

  // -------------------------------------------------------------- GET STATUS

  /** The sixteen bytes of a status reply, field by field. */
  ghost predicate StatusReads(l: Loader, out: seq<byte>)
    requires |l.osflash| < 0x1_0000_0000
  {
    && |out| == 16 && out[0] == 1
    && (out[1] == 0 <==> SlotOf(l.oshdr, l.osflash) == Blank)
    && (out[1] == 1 <==> SlotOf(l.oshdr, l.osflash) == Loaded)
    && (out[1] == 2 <==> SlotOf(l.oshdr, l.osflash) == Active)
    && (out[1] == 3 <==> SlotOf(l.oshdr, l.osflash) == Damaged)
    && Num32(out[2..6]) == |l.osflash|
    && (if BH.Offers(l) then Num32(out[6..10]) == |BH.Offered(l)| && Num16(out[10..12]) == Crc(BH.Offered(l))
        else Num32(out[6..10]) == 0 && Num16(out[10..12]) == 0)
    && out[12] == 128
    && out[13] == (if l.erased then 1 else 0)
    && U16(out[14], out[15]) == l.highWater % 0x10000
  }

  lemma RecordFields(st: Slot, size: u32, length: u32, crc: u16, erased: bool, high: u32)
    ensures var r := StatusBytes(st, size, length, crc, erased, high);
            && r[0] == 1 && r[1] == SlotCode(st) && Num32(r[2..6]) == size
            && Num32(r[6..10]) == length && Num16(r[10..12]) == crc
            && r[12] == 128 && r[13] == (if erased then 1 else 0) && U16(r[14], r[15]) == high % 0x10000
  {
    hide Be16, Be32, Num16, Num32;
    var r := StatusBytes(st, size, length, crc, erased, high);
    assert r[2..6] == Be32(size);
    assert r[6..10] == Be32(length);
    assert r[10..12] == Be16(crc);
  }

  /** GET STATUS changes nothing and reports the slot, its image and the session; 6700 if there is no room. */
  lemma StatusExactly(chip: Chip, l: Loader, cmd: seq<byte>, cap: nat)
    requires |l.osflash| < 0x1_0000_0000 && Reaches(cmd, 0xF2, 0, 0, [])
    ensures var r := Handle(chip, l, cmd, cap);
            && r.next == l && !r.restart
            && if cap < 16 then r.sw == 0x6700 && r.data == [] else r.sw == 0x9000 && StatusReads(l, r.data)
  {
    hide DoErase, DoLoad, DoVerify, DoActivate, StatusBytes, Crc, Num16, Num32;
    GateOpens(chip, l, cmd, cap, 0xF2, 0, 0, []);
    hide Handle, Parse, Reaches;
    var st := SlotOf(l.oshdr, l.osflash);
    var h := if BH.Offers(l) then Parse(l.oshdr).value else Header(0, 0, 0, 0);
    RecordFields(st, |l.osflash|, h.length, h.imageCrc, l.erased, l.highWater);
  }

  lemma {:induction false} NothingWithoutSession(chip: Chip, l: Loader, es: seq<BH.Event>)
    requires |l.osflash| < 0x1_0000_0000 && !l.erased && l.highWater == 0
    ensures var now := BH.Run(chip, l, es); !now.erased ==> now.highWater == 0
  {
    hide DoVerify, SlotOf, Handle, BH.TornExec, CF.ProgramStatus;
    if es != [] {
      var before, e := es[..|es| - 1], es[|es| - 1];
      NothingWithoutSession(chip, l, before);
      if e.Command? {
        BH.HandleIsExec(chip, BH.Run(chip, l, before), e.cmd, e.cap);
        VerifyKeepsSession(chip, BH.Run(chip, l, before), DataOf(e.cmd));
      }
    }
  }

  lemma VerifyKeepsSession(chip: Chip, l: Loader, data: seq<byte>)
    ensures var r := DoVerify(chip, l, data).1; r.erased == l.erased && r.highWater == l.highWater
  {
    hide VerifyVerdict, CF.ProgramStatus;
  }

  /** The last cell that anything was sent to since the session's ERASE is cell n - 1. */
  ghost predicate SentEnd(log: seq<seq<byte>>, n: nat) {
    n <= |log| && (forall i | n <= i < |log| :: log[i] == []) && (n > 0 ==> log[n - 1] != [])
  }

  /**
    The session fields of GET STATUS at any point of a run from power-on: 0 and
    0 after a reset, a power cut or no ERASE yet; 1 and the end of what was
    sent, in sixteen bits, while a session is open.
   */
  lemma SessionReported(chip: Chip, l: Loader, es: seq<BH.Event>, cmd: seq<byte>)
    requires |l.osflash| < 0x1_0000_0000 && !l.erased && l.highWater == 0 && Reaches(cmd, 0xF2, 0, 0, [])
    ensures var now, log := BH.Run(chip, l, es), BH.HistoryOf(chip, l, es).log;
            var out := Handle(chip, now, cmd, 16).data;
            && |out| == 16
            && (es != [] && !es[|es| - 1].Command? ==> out[13] == 0)
            && (if out[13] == 0 then out[14] == out[15] == 0
                else out[13] == 1 && exists n: nat :: SentEnd(log, n) && U16(out[14], out[15]) == n % 0x10000)
  {
    hide Handle, BH.HistoryOf, BH.HeaderFits, BH.ImageFits, BH.CellsFit, SlotOf, BH.TornExec, Num16, Num32, Crc,
      Reaches;
    var now := BH.Run(chip, l, es);
    StatusExactly(chip, now, cmd, 16);
    NothingWithoutSession(chip, l, es);
    BH.RunConsistent(chip, l, es);
    if now.erased {
      assert SentEnd(BH.HistoryOf(chip, l, es).log, now.highWater);
    }
  }

  /** After the host's script the status line reads ACTIVE with the image's length and CRC. */
  lemma ScriptStatus(l: Loader, image: seq<byte>) returns (end: Loader)
    requires HT.OnScv1(l) && Plausible(image, HT.SCV1) && |image| <= HT.SLOT_SIZE
    ensures end == BH.Run(HT.SCV1, l, LS.Events(HT.Body(image)))
    ensures var out := Handle(HT.SCV1, end, HT.StatusCmd(), 16).data;
            |out| == 16 && out[1] == 2 && Num32(out[6..10]) == |image| && Num16(out[10..12]) == Crc(image)
  {
    hide LS.Accepts, Handle, SlotOf, Plausible, LS.SlotHeader, LS.Covers, BH.Run, Num16, Num32, Crc, LS.SlotFlash;
    var order := HT.InOrder(LS.Blocks(|image|));
    HT.InOrderCovers(image);
    var part := LS.LoadedEqualsSlot(HT.SCV1, l, image, order);
    LS.LastState(HT.SCV1, HT.Body(image), part);
    LS.AcceptedRun(HT.SCV1, HT.Body(image), part);
    end := part[|order| + 3];
    assert Reaches(HT.StatusCmd(), 0xF2, 0, 0, []);
    StatusExactly(HT.SCV1, end, HT.StatusCmd(), 16);
    LS.PlausibleIsLong(image, HT.SCV1);
    FinishedSlot(end, image);
  }

  lemma FinishedSlot(l: Loader, image: seq<byte>)
    requires 0 < |image| <= HT.SLOT_SIZE && l.osflash == LS.SlotFlash(image, HT.SLOT_SIZE)
    requires l.oshdr == LS.SlotHeader(image, HT.SLOT_HDR_SIZE, true)
    ensures SlotOf(l.oshdr, l.osflash) == Active && BH.Offered(l) == image
  {
    hide Crc, Sealed, Parse, SlotOf;
    assert l.osflash[..|image|] == image;
    assert Describes(l.oshdr, |image|, Crc(l.osflash[..|image|]));
    SlotExactly(l);
  }

  // ------------------------------------------------------------------- LOAD

  lemma LoadReply(chip: Chip, l: Loader, cmd: seq<byte>, cap: nat, block: u16, data: seq<byte>)
    requires |l.osflash| < 0x1_0000_0000 && Reaches(cmd, 0x54, block / 0x100, block % 0x100, data)
    ensures Handle(chip, l, cmd, cap) == Done(DoLoad(l, block, data)) && data != []
  {
    hide DoLoad, DoErase, DoVerify, DoActivate, Handle;
    GateOpens(chip, l, cmd, cap, 0x54, block / 0x100, block % 0x100, data);
  }

  lemma LoadOutcome(l: Loader, block: u16, data: seq<byte>)
    requires |l.osflash| < 0x1_0000_0000 && data != []
    ensures var (sw, next), off := DoLoad(l, block, data), 128 * block;
            if !l.erased then sw == 0x6985 && next == l
            else if |data| > 128 then sw == 0x6700 && next == l
            else if off + |data| > |l.osflash| then sw == 0x6A84 && next == l
            else sw == 0x9000 ==>
                 && next.osflash == l.osflash[..off] + data + l.osflash[off + |data|..]
                 && next.oshdr == l.oshdr && next.erased
                 && next.highWater == (if off + |data| > l.highWater then off + |data| else l.highWater)
  {
    hide CF.CanProgram;
  }

  /**
    LOAD at any point of a run, with off the place of its block: 6985 without a
    session, 6700 for more than 128 bytes, 6A84 beyond the region, 6985 if a
    byte would need a bit set that the last one sent there cleared; otherwise
    9000, and exactly those cells change.
   */
  lemma LoadExactly(chip: Chip, l: Loader, es: seq<BH.Event>, cmd: seq<byte>, cap: nat, block: u16, data: seq<byte>)
    requires |l.osflash| < 0x1_0000_0000 && !l.erased && Reaches(cmd, 0x54, block / 0x100, block % 0x100, data)
    ensures var now, log, off := BH.Run(chip, l, es), BH.HistoryOf(chip, l, es).log, 128 * block;
            var r := Handle(chip, now, cmd, cap);
            && r.data == [] && !r.restart
            && (now.erased ==> |log| == |now.osflash|)
            && if !now.erased then r.sw == 0x6985 && r.next == now
               else if |data| > 128 then r.sw == 0x6700 && r.next == now
               else if off + |data| > |now.osflash| then r.sw == 0x6A84 && r.next == now
               else if !BH.OnlyClearsLast(log, off, data) then r.sw == 0x6985 && r.next == now
               else && r.sw == 0x9000
                    && r.next.osflash == now.osflash[..off] + data + now.osflash[off + |data|..]
                    && r.next.oshdr == now.oshdr && r.next.erased
                    && r.next.highWater == (if off + |data| > now.highWater then off + |data| else now.highWater)
  {
    hide BH.Run, BH.HistoryOf, BH.HeaderFits, BH.ImageFits, BH.CellsFit, BH.MarkFits, BH.OnlyClearsLast, DoLoad, Handle,
      Reaches, BH.WholePages;
    var now := BH.Run(chip, l, es);
    LoadReply(chip, now, cmd, cap, block, data);
    LoadOutcome(now, block, data);
    if now.erased {
      BH.RunConsistent(chip, l, es);
      LogSize(now, BH.HistoryOf(chip, l, es).log);
      if |data| <= 128 && 128 * block + |data| <= |now.osflash| {
        BH.RepeatedLoadExactly(chip, l, es, block, data);
      }
    }
  }

  lemma LogSize(l: Loader, log: seq<seq<byte>>)
    requires BH.CellsFit(l.osflash, log)
    ensures |log| == |l.osflash|
  {}

  // --------------------------------------------------------------- the image

  /** The word that four bytes denote, the least significant first. */
  function Word(s: seq<byte>): u32
    requires |s| == 4
  {
    Num32([s[3], s[2], s[1], s[0]])
  }

  /** The stack starts above `used` bytes of SRAM, and execution, in Thumb state, at byte `entry` of the image. */
  predicate StartsAt(img: seq<byte>, chip: Chip, used: nat, entry: nat) {
    && |img| >= 8 && 1 <= used <= chip.sramSize && entry < |img|
    && Word(img[..4]) == chip.sramBase + used && Word(img[..4]) % 4 == 0
    && Word(img[4..8]) == chip.loadAddr + entry + 1 && Word(img[4..8]) % 2 == 1
  }

  ghost predicate Boots(img: seq<byte>, chip: Chip) {
    exists used: nat, entry: nat :: StartsAt(img, chip, used, entry)
  }

  lemma PlausibleIsBoots(img: seq<byte>, chip: Chip)
    ensures Plausible(img, chip) <==> Boots(img, chip)
  {
    if Plausible(img, chip) {
      var used, entry := Word(img[..4]) - chip.sramBase, Word(img[4..8]) - 1 - chip.loadAddr;
      assert StartsAt(img, chip, used, entry);
    }
  }

  // ------------------------------------------------------------------ VERIFY

  /** Something was sent, in this session, to the last of the first n cells or beyond it. */
  ghost predicate SentUpTo(log: seq<seq<byte>>, n: nat) {
    exists i | 0 <= i < |log| :: n <= i + 1 && log[i] != []
  }

  lemma MarkIsSent(l: Loader, log: seq<seq<byte>>, n: nat)
    requires BH.MarkFits(l, log) && l.erased && n > 0
    ensures n <= l.highWater <==> SentUpTo(log, n)
  {
    if n <= l.highWater {
      assert log[l.highWater - 1] != [];
    }
  }

  /** The header region can take a sealed header without setting a bit. */
  ghost predicate HeaderTakes(oshdr: seq<byte>, n: u32, crc: u16) {
    |oshdr| >= 16 && CF.OnlyCleared(oshdr[..16], Serialised(n, crc))
  }

  lemma HeaderTakesIs(oshdr: seq<byte>, n: u32, crc: u16)
    ensures CF.ProgramStatus(oshdr, 0, Serialised(n, crc)) == CF.Ok <==> HeaderTakes(oshdr, n, crc)
  {
    hide CF.Clears, Serialised;
    var raw := Serialised(n, crc);
    if |oshdr| >= 16 {
      assert forall i | 0 <= i < 16 :: oshdr[..16][i] == oshdr[0 + i];
      assert CF.CanProgram(oshdr, 0, raw) <==> forall i | 0 <= i < 16 :: CF.Clears(oshdr[0 + i], raw[i]);
    }
  }

  /**
    VERIFY of n bytes with this CRC, at any point of a run: 6700 unless the data
    is six bytes; 6985 without a session; 6A84 for none or too many; 6A80 for
    bytes that were never sent or another CRC; 6984 for an image that does not
    boot; 6581 if the header cannot take it; otherwise 9000, and the header
    describes those bytes.
   */
  lemma VerifyExactly(chip: Chip, l: Loader, es: seq<BH.Event>, cmd: seq<byte>, cap: nat, data: seq<byte>)
    requires |l.osflash| < 0x1_0000_0000 && !l.erased && Reaches(cmd, 0xA0, 0, 0, data)
    ensures var now, log := BH.Run(chip, l, es), BH.HistoryOf(chip, l, es).log;
            var r := Handle(chip, now, cmd, cap);
            && r.data == [] && !r.restart
            && if |data| != 6 then r.sw == 0x6700 && r.next == now
               else if !now.erased then r.sw == 0x6985 && r.next == now
               else
                 var n, crc := Num32(data[..4]), Num16(data[4..]);
                 if n == 0 || n > |now.osflash| then r.sw == 0x6A84 && r.next == now
                 else if !SentUpTo(log, n) || Crc(now.osflash[..n]) != crc then r.sw == 0x6A80 && r.next == now
                 else if !Boots(now.osflash[..n], chip) then r.sw == 0x6984 && r.next == now
                 else if !HeaderTakes(now.oshdr, n, crc) then r.sw == 0x6581 && r.next == now
                 else && r.sw == 0x9000 && Describes(r.next.oshdr, n, crc)
                      && r.next.oshdr[14..] == [ERASED, ERASED] + now.oshdr[16..]
                      && r.next == now.(oshdr := r.next.oshdr)
  {
    hide BH.Run, BH.HistoryOf, BH.HeaderFits, BH.ImageFits, BH.CellsFit, BH.MarkFits, CF.ProgramStatus, Plausible, Crc,
      DoErase, DoLoad, DoActivate, Sealed, HeaderTakes, SentUpTo, Boots;
    var now := BH.Run(chip, l, es);
    GateOpens(chip, now, cmd, cap, 0xA0, 0, 0, data);
    hide Handle, Reaches;
    if |data| == 6 {
      assert data[..4] == [data[0], data[1], data[2], data[3]] && data[4..] == [data[4], data[5]];
      var n, crc := U32(data[0], data[1], data[2], data[3]), U16(data[4], data[5]);
      HeaderTakesIs(now.oshdr, n, crc);
      if n <= |now.osflash| {
        PlausibleIsBoots(now.osflash[..n], chip);
      }
      if HeaderTakes(now.oshdr, n, crc) {
        HeaderRoom(now.oshdr, n, crc);
      }
      if now.erased && n > 0 {
        BH.RunConsistent(chip, l, es);
        MarkIsSent(now, BH.HistoryOf(chip, l, es).log, n);
      }
    }
  }

  lemma HeaderRoom(oshdr: seq<byte>, n: u32, crc: u16)
    requires HeaderTakes(oshdr, n, crc)
    ensures |oshdr| >= 16
    ensures var now := Splice(oshdr, 0, Serialised(n, crc));
            Describes(now, n, crc) && now[14..] == [ERASED, ERASED] + oshdr[16..]
  {
    hide CF.OnlyCleared, Sealed;
  }

  // ------------------------------------------- ACTIVATE, RESTART and ERASE

  lemma ZerosTaken(oshdr: seq<byte>)
    requires |oshdr| >= 16
    ensures CF.ProgramStatus(oshdr, 14, [0, 0]) == CF.Ok
  {
    hide CF.Clears;
    CF.ClearsExtremes(oshdr[14]);
    CF.ClearsExtremes(oshdr[15]);
  }

  /** ACTIVATE: 6A82 for a BLANK slot, 6984 for a DAMAGED one; a LOADED one has its state word cleared. */
  lemma ActivateExactly(chip: Chip, l: Loader, cmd: seq<byte>, cap: nat)
    requires |l.osflash| < 0x1_0000_0000 && Reaches(cmd, 0x44, 0, 0, [])
    ensures var r := Handle(chip, l, cmd, cap);
            && r.data == [] && !r.restart
            && match SlotOf(l.oshdr, l.osflash)
               case Blank => r.sw == 0x6A82 && r.next == l
               case Damaged => r.sw == 0x6984 && r.next == l
               case Active => r.sw == 0x9000 && r.next == l
               case Loaded =>
                 && r.sw == 0x9000 && |l.oshdr| >= 16
                 && r.next == l.(oshdr := l.oshdr[..14] + [0, 0] + l.oshdr[16..])
  {
    hide DoErase, DoLoad, DoVerify, SlotOf, CF.ProgramStatus;
    GateOpens(chip, l, cmd, cap, 0x44, 0, 0, []);
    hide Handle, Reaches;
    if SlotOf(l.oshdr, l.osflash) == Loaded {
      BH.ActivateFits(l);
      ZerosTaken(l.oshdr);
    }
  }

  /** RESTART is granted exactly for an ACTIVE slot, and refused with 6A82 otherwise. */
  lemma RestartExactly(chip: Chip, l: Loader, cmd: seq<byte>, cap: nat)
    requires |l.osflash| < 0x1_0000_0000 && Reaches(cmd, 0xF0, 0, 0, [])
    ensures var r := Handle(chip, l, cmd, cap);
            && r.data == [] && r.next == l
            && (r.restart <==> SlotOf(l.oshdr, l.osflash) == Active)
            && r.sw == if r.restart then 0x9000 else 0x6A82
  {
    hide DoErase, DoLoad, DoVerify, DoActivate, SlotOf;
    GateOpens(chip, l, cmd, cap, 0xF0, 0, 0, []);
  }

  predicate Pages(size: nat, page: nat) {
    size > 0 && page > 0 && size % page == 0
  }

  /** ERASE: both regions to ones and a session opened, if both are whole pages; the header goes first. */
  lemma EraseExactly(chip: Chip, l: Loader, cmd: seq<byte>, cap: nat)
    requires |l.osflash| < 0x1_0000_0000 && Reaches(cmd, 0x0E, 0, 0, [])
    ensures var r := Handle(chip, l, cmd, cap);
            && r.data == [] && !r.restart && (r.sw == 0x9000 || r.sw == 0x6581)
            && (r.sw == 0x9000 <==> Pages(|l.oshdr|, chip.page) && Pages(|l.osflash|, chip.page))
            && (r.sw == 0x9000 ==> r.next == Loader(Fill(|l.osflash|, 0xFF), Fill(|l.oshdr|, 0xFF), 0, true))
            && (r.sw == 0x6581 ==>
                  r.next == if Pages(|l.oshdr|, chip.page) then l.(oshdr := Fill(|l.oshdr|, 0xFF)) else l)
  {
    hide DoLoad, DoVerify, DoActivate, SlotOf;
    GateOpens(chip, l, cmd, cap, 0x0E, 0, 0, []);
  }
}
