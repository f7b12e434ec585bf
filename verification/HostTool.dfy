/**
  The host tool as it builds things in place: the loader script, the offline
  slot, and its own check of an image before it emits a script that erases.
 */
module HostTool {
  import opened Bytes
  import opened BootHeader
  import opened BootLoader
  import opened Crc16
  import opened LoaderScript
  import BH = BootHistory

  const SLOT_SIZE := 55 * 1024
  const SLOT_HDR_SIZE := 1024

  /** The part this tool builds for. */
  const SCV1 := Chip(1024, 0x2000, 0x2000_0000, 0x4000)

  /** A stack pointer and an entry point that chip finds plausible. */
  const VECTORS: seq<byte> := [0x00, 0x40, 0x00, 0x20, 0x01, 0x20, 0x00, 0x00]

  // ------------------------------------------------------------------ script

  function StatusCmd(): seq<byte> {
    Apdu(CLA, INS_GET_STATUS, 0, 0, [])
  }

  function RestartCmd(): seq<byte> {
    Apdu(CLA, INS_RESTART, 0, 0, [])
  }

  ghost function InOrder(n: nat): (s: seq<nat>)
    ensures |s| == n && forall k | 0 <= k < n :: s[k] == k
  {
    seq(n, k requires 0 <= k => k)
  }

  ghost function Body(image: seq<byte>): seq<seq<byte>>
    requires |image| < 0x1_0000_0000
  {
    [EraseCmd()] + LoadCmds(image, InOrder(Blocks(|image|))) + [VerifyCmd(image), ActivateCmd()]
  }

  ghost function Script(image: seq<byte>, restart: bool): seq<seq<byte>>
    requires |image| < 0x1_0000_0000
  {
    Body(image) + if restart then [StatusCmd(), RestartCmd()] else [StatusCmd()]
  }

  method GenOs(image: array<byte>, restart: bool) returns (out: seq<seq<byte>>)
    requires image.Length < 0x1_0000_0000
    ensures out == Script(image[..], restart)
  {
    hide Crc;
    var n := image.Length;
    assert image[..n] == image[..];
    var crc := Compute(image, n);
    var nblocks := (n + BLOCK - 1) / BLOCK;
    out := [EraseCmd()];
    for i := 0 to nblocks
      invariant |out| == i + 1 && out[0] == EraseCmd()
      invariant forall k | 0 <= k < i :: out[k + 1] == LoadCmd(image[..], k)
    {
      var hi := if (i + 1) * BLOCK < n then (i + 1) * BLOCK else n;
      var chunk := image[..][i * BLOCK..hi];
      out := out + [Apdu(CLA, INS_LOAD, i / 0x100 % 0x100, i % 0x100, chunk)];
    }
    assert out == [EraseCmd()] + LoadCmds(image[..], InOrder(nblocks));
    Be32Bytes(n);
    Be16Bytes(crc);
    var body := [n / 0x100_0000, n / 0x1_0000 % 0x100, n / 0x100 % 0x100, n % 0x100] + [crc / 0x100, crc % 0x100];
    out := out + [Apdu(CLA, INS_VERIFY, 0, 0, body), ActivateCmd()];
    out := out + if restart then [StatusCmd(), RestartCmd()] else [StatusCmd()];
  }

  // -------------------------------------------------------------------- slot

  method WriteSlot(image: array<byte>, active: bool) returns (ok: bool, osflash: seq<byte>, oshdr: seq<byte>)
    ensures ok <==> image.Length <= SLOT_SIZE
    ensures ok ==> osflash == SlotFlash(image[..], SLOT_SIZE)
    ensures ok ==> oshdr == SlotHeader(image[..], SLOT_HDR_SIZE, active)
  {
    hide Crc;
    osflash, oshdr := [], [];
    var n := image.Length;
    if n > SLOT_SIZE {
      return false, osflash, oshdr;
    }
    osflash := image[..] + Fill(SLOT_SIZE - n, ERASED);
    assert image[..n] == image[..];
    var crc := Compute(image, n);
    var hdr := new byte[SLOT_HDR_SIZE](_ => ERASED);
    FillHeader(hdr, n, crc, if active then 0 else ERASED);
    return true, osflash, hdr[..];
  }

  method FillHeader(hdr: array<byte>, n: u32, crc: u16, state: byte)
    requires hdr.Length >= HDR_SIZE
    modifies hdr
    ensures hdr[..] == Sealed(n, crc) + [state, state] + old(hdr[HDR_SIZE..])
  {
    hide Sealed;
    FillSealed(hdr, n, crc);
    hdr[14], hdr[15] := state, state;
    assert hdr[..14] == Sealed(n, crc);
    assert hdr[HDR_SIZE..] == old(hdr[HDR_SIZE..]);
  }

  // --------------------------------------------------------- the host's check

  function StackWord(image: seq<byte>): u32
    requires |image| >= 8
  {
    U32(image[3], image[2], image[1], image[0])
  }

  lemma InOrderCovers(image: seq<byte>)
    ensures Covers(image, InOrder(Blocks(|image|)))
  {
    var order := InOrder(Blocks(|image|));
    forall i | 0 <= i < Blocks(|image|)
      ensures i in order
    {
      assert order[i] == i;
    }
  }

  /** What the tool tests before it emits a script whose first command is ERASE. */
  predicate HostAccepts(image: seq<byte>) {
    && |image| >= 8
    && var pc := U32(image[7], image[6], image[5], image[4]);
    && 0x2000_0000 < StackWord(image) <= 0x2000_4000
    && pc % 2 == 1
    && 0x2000 <= pc - 1 < 0x2000 + |image|
  }

  /** A loader over the part's own regions. */
  ghost predicate OnScv1(l: Loader) {
    |l.osflash| == SLOT_SIZE && |l.oshdr| == SLOT_HDR_SIZE
  }

  // ------------------------------------------------- what the script ends in

  /** A request that touches neither region. */
  lemma QuietCommand(l: Loader, cmd: seq<byte>)
    requires |l.osflash| < 0x1_0000_0000 && BH.OpOf(cmd) == BH.Other
    ensures BH.Run(SCV1, l, Events([cmd])) == l
  {
    hide Handle;
    RunOne(l, cmd);
  }

  lemma RunOne(l: Loader, cmd: seq<byte>)
    requires |l.osflash| < 0x1_0000_0000
    ensures BH.Run(SCV1, l, Events([cmd])) == BH.Exec(SCV1, l, BH.OpOf(cmd)).1
  {
    hide Handle, BH.Exec, BH.OpOf;
    var es := Events([cmd]);
    assert es[..0] == [];
    assert BH.Run(SCV1, l, []) == l;
    BH.HandleIsExec(SCV1, l, cmd, STATUS_LEN);
  }

  lemma RunMore(l: Loader, cmds: seq<seq<byte>>, more: seq<seq<byte>>)
    requires |l.osflash| < 0x1_0000_0000
    ensures BH.Run(SCV1, l, Events(cmds + more)) == BH.Run(SCV1, BH.Run(SCV1, l, Events(cmds)), Events(more))
  {
    assert Events(cmds + more) == Events(cmds) + Events(more);
    BH.RunAppend(SCV1, l, Events(cmds), Events(more));
  }

  /** GET STATUS and RESTART change nothing. */
  lemma TailKeeps(l: Loader, restart: bool)
    requires |l.osflash| < 0x1_0000_0000
    ensures BH.Run(SCV1, l, Events(if restart then [StatusCmd(), RestartCmd()] else [StatusCmd()])) == l
  {
    hide BH.Run, BH.Exec;
    QuietCommand(l, StatusCmd());
    QuietCommand(l, RestartCmd());
    RunMore(l, [StatusCmd()], [RestartCmd()]);
    assert [StatusCmd()] + [RestartCmd()] == [StatusCmd(), RestartCmd()];
  }

  lemma LoadOp(image: seq<byte>, i: nat)
    requires i < Blocks(|image|)
    ensures BH.OpOf(LoadCmd(image, i)).Load?
  {
    var cmd, c := LoadCmd(image, i), Chunk(image, i);
    assert cmd == [CLA, INS_LOAD, i / 0x100 % 0x100, i % 0x100, |c|] + c;
    assert |cmd| > 5 && DataOf(cmd) == c;
  }

  /** LOADs, accepted or not, leave the header alone. */
  lemma {:induction false} LoadsKeepHeader(l: Loader, image: seq<byte>, order: seq<nat>)
    requires |l.osflash| < 0x1_0000_0000 && forall k | 0 <= k < |order| :: order[k] < Blocks(|image|)
    ensures var r := BH.Run(SCV1, l, Events(LoadCmds(image, order))); r.oshdr == l.oshdr && r.erased == l.erased
    decreases |order|
  {
    hide BH.OpOf, LoadCmd, Handle, BH.Exec;
    var cmds := LoadCmds(image, order);
    if order == [] {
      assert Events(cmds) == [];
    } else {
      var k := |order| - 1;
      LoadsKeepHeader(l, image, order[..k]);
      assert cmds == LoadCmds(image, order[..k]) + [LoadCmd(image, order[k])];
      RunMore(l, LoadCmds(image, order[..k]), [LoadCmd(image, order[k])]);
      var r := BH.Run(SCV1, l, Events(LoadCmds(image, order[..k])));
      RunOne(r, LoadCmd(image, order[k]));
      LoadOp(image, order[k]);
      OneLoadKeepsHeader(r, BH.OpOf(LoadCmd(image, order[k])));
    }
  }

  lemma OneLoadKeepsHeader(l: Loader, op: BH.Op)
    requires |l.osflash| < 0x1_0000_0000 && op.Load?
    ensures var r := BH.Exec(SCV1, l, op).1; r.oshdr == l.oshdr && r.erased == l.erased
  {}

  /** A refused VERIFY over an erased header leaves ACTIVATE nothing to do. */
  lemma RefusedVerifyIsBlank(l: Loader, image: seq<byte>)
    requires OnScv1(l) && l.oshdr == Fill(SLOT_HDR_SIZE, ERASED) && |image| < 0x1_0000_0000
    requires DoVerify(SCV1, l, Be32(|image|) + Be16(Crc(image))).0 != SW_OK
    ensures BH.Run(SCV1, l, Events([VerifyCmd(image), ActivateCmd()])) == l && SlotOf(l.oshdr, l.osflash) == Blank
  {
    hide Crc, SlotOf, DoVerify, VerifyCmd, BH.Run, Be32, Be16;
    VerifyOpOf(image);
    BH.RefusedVerify(SCV1, l, Be32(|image|) + Be16(Crc(image)));
    RunOne(l, VerifyCmd(image));
    RunOne(l, ActivateCmd());
    BH.ErasedSlotIsBlank(l.oshdr, l.osflash);
    RunMore(l, [VerifyCmd(image)], [ActivateCmd()]);
    assert [VerifyCmd(image)] + [ActivateCmd()] == [VerifyCmd(image), ActivateCmd()];
  }

  lemma OversizeVerify(l: Loader, image: seq<byte>)
    requires OnScv1(l) && l.erased && SLOT_SIZE < |image| < 0x1_0000_0000
    ensures DoVerify(SCV1, l, Be32(|image|) + Be16(Crc(image))).0 == SW_NO_SPACE
  {
    hide Crc, Plausible;
    VerifyOpOf(image);
  }

  lemma FullVerify(image: seq<byte>)
    requires 0 < |image| <= SLOT_SIZE && !Plausible(image, SCV1)
    ensures DoVerify(SCV1, Full(image, SLOT_SIZE, SLOT_HDR_SIZE), Be32(|image|) + Be16(Crc(image))).0 != SW_OK
  {
    hide Plausible, Crc, DoVerify, Handle;
    VerifyOpOf(image);
    VerifyAnswers(SCV1, image, SLOT_SIZE, SLOT_HDR_SIZE);
    BH.HandleIsExec(SCV1, Full(image, SLOT_SIZE, SLOT_HDR_SIZE), VerifyCmd(image), STATUS_LEN);
  }

  lemma HostAcceptedPlausible(image: seq<byte>)
    requires HostAccepts(image)
    ensures Plausible(image, SCV1) <==> StackWord(image) % 4 == 0
  {}

  /** The state after ERASE and every block, whether or not the blocks fit. */
  ghost function AfterLoads(l: Loader, image: seq<byte>): Loader
    requires |l.osflash| < 0x1_0000_0000
  {
    BH.Run(SCV1, l, Events([EraseCmd()] + LoadCmds(image, InOrder(Blocks(|image|)))))
  }

  lemma AfterLoadsHeader(l: Loader, image: seq<byte>)
    requires OnScv1(l)
    ensures var r := AfterLoads(l, image); OnScv1(r) && r.erased && r.oshdr == Fill(SLOT_HDR_SIZE, ERASED)
  {
    hide BH.Run, Blocks;
    var loads := LoadCmds(image, InOrder(Blocks(|image|)));
    RunMore(l, [EraseCmd()], loads);
    RunOne(l, EraseCmd());
    EraseOp(l);
    LoadsKeepHeader(BH.Run(SCV1, l, Events([EraseCmd()])), image, InOrder(Blocks(|image|)));
  }

  lemma EraseOp(l: Loader)
    requires OnScv1(l)
    ensures BH.OpOf(EraseCmd()) == BH.Erase
    ensures var r := DoErase(SCV1, l).1; OnScv1(r) && r.erased && r.oshdr == Fill(SLOT_HDR_SIZE, ERASED)
  {
    assert BH.WholePages(SCV1, l);
  }

  lemma AfterLoadsFull(l: Loader, image: seq<byte>)
    requires OnScv1(l) && 0 < |image| <= SLOT_SIZE
    ensures AfterLoads(l, image) == Full(image, SLOT_SIZE, SLOT_HDR_SIZE)
  {
    hide AllAccepted, BH.Run, Covers;
    assert BH.WholePages(SCV1, l);
    InOrderCovers(image);
    var states := LoadPhase(SCV1, l, image, InOrder(Blocks(|image|)));
    AcceptedRun(SCV1, [EraseCmd()] + LoadCmds(image, InOrder(Blocks(|image|))), states);
  }

  /** The rest of the script after the loads. */
  lemma ScriptSplits(l: Loader, image: seq<byte>, restart: bool)
    requires OnScv1(l) && |image| < 0x1_0000_0000
    ensures BH.Run(SCV1, l, Events(Script(image, restart)))
         == BH.Run(SCV1, AfterLoads(l, image), Events([VerifyCmd(image), ActivateCmd()]))
  {
    hide BH.Run, VerifyCmd, Blocks;
    var loads := [EraseCmd()] + LoadCmds(image, InOrder(Blocks(|image|)));
    var tail := if restart then [StatusCmd(), RestartCmd()] else [StatusCmd()];
    RunMore(l, Body(image), tail);
    RunMore(l, loads, [VerifyCmd(image), ActivateCmd()]);
    assert Body(image) == loads + [VerifyCmd(image), ActivateCmd()];
    TailKeeps(BH.Run(SCV1, l, Events(Body(image))), restart);
  }

  lemma GoodImageActivates(l: Loader, image: seq<byte>)
    requires OnScv1(l) && Plausible(image, SCV1) && |image| <= SLOT_SIZE
    ensures var end := BH.Run(SCV1, AfterLoads(l, image), Events([VerifyCmd(image), ActivateCmd()]));
            SlotOf(end.oshdr, end.osflash) == Active
  {
    hide AllAccepted, BH.Run, SlotOf, Plausible, Covers, SlotHeader, VerifyCmd;
    assert BH.WholePages(SCV1, l);
    InOrderCovers(image);
    var loads := [EraseCmd()] + LoadCmds(image, InOrder(Blocks(|image|)));
    var states := LoadedEqualsSlot(SCV1, l, image, InOrder(Blocks(|image|)));
    AcceptedRun(SCV1, loads + [VerifyCmd(image), ActivateCmd()], states);
    RunMore(l, loads, [VerifyCmd(image), ActivateCmd()]);
  }

  /**
    Every image the host accepts, and every card: the whole script, whatever
    its commands are answered, ends with the slot ACTIVE exactly when the image
    fits the slot and its stack pointer is word aligned, and BLANK otherwise.
   */
  lemma HostAcceptedOutcome(l: Loader, image: seq<byte>, restart: bool)
    requires OnScv1(l) && HostAccepts(image) && |image| < 0x1_0000_0000
    ensures var end := BH.Run(SCV1, l, Events(Script(image, restart)));
            SlotOf(end.oshdr, end.osflash)
            == if |image| <= SLOT_SIZE && StackWord(image) % 4 == 0 then Active else Blank
  {
    hide SlotOf, BH.Run, Plausible, Script, AfterLoads, DoVerify, VerifyCmd, Crc, Be32, Be16;
    HostAcceptedPlausible(image);
    ScriptSplits(l, image, restart);
    if |image| <= SLOT_SIZE && Plausible(image, SCV1) {
      GoodImageActivates(l, image);
    } else {
      AfterLoadsHeader(l, image);
      var r := AfterLoads(l, image);
      if |image| > SLOT_SIZE {
        OversizeVerify(r, image);
      } else {
        AfterLoadsFull(l, image);
        FullVerify(image);
      }
      RefusedVerifyIsBlank(r, image);
    }
  }

  /** Two images the host lets through: one misaligned, one too large. */
  lemma HostCheckIsTooWeak()
    ensures var bad := [0x02, 0x00, 0x00, 0x20, 0x01, 0x20, 0x00, 0x00];
            HostAccepts(bad) && |bad| <= SLOT_SIZE && StackWord(bad) % 4 != 0
    ensures var tall := [0x00, 0x40, 0x00, 0x20, 0x01, 0x20, 0x00, 0x00] + Fill(SLOT_SIZE, ERASED);
            HostAccepts(tall) && |tall| > SLOT_SIZE && StackWord(tall) % 4 == 0
  {}

  /** The whole generated script, status query and restart included, is accepted and boots the image. */
  lemma ScriptBoots(l: Loader, image: seq<byte>) returns (states: seq<Loader>)
    requires OnScv1(l) && Plausible(image, SCV1) && |image| <= SLOT_SIZE
    ensures AllAccepted(SCV1, Script(image, true), states) && states[0] == l
    ensures var end := states[|Script(image, true)|];
            && end.osflash == SlotFlash(image, SLOT_SIZE) && end.oshdr == SlotHeader(image, SLOT_HDR_SIZE, true)
            && Handle(SCV1, end, RestartCmd(), STATUS_LEN).restart
  {
    hide Accepts, Handle, SlotOf, Plausible, SlotHeader, Covers;
    assert BH.WholePages(SCV1, l);
    var order := InOrder(Blocks(|image|));
    InOrderCovers(image);
    var part := LoadedEqualsSlot(SCV1, l, image, order);
    var end := part[|order| + 3];
    StatusAndRestart(end);
    AppendTwo(SCV1, Body(image), part, StatusCmd(), RestartCmd(), end, end);
    states := part + [end, end];
  }

  lemma StatusAndRestart(l: Loader)
    requires |l.osflash| < 0x1_0000_0000 && SlotOf(l.oshdr, l.osflash) == Active
    ensures Accepts(SCV1, l, StatusCmd(), l) && Accepts(SCV1, l, RestartCmd(), l)
    ensures Handle(SCV1, l, RestartCmd(), STATUS_LEN).restart
  {
    hide DoLoad, DoVerify, DoErase, DoActivate, StatusRecord, SlotOf;
    assert Handle(SCV1, l, StatusCmd(), STATUS_LEN) == Reply(SW_OK, StatusRecord(l), false, l);
    assert Handle(SCV1, l, RestartCmd(), STATUS_LEN) == Reply(SW_OK, [], true, l);
  }
}
