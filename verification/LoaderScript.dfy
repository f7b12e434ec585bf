/**
  The host side: the loader script built from an image, the slot image written
  offline, and the theorem that the card ends up with the same bytes either way.
 */
module LoaderScript {
  import opened Bytes
  import opened BootHeader
  import opened BootLoader
  import opened Crc16
  import CF = CodeFlash
  import BH = BootHistory

  /** The most the 16-bit block number of LOAD can address. */
  const MAX_IMAGE := 0x1_0000 * BLOCK

  function Apdu(cla: byte, ins: byte, p1: byte, p2: byte, data: seq<byte>): seq<byte>
    requires |data| < 0x100
  {
    if data != [] then [cla, ins, p1, p2, |data|] + data else [cla, ins, p1, p2, 0]
  }

  function Blocks(n: nat): nat {
    (n + BLOCK - 1) / BLOCK
  }

  function Chunk(image: seq<byte>, i: nat): (c: seq<byte>)
    requires i < Blocks(|image|)
    ensures 0 < |c| <= BLOCK
  {
    image[i * BLOCK..if (i + 1) * BLOCK < |image| then (i + 1) * BLOCK else |image|]
  }

  function EraseCmd(): seq<byte> {
    Apdu(CLA, INS_ERASE, 0, 0, [])
  }

  function LoadCmd(image: seq<byte>, i: nat): seq<byte>
    requires i < Blocks(|image|)
  {
    Apdu(CLA, INS_LOAD, i / 0x100 % 0x100, i % 0x100, Chunk(image, i))
  }

  ghost function VerifyCmd(image: seq<byte>): seq<byte>
    requires |image| < 0x1_0000_0000
  {
    Apdu(CLA, INS_VERIFY, 0, 0, Be32(|image|) + Be16(Crc(image)))
  }

  function ActivateCmd(): seq<byte> {
    Apdu(CLA, INS_ACTIVATE, 0, 0, [])
  }

  // ------------------------------------------------------ running a script

  /** cmd is answered 9000 in state l and leads to state next. */
  ghost predicate Accepts(chip: Chip, l: Loader, cmd: seq<byte>, next: Loader) {
    && |l.osflash| < 0x1_0000_0000
    && var r := Handle(chip, l, cmd, STATUS_LEN);
    r.sw == SW_OK && r.next == next
  }

  /** Every command of the script is accepted, passing through these states. */
  ghost predicate AllAccepted(chip: Chip, cmds: seq<seq<byte>>, states: seq<Loader>) {
    |states| == |cmds| + 1 && forall k | 0 <= k < |cmds| :: Accepts(chip, states[k], cmds[k], states[k + 1])
  }

  lemma OpAccepted(chip: Chip, l: Loader, cmd: seq<byte>, op: BH.Op)
    requires |l.osflash| < 0x1_0000_0000 && BH.OpOf(cmd) == op && op != BH.Other
    requires BH.Exec(chip, l, op).0 == SW_OK
    ensures Accepts(chip, l, cmd, BH.Exec(chip, l, op).1)
  {
    BH.HandleIsExec(chip, l, cmd, STATUS_LEN);
  }

  // ------------------------------------------------------- partial images

  /** OSFLASH after exactly the blocks in `done` have been loaded onto erased flash. */
  ghost function Partial(image: seq<byte>, size: nat, done: set<nat>): (m: seq<byte>)
    ensures |m| == size
    ensures forall j | 0 <= j < size ::
              m[j] == if j < |image| && j / BLOCK in done then image[j] else ERASED
  {
    seq(size, j requires 0 <= j => if j < |image| && j / BLOCK in done then image[j] else ERASED)
  }

  lemma LoadOpOf(image: seq<byte>, i: nat)
    requires |image| <= MAX_IMAGE && i < Blocks(|image|)
    ensures i < 0x1_0000 && BH.OpOf(LoadCmd(image, i)) == BH.Load(i, Chunk(image, i))
  {
    var cmd, c := LoadCmd(image, i), Chunk(image, i);
    assert cmd == [CLA, INS_LOAD, i / 0x100 % 0x100, i % 0x100, |c|] + c;
    if |cmd| > 5 {
      assert DataOf(cmd) == c;
    }
  }

  /** The bytes of block i are exactly those whose offset divided by the block size is i. */
  lemma ChunkCells(image: seq<byte>, i: nat, j: nat)
    requires i < Blocks(|image|) && j < |image|
    ensures j / BLOCK == i <==> i * BLOCK <= j < i * BLOCK + |Chunk(image, i)|
    ensures j / BLOCK == i ==> Chunk(image, i)[j - i * BLOCK] == image[j]
    ensures i * BLOCK + |Chunk(image, i)| <= |image|
  {}

  lemma LoadBlock(image: seq<byte>, size: nat, done: set<nat>, i: nat)
    requires i < Blocks(|image|) && |image| <= size
    ensures i * BLOCK + |Chunk(image, i)| <= size
    ensures CF.CanProgram(Partial(image, size, done), i * BLOCK, Chunk(image, i))
    ensures Splice(Partial(image, size, done), i * BLOCK, Chunk(image, i)) == Partial(image, size, done + {i})
  {
    assert |image| > 0;
    hide CF.Clears, Chunk, Blocks;
    var c, m := Chunk(image, i), Partial(image, size, done);
    forall j | 0 <= j < |image|
      ensures j / BLOCK == i <==> i * BLOCK <= j < i * BLOCK + |c|
      ensures j / BLOCK == i ==> c[j - i * BLOCK] == image[j]
    {
      ChunkCells(image, i, j);
    }
    ChunkCells(image, i, 0);
    forall k | 0 <= k < |c|
      ensures CF.Clears(m[i * BLOCK + k], c[k])
    {
      var j := i * BLOCK + k;
      assert c[j - i * BLOCK] == image[j];
      CF.ClearsExtremes(c[k]);
      CF.ClearsItself(c[k]);
    }
    assert Splice(m, i * BLOCK, c) == Partial(image, size, done + {i});
  }

  ghost function Sent(order: seq<nat>, k: nat): set<nat>
    requires k <= |order|
  {
    set i | 0 <= i < k :: order[i]
  }

  /** The end of the furthest of the first k blocks sent. */
  ghost function High(image: seq<byte>, order: seq<nat>, k: nat): (h: nat)
    requires k <= |order| && forall i | 0 <= i < |order| :: order[i] < Blocks(|image|)
    ensures h <= |image|
  {
    if k == 0 then 0
    else
      var end := order[k - 1] * BLOCK + |Chunk(image, order[k - 1])|;
      if end > High(image, order, k - 1) then end else High(image, order, k - 1)
  }

  /** The loader after ERASE and the first k blocks sent. */
  ghost function Loading(image: seq<byte>, order: seq<nat>, k: nat, size: nat, hdrSize: nat): Loader
    requires k <= |order| && forall i | 0 <= i < |order| :: order[i] < Blocks(|image|)
    requires |image| <= size < 0x1_0000_0000
  {
    Loader(Partial(image, size, Sent(order, k)), Fill(hdrSize, ERASED), High(image, order, k), true)
  }

  /** A block may arrive at any time and be repeated. */
  lemma LoadAccepted(chip: Chip, image: seq<byte>, order: seq<nat>, k: nat, size: nat, hdrSize: nat)
    requires k < |order| && forall i | 0 <= i < |order| :: order[i] < Blocks(|image|)
    requires |image| <= MAX_IMAGE && |image| <= size < 0x1_0000_0000
    ensures Accepts(chip, Loading(image, order, k, size, hdrSize), LoadCmd(image, order[k]),
                    Loading(image, order, k + 1, size, hdrSize))
  {
    hide CF.Clears, Chunk, Blocks, Partial, DoErase, DoVerify, DoActivate, LoadCmd, BH.OpOf, Accepts;
    var l, i := Loading(image, order, k, size, hdrSize), order[k];
    LoadOpOf(image, i);
    LoadBlock(image, size, Sent(order, k), i);
    assert Sent(order, k + 1) == Sent(order, k) + {i};
    OpAccepted(chip, l, LoadCmd(image, i), BH.Load(i, Chunk(image, i)));
  }

  lemma EraseAccepted(chip: Chip, l: Loader, image: seq<byte>, order: seq<nat>)
    requires BH.WholePages(chip, l) && |image| <= |l.osflash| < 0x1_0000_0000
    requires forall i | 0 <= i < |order| :: order[i] < Blocks(|image|)
    ensures Accepts(chip, l, EraseCmd(), Loading(image, order, 0, |l.osflash|, |l.oshdr|))
  {
    OpAccepted(chip, l, EraseCmd(), BH.Erase);
    assert Partial(image, |l.osflash|, Sent(order, 0)) == Fill(|l.osflash|, ERASED);
  }

  // ---------------------------------------------------------- the whole load

  /** Every block of the image is sent at least once, nothing else is. */
  ghost predicate Covers(image: seq<byte>, order: seq<nat>) {
    && (forall k | 0 <= k < |order| :: order[k] < Blocks(|image|))
    && (forall i | 0 <= i < Blocks(|image|) :: i in order)
  }

  lemma CoveredImage(image: seq<byte>, order: seq<nat>, size: nat)
    requires Covers(image, order) && 0 < |image| <= size
    ensures Partial(image, size, Sent(order, |order|)) == image + Fill(size - |image|, ERASED)
    ensures High(image, order, |order|) == |image|
  {
    forall j | 0 <= j < |image|
      ensures j / BLOCK in Sent(order, |order|)
    {
      assert j / BLOCK in order;
    }
    var last := Blocks(|image|) - 1;
    assert last in order;
    var k :| 0 <= k < |order| && order[k] == last;
    HighReached(image, order, k, |order|);
  }

  lemma {:induction false} HighReached(image: seq<byte>, order: seq<nat>, k: nat, n: nat)
    requires forall i | 0 <= i < |order| :: order[i] < Blocks(|image|)
    requires k < n <= |order| && order[k] == Blocks(|image|) - 1
    ensures High(image, order, n) == |image|
  {
    if k + 1 < n {
      HighReached(image, order, k, n - 1);
    }
  }

  /** The image region as the offline tool writes it. */
  function SlotFlash(image: seq<byte>, size: nat): seq<byte>
    requires |image| <= size
  {
    image + Fill(size - |image|, ERASED)
  }

  /** The header region as the offline tool writes it. */
  ghost function SlotHeader(image: seq<byte>, size: nat, active: bool): (h: seq<byte>)
    requires HDR_SIZE <= size && |image| < 0x1_0000_0000
    ensures |h| == size
  {
    Sealed(|image|, Crc(image)) + (if active then [0, 0] else [ERASED, ERASED]) + Fill(size - HDR_SIZE, ERASED)
  }

  lemma VerifyOpOf(image: seq<byte>)
    requires |image| < 0x1_0000_0000
    ensures BH.OpOf(VerifyCmd(image)) == BH.Verify(Be32(|image|) + Be16(Crc(image)))
    ensures var d := Be32(|image|) + Be16(Crc(image));
            |d| == 6 && U32(d[0], d[1], d[2], d[3]) == |image| && U16(d[4], d[5]) == Crc(image)
  {
    hide Crc;
    var d := Be32(|image|) + Be16(Crc(image));
    assert DataOf(VerifyCmd(image)) == d;
    assert d[..4] == Be32(|image|) && d[4..] == Be16(Crc(image));
    assert Num32(Be32(|image|)) == U32(d[0], d[1], d[2], d[3]);
    assert Num16(Be16(Crc(image))) == U16(d[4], d[5]);
  }

  /** The loader once the whole image is in flash and the header still erased. */
  function Full(image: seq<byte>, size: nat, hdrSize: nat): Loader
    requires |image| <= size < 0x1_0000_0000
  {
    Loader(SlotFlash(image, size), Fill(hdrSize, ERASED), |image|, true)
  }

  /** VERIFY of a fully loaded image is a test of plausibility alone. */
  lemma VerifyAnswers(chip: Chip, image: seq<byte>, size: nat, hdrSize: nat)
    requires 0 < |image| <= size < 0x1_0000_0000 && HDR_SIZE <= hdrSize
    ensures var l := Full(image, size, hdrSize);
            var r := Handle(chip, l, VerifyCmd(image), STATUS_LEN);
            if Plausible(image, chip)
            then r.sw == SW_OK && r.next == l.(oshdr := SlotHeader(image, hdrSize, false))
            else r.sw == SW_DATA_INVALID && r.next == l
  {
    hide Crc, Plausible, DoErase, DoLoad, DoActivate, CF.Clears;
    var l := Full(image, size, hdrSize);
    VerifyOpOf(image);
    BH.HandleIsExec(chip, l, VerifyCmd(image), STATUS_LEN);
    assert l.osflash[..|image|] == image;
    var raw := Serialised(|image|, Crc(image));
    forall i | 0 <= i < |raw|
      ensures CF.Clears(l.oshdr[0 + i], raw[i])
    {
      CF.ClearsExtremes(raw[i]);
    }
    assert Splice(l.oshdr, 0, raw) == SlotHeader(image, hdrSize, false);
  }

  lemma SlotHeaderState(image: seq<byte>, size: nat, hdrSize: nat, active: bool)
    requires 0 < |image| <= size < 0x1_0000_0000 && HDR_SIZE <= hdrSize
    ensures SlotOf(SlotHeader(image, hdrSize, active), SlotFlash(image, size)) == if active then Active else Loaded
  {
    hide Crc, Sealed;
    var h := SlotHeader(image, hdrSize, active);
    assert h[..14] == Sealed(|image|, Crc(image));
    ParseExactly(h, |image|, Crc(image));
    assert h[14..16] == if active then [0, 0] else [ERASED, ERASED];
    assert SlotFlash(image, size)[..|image|] == image;
  }

  /** Clearing the state word of a LOADED header gives the ACTIVE header. */
  lemma ActivateHeader(image: seq<byte>, hdrSize: nat)
    requires |image| < 0x1_0000_0000 && HDR_SIZE <= hdrSize
    ensures var h := SlotHeader(image, hdrSize, false);
            CF.ProgramStatus(h, 14, [0, 0]) == CF.Ok && Splice(h, 14, [0, 0]) == SlotHeader(image, hdrSize, true)
  {
    hide CF.Clears, Sealed;
    var h := SlotHeader(image, hdrSize, false);
    CF.ClearsExtremes(h[14]);
    CF.ClearsExtremes(h[15]);
    assert CF.CanProgram(h, 14, [0, 0]);
    assert Splice(h, 14, [0, 0]) == SlotHeader(image, hdrSize, true);
  }

  lemma ActivateFromLoaded(chip: Chip, l: Loader)
    requires |l.osflash| < 0x1_0000_0000 && SlotOf(l.oshdr, l.osflash) == Loaded
    requires CF.ProgramStatus(l.oshdr, 14, [0, 0]) == CF.Ok
    ensures Accepts(chip, l, ActivateCmd(), l.(oshdr := Splice(l.oshdr, 14, [0, 0])))
  {
    hide SlotOf, CF.ProgramStatus, DoErase, DoLoad, DoVerify;
    OpAccepted(chip, l, ActivateCmd(), BH.Activate);
  }

  lemma ActivateAccepted(chip: Chip, image: seq<byte>, size: nat, hdrSize: nat)
    requires 0 < |image| <= size < 0x1_0000_0000 && HDR_SIZE <= hdrSize
    ensures var l := Full(image, size, hdrSize);
            Accepts(chip, l.(oshdr := SlotHeader(image, hdrSize, false)), ActivateCmd(),
                    l.(oshdr := SlotHeader(image, hdrSize, true)))
  {
    hide SlotOf, Accepts, CF.ProgramStatus, SlotHeader;
    SlotHeaderState(image, size, hdrSize, false);
    ActivateHeader(image, hdrSize);
    ActivateFromLoaded(chip, Full(image, size, hdrSize).(oshdr := SlotHeader(image, hdrSize, false)));
  }

  ghost function LoadCmds(image: seq<byte>, order: seq<nat>): (cmds: seq<seq<byte>>)
    requires forall k | 0 <= k < |order| :: order[k] < Blocks(|image|)
    ensures |cmds| == |order| && forall k | 0 <= k < |order| :: cmds[k] == LoadCmd(image, order[k])
  {
    seq(|order|, k requires 0 <= k < |order| => LoadCmd(image, order[k]))
  }

  /** The states from any loader l through ERASE and the blocks in the given order. */
  lemma LoadPhase(chip: Chip, l: Loader, image: seq<byte>, order: seq<nat>) returns (states: seq<Loader>)
    requires BH.WholePages(chip, l) && HDR_SIZE <= |l.oshdr| && |l.osflash| < 0x1_0000_0000
    requires 0 < |image| <= |l.osflash| && |image| <= MAX_IMAGE && Covers(image, order)
    ensures AllAccepted(chip, [EraseCmd()] + LoadCmds(image, order), states)
    ensures states[0] == l && states[|order| + 1] == Full(image, |l.osflash|, |l.oshdr|)
  {
    hide Accepts, Partial, High;
    var cmds := [EraseCmd()] + LoadCmds(image, order);
    var size, hdrSize := |l.osflash|, |l.oshdr|;
    states := [l] + seq(|order| + 1, k requires 0 <= k <= |order| => Loading(image, order, k, size, hdrSize));
    forall k | 0 <= k < |cmds|
      ensures Accepts(chip, states[k], cmds[k], states[k + 1])
    {
      if k == 0 {
        EraseAccepted(chip, l, image, order);
      } else {
        LoadAccepted(chip, image, order, k - 1, size, hdrSize);
      }
    }
    CoveredImage(image, order, size);
  }

  /**
    From any prior flash contents, ERASE, then the blocks of a plausible image
    in any order and with any repeats, then VERIFY and ACTIVATE are all
    answered 9000, and leave exactly the bytes the offline tool writes.
   */
  lemma LoadedEqualsSlot(chip: Chip, l: Loader, image: seq<byte>, order: seq<nat>) returns (states: seq<Loader>)
    requires BH.WholePages(chip, l) && HDR_SIZE <= |l.oshdr| && |l.osflash| < 0x1_0000_0000
    requires Plausible(image, chip) && |image| <= |l.osflash| && |image| <= MAX_IMAGE && Covers(image, order)
    ensures AllAccepted(chip, [EraseCmd()] + LoadCmds(image, order) + [VerifyCmd(image), ActivateCmd()], states)
    ensures states[0] == l
    ensures var end := states[|order| + 3];
            && end == Loader(SlotFlash(image, |l.osflash|), SlotHeader(image, |l.oshdr|, true), |image|, true)
            && SlotOf(end.oshdr, end.osflash) == Active
  {
    hide SlotOf, Crc, Plausible, Accepts, SlotHeader, AllAccepted;
    PlausibleIsLong(image, chip);
    var size, hdrSize := |l.osflash|, |l.oshdr|;
    var full := Full(image, size, hdrSize);
    var part := LoadPhase(chip, l, image, order);
    VerifyAccepted(chip, image, size, hdrSize);
    ActivateAccepted(chip, image, size, hdrSize);
    SlotHeaderState(image, size, hdrSize, true);
    var tail := [full.(oshdr := SlotHeader(image, hdrSize, false)), full.(oshdr := SlotHeader(image, hdrSize, true))];
    AppendTwo(chip, [EraseCmd()] + LoadCmds(image, order), part, VerifyCmd(image), ActivateCmd(), tail[0], tail[1]);
    LastState(chip, [EraseCmd()] + LoadCmds(image, order), part);
    states := part + tail;
  }

  lemma PlausibleIsLong(image: seq<byte>, chip: Chip)
    requires Plausible(image, chip)
    ensures |image| >= 8
  {}

  lemma VerifyAccepted(chip: Chip, image: seq<byte>, size: nat, hdrSize: nat)
    requires 0 < |image| <= size < 0x1_0000_0000 && HDR_SIZE <= hdrSize && Plausible(image, chip)
    ensures var l := Full(image, size, hdrSize);
            Accepts(chip, l, VerifyCmd(image), l.(oshdr := SlotHeader(image, hdrSize, false)))
  {
    hide Plausible, Handle, SlotHeader, VerifyCmd, Crc;
    VerifyAnswers(chip, image, size, hdrSize);
  }

  lemma LastState(chip: Chip, cmds: seq<seq<byte>>, states: seq<Loader>)
    requires AllAccepted(chip, cmds, states)
    ensures |states| == |cmds| + 1
  {}

  lemma AppendTwo(chip: Chip, cmds: seq<seq<byte>>, states: seq<Loader>, a: seq<byte>, b: seq<byte>,
                  l: Loader, m: Loader)
    requires AllAccepted(chip, cmds, states)
    requires Accepts(chip, states[|cmds|], a, l) && Accepts(chip, l, b, m)
    ensures AllAccepted(chip, cmds + [a, b], states + [l, m])
  {
    hide Accepts;
    var cs, ss := cmds + [a, b], states + [l, m];
    forall k | 0 <= k < |cs|
      ensures Accepts(chip, ss[k], cs[k], ss[k + 1])
    {
      if k < |cmds| {
        assert Accepts(chip, states[k], cmds[k], states[k + 1]);
      }
    }
  }

  // ------------------------------------------------------- scripts as runs

  function Events(cmds: seq<seq<byte>>): (es: seq<BH.Event>)
    ensures |es| == |cmds| && forall k | 0 <= k < |cmds| :: es[k] == BH.Command(cmds[k], STATUS_LEN)
  {
    seq(|cmds|, k requires 0 <= k < |cmds| => BH.Command(cmds[k], STATUS_LEN))
  }

  lemma {:induction false} AcceptedRun(chip: Chip, cmds: seq<seq<byte>>, states: seq<Loader>)
    requires AllAccepted(chip, cmds, states) && |states[0].osflash| < 0x1_0000_0000
    ensures BH.Run(chip, states[0], Events(cmds)) == states[|cmds|]
  {
    hide Handle;
    if cmds != [] {
      var k := |cmds| - 1;
      AcceptedRun(chip, cmds[..k], states[..k + 1]);
      assert Events(cmds)[..k] == Events(cmds[..k]);
      assert Accepts(chip, states[k], cmds[k], states[k + 1]);
    }
  }
}
