/**
  What a LOADED or ACTIVE slot means: an invariant over every run of loader
  commands, resets and power cuts, relating the flash to the history of
  accepted commands.
 */
module BootHistory {
  import opened Bytes
  import opened BootHeader
  import opened BootLoader
  import opened Crc16
  import CF = CodeFlash

  // ------------------------------------------------------------ decoded form

  /** The state-changing request a command string carries, if any. */
  datatype Op = Erase | Load(block: u16, data: seq<byte>) | Verify(data: seq<byte>) | Activate | Other

  function OpOf(cmd: seq<byte>): Op {
    if |cmd| < 4 || cmd[0] != CLA || !WellFormed(cmd) then Other
    else
      var ins, plain := cmd[1], cmd[2] == 0 && cmd[3] == 0;
      if ins == INS_LOAD && DataOf(cmd) != [] then Load(U16(cmd[2], cmd[3]), DataOf(cmd))
      else if ins == INS_VERIFY && plain && DataOf(cmd) != [] then Verify(DataOf(cmd))
      else if ins == INS_ERASE && plain && DataOf(cmd) == [] then Erase
      else if ins == INS_ACTIVATE && plain && DataOf(cmd) == [] then Activate
      else Other
  }

  ghost function Exec(chip: Chip, l: Loader, op: Op): (u16, Loader)
    requires |l.osflash| < 0x1_0000_0000
  {
    match op
    case Erase => DoErase(chip, l)
    case Load(block, data) => DoLoad(l, block, data)
    case Verify(data) => DoVerify(chip, l, data)
    case Activate => DoActivate(l)
    case Other => (SW_OK, l)
  }

  /** Only those four requests touch the flash, and they answer as themselves. */
  lemma HandleIsExec(chip: Chip, l: Loader, cmd: seq<byte>, cap: nat)
    requires |l.osflash| < 0x1_0000_0000
    ensures Handle(chip, l, cmd, cap).next == Exec(chip, l, OpOf(cmd)).1
    ensures OpOf(cmd) != Other ==> Handle(chip, l, cmd, cap).sw == Exec(chip, l, OpOf(cmd)).0
  {}

  // -------------------------------------------------------------- the answer

  /** Both regions are a whole number of pages. */
  predicate WholePages(chip: Chip, l: Loader) {
    CF.EraseStatus(|l.oshdr|, chip.page) == CF.Ok && CF.EraseStatus(|l.osflash|, chip.page) == CF.Ok
  }

  /** ERASE wipes a written header and then refuses the image region. */
  predicate EraseStopsHalfway(chip: Chip, l: Loader, cmd: seq<byte>) {
    && OpOf(cmd) == Erase
    && CF.EraseStatus(|l.oshdr|, chip.page) == CF.Ok
    && CF.EraseStatus(|l.osflash|, chip.page) != CF.Ok
    && l.oshdr != Fill(|l.oshdr|, ERASED)
  }

  /**
    A command not answered 9000 changes nothing, with one exception, which
    whole-page geometry excludes; data is returned, and a restart granted,
    only with 9000, the latter only for an ACTIVE slot.
   */
  lemma RefusalIsHarmless(chip: Chip, l: Loader, cmd: seq<byte>, cap: nat)
    requires |l.osflash| < 0x1_0000_0000
    ensures var r := Handle(chip, l, cmd, cap);
            && (r.sw != SW_OK ==> (r.next == l <==> !EraseStopsHalfway(chip, l, cmd)))
            && (WholePages(chip, l) ==> !EraseStopsHalfway(chip, l, cmd))
            && (r.sw != SW_OK ==> r.data == [] && !r.restart)
            && |r.data| <= cap
            && (r.restart ==> SlotOf(l.oshdr, l.osflash) == Active && r.next == l)
  {
    hide Serialised, Crc, Parse, Plausible, CF.CanProgram, StatusBytes;
    HandleIsExec(chip, l, cmd, cap);
  }

  // -------------------------------------------------------------- power cuts

  /** The first n elements, or all if there are fewer. */
  function Take<T>(s: seq<T>, n: nat): seq<T> {
    if n < |s| then s[..n] else s
  }

  /** The sixteen bytes an accepted VERIFY stores. */
  ghost function VerifyRaw(data: seq<byte>): (raw: seq<byte>)
    requires |data| == 6
    ensures |raw| == HDR_SIZE
  {
    Serialised(U32(data[0], data[1], data[2], data[3]), U16(data[4], data[5]))
  }

  ghost function TornErase(chip: Chip, l: Loader, n: nat): Loader {
    if CF.EraseStatus(|l.oshdr|, chip.page) != CF.Ok then l
    else if n <= |l.oshdr| then l.(oshdr := Splice(l.oshdr, 0, Fill(n, ERASED)))
    else
      var half := l.(oshdr := Fill(|l.oshdr|, ERASED));
      if CF.EraseStatus(|l.osflash|, chip.page) != CF.Ok then half
      else half.(osflash := Splice(l.osflash, 0, Take(Fill(|l.osflash|, ERASED), n - |l.oshdr|)))
  }

  ghost function TornLoad(l: Loader, block: u16, data: seq<byte>, n: nat): Loader
    requires |l.osflash| < 0x1_0000_0000
  {
    if DoLoad(l, block, data).0 != SW_OK then l
    else l.(osflash := Splice(l.osflash, block * BLOCK, Take(data, n)))
  }

  ghost function TornVerify(chip: Chip, l: Loader, data: seq<byte>, n: nat): Loader {
    if DoVerify(chip, l, data).0 != SW_OK then l
    else l.(oshdr := Splice(l.oshdr, 0, Take(VerifyRaw(data), n)))
  }

  ghost function TornActivate(l: Loader, n: nat): Loader {
    if SlotOf(l.oshdr, l.osflash) != Loaded then l
    else l.(oshdr := Splice(l.oshdr, 14, Take([0, 0], n)))
  }

  /** The flash after the first n byte stores of a request. */
  ghost function TornExec(chip: Chip, l: Loader, op: Op, n: nat): Loader
    requires |l.osflash| < 0x1_0000_0000
  {
    match op
    case Erase => TornErase(chip, l, n)
    case Load(block, data) => TornLoad(l, block, data, n)
    case Verify(data) => TornVerify(chip, l, data, n)
    case Activate => TornActivate(l, n)
    case Other => l
  }

  // -------------------------------------------------------------- histories

  /** A command, a reset, or a command cut off after n byte stores and a power-on. */
  datatype Event = Command(cmd: seq<byte>, cap: nat) | ResetLine | Cut(cmd: seq<byte>, n: nat)

  /**
    What the header is known to be: blank; sealed by a VERIFY of this image;
    or the first n bytes such a VERIFY stores over what was there before.
   */
  datatype Mark =
    | Empty
    | Verified(image: seq<byte>)
    | Torn(image: seq<byte>, before: seq<byte>, n: nat)

  /**
    erases:   an ERASE has been answered 9000
    mark:     what has been done to the header since
    intact:   no LOAD since that VERIFY changed a byte of the image
    log:      for each OSFLASH byte, the values programmed since it was last erased
   */
  datatype History = History(erases: bool, mark: Mark, intact: bool, log: seq<seq<byte>>)

  const NoHistory := History(false, Empty, true, [])

  ghost function Step(chip: Chip, l: Loader, e: Event): Loader
    requires |l.osflash| < 0x1_0000_0000
  {
    match e
    case Command(cmd, cap) => Handle(chip, l, cmd, cap).next
    case ResetLine => Reset(l)
    case Cut(cmd, n) => Reset(TornExec(chip, l, OpOf(cmd), n))
  }

  ghost function Record(chip: Chip, l: Loader, h: History, e: Event): History
    requires |l.osflash| < 0x1_0000_0000
  {
    match e
    case Command(cmd, cap) => RecordOp(chip, l, h, OpOf(cmd))
    case ResetLine => h
    case Cut(cmd, n) => RecordCut(chip, l, h, OpOf(cmd), n)
  }

  ghost function RecordOp(chip: Chip, l: Loader, h: History, op: Op): History
    requires |l.osflash| < 0x1_0000_0000
  {
    var (sw, next) := Exec(chip, l, op);
    if sw != SW_OK then h
    else match op
      case Erase => History(true, Empty, true, seq(|l.osflash|, _ => []))
      case Load(block, data) => RecordLoad(h, l, next, block, data)
      case Verify(data) => h.(mark := Verified(ClaimedImage(l, data)), intact := true)
      case Activate => h
      case Other => h
  }

  /** A cut that changed no byte is no event; one inside VERIFY counts as done from byte 14 on. */
  ghost function RecordCut(chip: Chip, l: Loader, h: History, op: Op, n: nat): History
    requires |l.osflash| < 0x1_0000_0000
  {
    var next := TornExec(chip, l, op, n);
    if !h.erases || next == l then h
    else match op
      case Erase => h.(mark := Empty, intact := true, log := Wiped(h.log, n - |l.oshdr|))
      case Load(block, data) => RecordLoad(h, l, next, block, Take(data, n))
      case Verify(data) =>
        var img := ClaimedImage(l, data);
        h.(mark := if n < 14 && |l.oshdr| >= 14 then Torn(img, l.oshdr[..14], n) else Verified(img), intact := true)
      case Activate => h
      case Other => h
  }

  ghost function RecordLoad(h: History, l: Loader, next: Loader, block: u16, data: seq<byte>): History {
    h.(intact := h.intact && (!h.mark.Empty? ==> Unchanged(l, next, |h.mark.image|)),
       log := Logged(h.log, block * BLOCK, data))
  }

  ghost predicate Unchanged(l: Loader, next: Loader, n: nat) {
    n <= |l.osflash| == |next.osflash| && next.osflash[..n] == l.osflash[..n]
  }

  ghost function Logged(log: seq<seq<byte>>, off: nat, data: seq<byte>): seq<seq<byte>> {
    seq(|log|, i requires 0 <= i < |log| => if off <= i < off + |data| then log[i] + [data[i - off]] else log[i])
  }

  /** The log once the first m cells have been erased. */
  ghost function Wiped(log: seq<seq<byte>>, m: int): seq<seq<byte>> {
    seq(|log|, i requires 0 <= i < |log| => if i < m then [] else log[i])
  }

  ghost function ClaimedImage(l: Loader, data: seq<byte>): seq<byte> {
    if |data| == 6 && Num32(data[..4]) <= |l.osflash| then l.osflash[..Num32(data[..4])] else []
  }

  // -------------------------------------------------------------- invariant

  /** A state word that is erased, half cleared or cleared. */
  ghost predicate StateFits(oshdr: seq<byte>)
    requires |oshdr| >= HDR_SIZE
  {
    oshdr[14..16] == [ERASED, ERASED] || oshdr[14..16] == [0, ERASED] || oshdr[14..16] == [0, 0]
  }

  /** Header bytes 0..13 after the first n stores of a VERIFY of img. */
  ghost function TornSeal(img: seq<byte>, before: seq<byte>, n: nat): (t: seq<byte>)
    requires |img| < 0x1_0000_0000 && |before| == 14 && n <= 14
    ensures |t| == 14
  {
    Sealed(|img|, Crc(img))[..n] + before[n..]
  }

  ghost predicate HeaderFits(oshdr: seq<byte>, mark: Mark, session: bool) {
    match mark
    case Empty => |oshdr| > 0 && oshdr[0] == ERASED && (session ==> oshdr == Fill(|oshdr|, ERASED))
    case Verified(img) =>
      && |img| < 0x1_0000_0000 && |oshdr| >= HDR_SIZE && StateFits(oshdr)
      && oshdr[..14] == Sealed(|img|, Crc(img))
    case Torn(img, before, n) =>
      && |img| < 0x1_0000_0000 && |oshdr| >= HDR_SIZE && StateFits(oshdr)
      && |before| == 14 && n < 14 && !session
      && CF.OnlyCleared(before, Sealed(|img|, Crc(img)))
      && oshdr[..14] == TornSeal(img, before, n)
  }

  /** The flash still holds the image, with at most bits cleared since. */
  ghost predicate ImageFits(chip: Chip, osflash: seq<byte>, mark: Mark, intact: bool) {
    (mark.Torn? ==> intact) &&
    (!mark.Empty? ==>
      var img := mark.image;
      && |img| <= |osflash|
      && Plausible(img, chip)
      && CF.OnlyCleared(img, osflash[..|img|])
      && (intact ==> osflash[..|img|] == img))
  }

  /** A cell holds the last value programmed, which is the AND of all of them. */
  ghost predicate CellFits(cell: byte, log: seq<byte>) {
    && cell == (if log == [] then ERASED else log[|log| - 1])
    && forall k | 0 <= k < |log| :: CF.Clears(log[k], cell)
  }

  ghost predicate CellsFit(osflash: seq<byte>, log: seq<seq<byte>>) {
    |log| == |osflash| && forall i | 0 <= i < |osflash| :: CellFits(osflash[i], log[i])
  }

  /** In a session the high-water mark is the end of the last cell that anything was sent to. */
  ghost predicate MarkFits(l: Loader, log: seq<seq<byte>>) {
    l.erased ==>
      && l.highWater <= |log|
      && (forall i | l.highWater <= i < |log| :: log[i] == [])
      && (l.highWater > 0 ==> log[l.highWater - 1] != [])
  }

  ghost predicate Consistent(chip: Chip, l: Loader, h: History) {
    && |l.osflash| < 0x1_0000_0000
    && (l.erased ==> h.erases)
    && (h.erases ==>
          && WholePages(chip, l)
          && HeaderFits(l.oshdr, h.mark, l.erased)
          && ImageFits(chip, l.osflash, h.mark, h.intact)
          && CellsFit(l.osflash, h.log)
          && MarkFits(l, h.log))
  }

  // ----------------------------------------------------------- preservation

  lemma EraseKeeps(chip: Chip, l: Loader, h: History)
    requires Consistent(chip, l, h) && DoErase(chip, l).0 == SW_OK
    ensures Consistent(chip, DoErase(chip, l).1, RecordOp(chip, l, h, Erase))
  {}

  lemma CellLoaded(cell: byte, log: seq<byte>, now: byte)
    requires CellFits(cell, log) && CF.Clears(cell, now)
    ensures CellFits(now, log + [now])
  {
    forall k | 0 <= k < |log|
      ensures CF.Clears(log[k], now)
    {
      CF.ClearsTransitive(log[k], cell, now);
    }
    CF.ClearsItself(now);
  }

  lemma LoadCells(m: seq<byte>, log: seq<seq<byte>>, off: nat, data: seq<byte>)
    requires CellsFit(m, log) && off + |data| <= |m| && CF.CanProgram(m, off, data)
    ensures CellsFit(Splice(m, off, data), Logged(log, off, data))
  {
    hide CF.Clears, CellFits;
    forall i | 0 <= i < |m|
      ensures CellFits(Splice(m, off, data)[i], Logged(log, off, data)[i])
    {
      if off <= i < off + |data| {
        assert CF.Clears(m[off + (i - off)], data[i - off]);
        CellLoaded(m[i], log[i], data[i - off]);
      }
    }
  }

  lemma LoadImage(chip: Chip, m: seq<byte>, mark: Mark, intact: bool, off: nat, data: seq<byte>)
    requires ImageFits(chip, m, mark, intact) && off + |data| <= |m| && CF.CanProgram(m, off, data) && !mark.Torn?
    ensures var m' := Splice(m, off, data);
            ImageFits(chip, m', mark, intact && (!mark.Empty? ==> m'[..|mark.image|] == m[..|mark.image|]))
  {
    if !mark.Empty? {
      var img, m' := mark.image, Splice(m, off, data);
      forall i | 0 <= i < |img|
        ensures CF.Clears(img[i], m'[..|img|][i])
      {
        assert CF.Clears(img[i], m[..|img|][i]);
        if off <= i < off + |data| {
          assert CF.Clears(m[off + (i - off)], data[i - off]);
          CF.ClearsTransitive(img[i], m[i], m'[i]);
        }
      }
    }
  }

  lemma LoadMark(l: Loader, log: seq<seq<byte>>, block: u16, data: seq<byte>)
    requires |l.osflash| < 0x1_0000_0000 && |log| == |l.osflash| && l.erased && MarkFits(l, log)
    requires DoLoad(l, block, data).0 == SW_OK
    ensures MarkFits(DoLoad(l, block, data).1, Logged(log, block * BLOCK, data))
  {
    hide CF.ProgramStatus;
  }

  lemma LoadKeeps(chip: Chip, l: Loader, h: History, block: u16, data: seq<byte>)
    requires Consistent(chip, l, h) && DoLoad(l, block, data).0 == SW_OK
    ensures Consistent(chip, DoLoad(l, block, data).1, RecordOp(chip, l, h, Load(block, data)))
  {
    hide HeaderFits, CF.Clears, CellFits, Plausible, Crc, SlotOf, MarkFits;
    var off := block * BLOCK;
    SessionNotTorn(l.oshdr, h.mark);
    LoadMark(l, h.log, block, data);
    LoadCells(l.osflash, h.log, off, data);
    LoadImage(chip, l.osflash, h.mark, h.intact, off, data);
  }

  /** While a load session is open, no VERIFY has been cut short. */
  lemma SessionNotTorn(oshdr: seq<byte>, mark: Mark)
    requires HeaderFits(oshdr, mark, true)
    ensures !mark.Torn?
  {}

  lemma SessionOver(oshdr: seq<byte>, mark: Mark, session: bool)
    requires HeaderFits(oshdr, mark, session)
    ensures HeaderFits(oshdr, mark, false)
  {}

  lemma VerifyHeader(oshdr: seq<byte>, mark: Mark, img: seq<byte>)
    requires HeaderFits(oshdr, mark, true) && 0 < |img| < 0x1_0000_0000
    requires CF.ProgramStatus(oshdr, 0, Serialised(|img|, Crc(img))) == CF.Ok
    ensures HeaderFits(Splice(oshdr, 0, Serialised(|img|, Crc(img))), Verified(img), true)
  {
    hide Crc, Sealed;
    var raw := Serialised(|img|, Crc(img));
    var now := Splice(oshdr, 0, raw);
    assert now[..14] == Sealed(|img|, Crc(img));
    assert now[14..16] == [ERASED, ERASED];
  }

  lemma ClaimedIs(chip: Chip, l: Loader, data: seq<byte>)
    requires |l.osflash| < 0x1_0000_0000 && DoVerify(chip, l, data).0 == SW_OK
    ensures l.erased && |data| == 6
    ensures var img := ClaimedImage(l, data);
            && 0 < |img| <= |l.osflash| && img == l.osflash[..|img|] && Plausible(img, chip)
            && VerifyRaw(data) == Serialised(|img|, Crc(img))
            && CF.ProgramStatus(l.oshdr, 0, VerifyRaw(data)) == CF.Ok
  {
    hide Crc, Plausible, Serialised;
    assert Num32(data[..4]) == U32(data[0], data[1], data[2], data[3]);
  }

  lemma VerifyKeeps(chip: Chip, l: Loader, h: History, data: seq<byte>)
    requires Consistent(chip, l, h) && DoVerify(chip, l, data).0 == SW_OK
    ensures Consistent(chip, DoVerify(chip, l, data).1, RecordOp(chip, l, h, Verify(data)))
  {
    hide HeaderFits, CellsFit, Plausible, Serialised, ClaimedImage, Crc, CF.ProgramStatus, CF.Clears;
    var img := ClaimedImage(l, data);
    ClaimedIs(chip, l, data);
    VerifyHeader(l.oshdr, h.mark, img);
    ClearsReflexive(img);
  }

  lemma ClearsReflexive(m: seq<byte>)
    ensures CF.OnlyCleared(m, m)
  {}

  /** Clearing the first, or both, of the state bytes of a LOADED slot. */
  lemma ActivateHeader(oshdr: seq<byte>, osflash: seq<byte>, mark: Mark, session: bool, n: nat)
    requires |oshdr| >= HDR_SIZE && HeaderFits(oshdr, mark, session) && SlotOf(oshdr, osflash) == Loaded
    ensures HeaderFits(Splice(oshdr, 14, Take([0, 0], n)), mark, session)
  {
    hide Crc, Sealed, TornSeal;
    if mark.Empty? {
      ErasedSlotIsBlank(oshdr, osflash);
    } else {
      var now := Splice(oshdr, 14, Take([0, 0], n));
      assert now[..14] == oshdr[..14];
      assert now[14..16] == if n == 0 then oshdr[14..16] else if n == 1 then [0, oshdr[15]] else [0, 0];
      assert oshdr[14..16][1] == oshdr[15];
    }
  }

  lemma ActivateKeeps(chip: Chip, l: Loader, h: History)
    requires Consistent(chip, l, h) && DoActivate(l).0 == SW_OK
    ensures Consistent(chip, DoActivate(l).1, RecordOp(chip, l, h, Activate))
  {
    hide SlotOf, HeaderFits, ImageFits, CellsFit, CF.ProgramStatus, CF.EraseStatus;
    if h.erases && SlotOf(l.oshdr, l.osflash) == Loaded {
      ActivateFits(l);
      ActivateHeader(l.oshdr, l.osflash, h.mark, l.erased, 2);
    }
  }

  lemma ErasedIsBlank(oshdr: seq<byte>)
    requires |oshdr| >= HDR_SIZE && oshdr[0] == ERASED
    ensures Parse(oshdr) == None
  {
    assert oshdr[..4][0] == ERASED;
  }

  lemma ErasedSlotIsBlank(oshdr: seq<byte>, osflash: seq<byte>)
    requires |oshdr| >= HDR_SIZE && oshdr[0] == ERASED
    ensures SlotOf(oshdr, osflash) == Blank
  {
    hide Crc;
    ErasedIsBlank(oshdr);
  }

  lemma RefusedKeeps(chip: Chip, l: Loader, h: History, op: Op)
    requires Consistent(chip, l, h) && Exec(chip, l, op).0 != SW_OK
    ensures Consistent(chip, Exec(chip, l, op).1, h)
  {
    hide SlotOf, HeaderFits, ImageFits, CellsFit, Plausible, Crc, CF.CanProgram;
    if h.erases {
      assert Exec(chip, l, op).1 == l;
    } else {
      assert !Exec(chip, l, op).1.erased;
    }
  }

  // ------------------------------------------------- preservation under cuts

  lemma ResetKeeps(chip: Chip, l: Loader, h: History)
    requires Consistent(chip, l, h)
    ensures Consistent(chip, Reset(l), h)
  {
    hide HeaderFits, ImageFits, CellsFit, CF.EraseStatus;
    if h.erases {
      SessionOver(l.oshdr, h.mark, l.erased);
    }
  }

  lemma TornSizes(chip: Chip, l: Loader, op: Op, n: nat)
    requires |l.osflash| < 0x1_0000_0000
    ensures var next := TornExec(chip, l, op, n);
            |next.osflash| == |l.osflash| && |next.oshdr| == |l.oshdr| && next.erased == l.erased
  {
    hide DoLoad, DoVerify, SlotOf, VerifyRaw, CF.EraseStatus;
    match op
    case Load(block, data) => LoadFits(l, block, data);
    case Verify(data) => VerifyFits(chip, l, data);
    case Activate => ActivateFits(l);
    case _ =>
  }

  lemma LoadFits(l: Loader, block: u16, data: seq<byte>)
    requires |l.osflash| < 0x1_0000_0000
    ensures DoLoad(l, block, data).0 == SW_OK ==> block * BLOCK + |data| <= |l.osflash|
  {}

  lemma VerifyFits(chip: Chip, l: Loader, data: seq<byte>)
    ensures DoVerify(chip, l, data).0 == SW_OK ==> |data| == 6 && |l.oshdr| >= HDR_SIZE
  {
    hide VerifyVerdict, Serialised;
  }

  lemma RefusedVerify(chip: Chip, l: Loader, data: seq<byte>)
    requires DoVerify(chip, l, data).0 != SW_OK
    ensures DoVerify(chip, l, data).1 == l
  {}

  lemma ActivateFits(l: Loader)
    ensures SlotOf(l.oshdr, l.osflash) == Loaded ==> |l.oshdr| >= HDR_SIZE
  {}

  lemma WipedCells(m: seq<byte>, log: seq<seq<byte>>, n: nat)
    requires CellsFit(m, log) && n <= |m|
    ensures CellsFit(Splice(m, 0, Fill(n, ERASED)), Wiped(log, n))
  {}

  /** The image region and its log after an ERASE cut after n stores. */
  lemma CutEraseCells(chip: Chip, l: Loader, log: seq<seq<byte>>, n: nat)
    requires CellsFit(l.osflash, log) && WholePages(chip, l)
    ensures CellsFit(TornErase(chip, l, n).osflash, Wiped(log, n - |l.oshdr|))
  {
    hide CF.Clears, CellFits, CF.EraseStatus;
    if n <= |l.oshdr| {
      assert Wiped(log, n - |l.oshdr|) == log;
    } else {
      var m := if n - |l.oshdr| < |l.osflash| then n - |l.oshdr| else |l.osflash|;
      assert Take(Fill(|l.osflash|, ERASED), n - |l.oshdr|) == Fill(m, ERASED);
      assert Wiped(log, n - |l.oshdr|) == Wiped(log, m);
      WipedCells(l.osflash, log, m);
    }
  }

  lemma CutEraseHeader(chip: Chip, l: Loader, n: nat)
    requires WholePages(chip, l) && TornErase(chip, l, n) != l
    ensures var t := TornErase(chip, l, n); |t.oshdr| == |l.oshdr| > 0 && t.oshdr[0] == ERASED
  {
    assert Splice(l.oshdr, 0, Fill(0, ERASED)) == l.oshdr;
  }

  lemma CutEraseKeeps(chip: Chip, l: Loader, h: History, n: nat)
    requires Consistent(chip, l, h) && h.erases && TornErase(chip, l, n) != l
    ensures Consistent(chip, Reset(TornErase(chip, l, n)), RecordCut(chip, l, h, Erase, n))
  {
    hide CF.Clears, CellsFit, Plausible, Crc, TornErase, Wiped, CF.EraseStatus;
    CutEraseHeader(chip, l, n);
    CutEraseCells(chip, l, h.log, n);
    TornSizes(chip, l, Erase, n);
  }

  lemma CutLoadKeeps(chip: Chip, l: Loader, h: History, block: u16, data: seq<byte>, n: nat)
    requires Consistent(chip, l, h) && h.erases && DoLoad(l, block, data).0 == SW_OK
    requires TornLoad(l, block, data, n) != l
    ensures Consistent(chip, Reset(TornLoad(l, block, data, n)), RecordCut(chip, l, h, Load(block, data), n))
  {
    hide HeaderFits, CF.Clears, CellFits, Plausible, Crc, SlotOf;
    var off, part := block * BLOCK, Take(data, n);
    SessionNotTorn(l.oshdr, h.mark);
    SessionOver(l.oshdr, h.mark, true);
    assert CF.CanProgram(l.osflash, off, part);
    LoadCells(l.osflash, h.log, off, part);
    LoadImage(chip, l.osflash, h.mark, h.intact, off, part);
  }

  lemma TornHeader(oshdr: seq<byte>, mark: Mark, img: seq<byte>, n: nat)
    requires HeaderFits(oshdr, mark, true) && 0 < |img| < 0x1_0000_0000
    requires CF.ProgramStatus(oshdr, 0, Serialised(|img|, Crc(img))) == CF.Ok
    ensures |oshdr| >= HDR_SIZE
    ensures HeaderFits(Splice(oshdr, 0, Take(Serialised(|img|, Crc(img)), n)),
                       if n < 14 then Torn(img, oshdr[..14], n) else Verified(img), false)
  {
    hide Crc, Sealed, CF.Clears;
    var raw := Serialised(|img|, Crc(img));
    assert CF.CanProgram(oshdr, 0, raw);
    var now := Splice(oshdr, 0, Take(raw, n));
    forall i | 0 <= i < 14
      ensures CF.Clears(oshdr[..14][i], raw[i])
    {
      assert CF.Clears(oshdr[0 + i], raw[i]);
    }
    assert raw[..14] == Sealed(|img|, Crc(img));
    assert CF.Clears(oshdr[0 + 14], raw[14]) && CF.Clears(oshdr[0 + 15], raw[15]);
    CF.ErasedNeedsErased(oshdr[14]);
    CF.ErasedNeedsErased(oshdr[15]);
    assert now[14..16] == [ERASED, ERASED];
    if n < 14 {
      assert now[..14] == TornSeal(img, oshdr[..14], n);
    } else {
      assert now[..14] == raw[..14];
    }
  }

  lemma CutVerifyKeeps(chip: Chip, l: Loader, h: History, data: seq<byte>, n: nat)
    requires Consistent(chip, l, h) && h.erases && DoVerify(chip, l, data).0 == SW_OK
    requires TornVerify(chip, l, data, n) != l
    ensures Consistent(chip, Reset(TornVerify(chip, l, data, n)), RecordCut(chip, l, h, Verify(data), n))
  {
    hide HeaderFits, CellsFit, Plausible, Serialised, ClaimedImage, Crc, CF.ProgramStatus, CF.Clears,
      DoVerify, VerifyRaw;
    var img := ClaimedImage(l, data);
    ClaimedIs(chip, l, data);
    TornHeader(l.oshdr, h.mark, img, n);
    ClearsReflexive(img);
  }

  lemma CutActivateKeeps(chip: Chip, l: Loader, h: History, n: nat)
    requires Consistent(chip, l, h) && h.erases && SlotOf(l.oshdr, l.osflash) == Loaded
    ensures Consistent(chip, Reset(TornActivate(l, n)), h)
  {
    hide SlotOf, HeaderFits, ImageFits, CellsFit, CF.EraseStatus;
    ActivateFits(l);
    ActivateHeader(l.oshdr, l.osflash, h.mark, l.erased, n);
    SessionOver(Splice(l.oshdr, 14, Take([0, 0], n)), h.mark, l.erased);
  }

  lemma CutKeeps(chip: Chip, l: Loader, h: History, op: Op, n: nat)
    requires Consistent(chip, l, h)
    ensures Consistent(chip, Reset(TornExec(chip, l, op, n)), RecordCut(chip, l, h, op, n))
  {
    hide HeaderFits, ImageFits, CellsFit, CF.EraseStatus, TornErase, TornLoad, TornVerify, TornActivate, RecordLoad,
      ClaimedImage;
    TornSizes(chip, l, op, n);
    if !h.erases {
    } else if TornExec(chip, l, op, n) == l {
      ResetKeeps(chip, l, h);
    } else {
      EffectiveCut(chip, l, op, n);
      match op
      case Erase => CutEraseKeeps(chip, l, h, n);
      case Load(block, data) => CutLoadKeeps(chip, l, h, block, data, n);
      case Verify(data) => CutVerifyKeeps(chip, l, h, data, n);
      case Activate => CutActivateKeeps(chip, l, h, n);
      case Other =>
    }
  }

  /** Only a request that would have been accepted stores anything before a cut. */
  lemma EffectiveCut(chip: Chip, l: Loader, op: Op, n: nat)
    requires |l.osflash| < 0x1_0000_0000 && TornExec(chip, l, op, n) != l
    ensures op.Load? ==> DoLoad(l, op.block, op.data).0 == SW_OK
    ensures op.Verify? ==> DoVerify(chip, l, op.data).0 == SW_OK
    ensures op.Activate? ==> SlotOf(l.oshdr, l.osflash) == Loaded
    ensures op != Other
  {
    hide DoLoad, DoVerify, SlotOf, VerifyRaw, CF.EraseStatus;
  }

  lemma StepKeeps(chip: Chip, l: Loader, h: History, e: Event)
    requires Consistent(chip, l, h)
    ensures Consistent(chip, Step(chip, l, e), Record(chip, l, h, e))
  {
    hide Consistent, Handle, TornExec, RecordOp, RecordCut, Exec, Reset;
    LoaderSize(chip, l, h);
    match e
    case Command(cmd, cap) =>
      HandleIsExec(chip, l, cmd, cap);
      CommandKeeps(chip, l, h, OpOf(cmd));
    case ResetLine => ResetKeeps(chip, l, h);
    case Cut(cmd, n) => CutKeeps(chip, l, h, OpOf(cmd), n);
  }

  lemma LoaderSize(chip: Chip, l: Loader, h: History)
    requires Consistent(chip, l, h)
    ensures |l.osflash| < 0x1_0000_0000
  {}

  lemma CommandKeeps(chip: Chip, l: Loader, h: History, op: Op)
    requires Consistent(chip, l, h) && |l.osflash| < 0x1_0000_0000
    ensures Consistent(chip, Exec(chip, l, op).1, RecordOp(chip, l, h, op))
  {
    hide Consistent, DoErase, DoLoad, DoVerify, DoActivate, RecordLoad, ClaimedImage;
    if Exec(chip, l, op).0 == SW_OK {
      match op
      case Erase => EraseKeeps(chip, l, h);
      case Load(block, data) => LoadKeeps(chip, l, h, block, data);
      case Verify(data) => VerifyKeeps(chip, l, h, data);
      case Activate => ActivateKeeps(chip, l, h);
      case Other =>
    } else {
      RefusedKeeps(chip, l, h, op);
    }
  }

  // -------------------------------------------------------------- whole runs

  ghost function Run(chip: Chip, l: Loader, es: seq<Event>): (r: Loader)
    requires |l.osflash| < 0x1_0000_0000
    ensures |r.osflash| == |l.osflash| && |r.oshdr| == |l.oshdr|
  {
    if es == [] then l
    else
      var before := Run(chip, l, es[..|es| - 1]);
      SizeKept(chip, before, es[|es| - 1]);
      Step(chip, before, es[|es| - 1])
  }

  lemma SizeKept(chip: Chip, l: Loader, e: Event)
    requires |l.osflash| < 0x1_0000_0000
    ensures var next := Step(chip, l, e); |next.osflash| == |l.osflash| && |next.oshdr| == |l.oshdr|
  {
    hide Handle, TornExec, SlotOf, Plausible, Crc, Serialised, CF.CanProgram;
    match e
    case Command(cmd, cap) => HandleIsExec(chip, l, cmd, cap);
    case ResetLine =>
    case Cut(cmd, n) => TornSizes(chip, l, OpOf(cmd), n);
  }

  lemma {:induction false} RunAppend(chip: Chip, l: Loader, es: seq<Event>, fs: seq<Event>)
    requires |l.osflash| < 0x1_0000_0000
    ensures Run(chip, l, es + fs) == Run(chip, Run(chip, l, es), fs)
    decreases |fs|
  {
    hide Step;
    if fs == [] {
      assert es + fs == es;
    } else {
      var before := fs[..|fs| - 1];
      RunAppend(chip, l, es, before);
      assert (es + fs)[..|es + fs| - 1] == es + before;
    }
  }

  ghost function HistoryOf(chip: Chip, l: Loader, es: seq<Event>): History
    requires |l.osflash| < 0x1_0000_0000
  {
    if es == [] then NoHistory
    else
      var before := es[..|es| - 1];
      Record(chip, Run(chip, l, before), HistoryOf(chip, l, before), es[|es| - 1])
  }

  /** Every run, from a loader just powered on over arbitrary flash contents. */
  lemma {:induction false} RunConsistent(chip: Chip, l: Loader, es: seq<Event>)
    requires |l.osflash| < 0x1_0000_0000 && !l.erased
    ensures Consistent(chip, Run(chip, l, es), HistoryOf(chip, l, es))
  {
    hide Step, Record, HeaderFits, ImageFits, CellsFit, MarkFits;
    if es != [] {
      var before := es[..|es| - 1];
      RunConsistent(chip, l, before);
      StepKeeps(chip, Run(chip, l, before), HistoryOf(chip, l, before), es[|es| - 1]);
    }
  }

  /** The slot offers an image: it would be booted, or is one ACTIVATE away from it. */
  predicate Offers(l: Loader) {
    SlotOf(l.oshdr, l.osflash) == Loaded || SlotOf(l.oshdr, l.osflash) == Active
  }

  /** The image the header describes. */
  function Offered(l: Loader): seq<byte>
    requires Offers(l)
  {
    l.osflash[..Parse(l.oshdr).value.length]
  }

  lemma EmptyOffersNothing(l: Loader, session: bool)
    requires HeaderFits(l.oshdr, Empty, session)
    ensures !Offers(l)
  {
    hide Crc, Parse;
    if |l.oshdr| >= HDR_SIZE {
      ErasedSlotIsBlank(l.oshdr, l.osflash);
    }
  }

  lemma SealedOffer(l: Loader, img: seq<byte>)
    requires |img| < 0x1_0000_0000 && |l.oshdr| >= HDR_SIZE && l.oshdr[..14] == Sealed(|img|, Crc(img)) && Offers(l)
    ensures |img| <= |l.osflash| && Offered(l) == l.osflash[..|img|] && Crc(Offered(l)) == Crc(img)
  {
    hide Crc, Sealed, Parse;
    ParseExactly(l.oshdr, |img|, Crc(img));
  }

  // ---------------------------------------------- what an unfinished seal says

  /** Bits only cleared, so the number only shrinks. */
  lemma LengthShrinks(a: seq<byte>, b: seq<byte>)
    requires |a| == |b| == 4 && CF.OnlyCleared(a, b)
    ensures Num32(b) <= Num32(a)
  {
    hide CF.Clears;
    forall i | 0 <= i < 4
      ensures b[i] <= a[i]
    {
      CF.ClearsShrinks(a[i], b[i]);
    }
  }

  lemma TornLength(img: seq<byte>, before: seq<byte>, n: nat)
    requires |img| < 0x1_0000_0000 && |before| == 14 && n < 14
    requires CF.OnlyCleared(before, Sealed(|img|, Crc(img)))
    ensures |img| <= Num32(TornSeal(img, before, n)[6..10])
    ensures n >= 10 ==> TornSeal(img, before, n)[6..10] == Be32(|img|)
  {
    hide Crc, Sealed, CF.Clears, Num32, Num16, Be16, Be32;
    SealedFields(|img|, Crc(img));
    var s := Sealed(|img|, Crc(img));
    MixedLength(s, before, n);
    LengthShrinks(TornSeal(img, before, n)[6..10], s[6..10]);
  }

  /** The length field of a seal begun over another whose bits it only clears. */
  lemma MixedLength(s: seq<byte>, before: seq<byte>, n: nat)
    requires |s| == |before| == 14 && n < 14 && CF.OnlyCleared(before, s)
    ensures var t := s[..n] + before[n..];
            CF.OnlyCleared(t[6..10], s[6..10]) && (n >= 10 ==> t[6..10] == s[6..10])
  {
    hide CF.Clears;
    var t := s[..n] + before[n..];
    forall i | 0 <= i < 4
      ensures CF.Clears(t[6..10][i], s[6..10][i])
    {
      assert CF.Clears(before[6 + i], s[6 + i]);
      CF.ClearsItself(s[6 + i]);
    }
    if n >= 10 {
      forall i | 0 <= i < 4
        ensures t[6..10][i] == s[6..10][i]
      {
        assert t[6 + i] == s[..n][6 + i] == s[6 + i];
      }
    }
  }

  /** From the tenth store on, an unfinished seal that offers anything is the finished one. */
  lemma LateTornIsDone(l: Loader, img: seq<byte>, before: seq<byte>, n: nat)
    requires |img| <= |l.osflash| < 0x1_0000_0000 && l.osflash[..|img|] == img && |l.oshdr| >= HDR_SIZE
    requires |before| == 14 && 10 <= n < 14 && l.oshdr[..14] == TornSeal(img, before, n)
    requires CF.OnlyCleared(before, Sealed(|img|, Crc(img))) && Offers(l)
    ensures l.oshdr[..14] == Sealed(|img|, Crc(img))
  {
    TornLength(img, before, n);
    OfferedFields(l);
    hide Crc, CF.Clears, SlotOf, Parse, TornSeal;
    var t := l.oshdr[..14];
    assert l.oshdr[6..10] == t[6..10] == Be32(|img|);
    assert |Offered(l)| == |img| && Offered(l) == img;
    ParsedIsSealed(l.oshdr);
  }

  lemma OfferedFields(l: Loader)
    requires Offers(l)
    ensures |l.oshdr| >= HDR_SIZE && Parse(l.oshdr).Some?
    ensures Parse(l.oshdr).value.length == Num32(l.oshdr[6..10]) == |Offered(l)|
    ensures Parse(l.oshdr).value.imageCrc == Crc(Offered(l))
  {
    hide Crc;
  }

  /** What an offer is worth, given the mark on its header. */
  ghost predicate Vouched(offered: seq<byte>, mark: Mark, intact: bool) {
    !mark.Empty? &&
    var img := mark.image;
    && (mark.Torn? ==> |img| <= |offered| && offered[..|img|] == img)
    && (mark.Verified? || mark.n >= 10 ==>
          && |offered| == |img| && Crc(offered) == Crc(img)
          && CF.OnlyCleared(img, offered)
          && (intact ==> offered == img))
  }

  lemma TornOffer(l: Loader, img: seq<byte>, before: seq<byte>, n: nat)
    requires HeaderFits(l.oshdr, Torn(img, before, n), false) && |img| <= |l.osflash| < 0x1_0000_0000
    requires l.osflash[..|img|] == img && Offers(l)
    ensures Vouched(Offered(l), Torn(img, before, n), true)
  {
    hide CF.Clears, Crc, Sealed, SlotOf, Parse, TornSeal, Offers;
    OfferedFields(l);
    TornLength(img, before, n);
    assert l.oshdr[6..10] == l.oshdr[..14][6..10];
    OfferIsPrefix(l);
    if n >= 10 {
      LateTornIsDone(l, img, before, n);
      SealedOffer(l, img);
      ClearsReflexive(img);
    }
  }

  lemma OfferIsPrefix(l: Loader)
    requires Offers(l)
    ensures |Offered(l)| <= |l.osflash| && Offered(l) == l.osflash[..|Offered(l)|]
  {
    hide Crc, Parse;
  }

  /**
    Once any ERASE has been accepted, what the slot offers is an image VERIFY
    accepted: same length, same CRC, plausible when it was accepted, altered
    since only by clearing bits, and not at all unless a LOAD changed it. The
    one exception is a VERIFY cut before its tenth store, whose unfinished
    header can claim more than was verified: then that image is a prefix.
   */
  lemma OfferedWasVerified(chip: Chip, l: Loader, es: seq<Event>)
    requires |l.osflash| < 0x1_0000_0000 && !l.erased
    requires HistoryOf(chip, l, es).erases && Offers(Run(chip, l, es))
    ensures var h, now := HistoryOf(chip, l, es), Run(chip, l, es);
            Vouched(Offered(now), h.mark, h.intact) && Plausible(h.mark.image, chip)
  {
    hide Run, HistoryOf, CF.Clears, Crc, Sealed, Plausible, SlotOf, Parse, CellsFit, TornSeal, StateFits, Offers;
    RunConsistent(chip, l, es);
    var h, now := HistoryOf(chip, l, es), Run(chip, l, es);
    match h.mark
    case Empty => EmptyOffersNothing(now, now.erased);
    case Verified(img) => SealedOffer(now, img);
    case Torn(img, before, n) => TornOffer(now, img, before, n);
  }

  /** Each cell holds the last value programmed since it was last erased, and the AND of all of them. */
  lemma CellsAreAnds(chip: Chip, l: Loader, es: seq<Event>, i: nat, bit: nat)
    requires |l.osflash| < 0x1_0000_0000 && !l.erased
    requires HistoryOf(chip, l, es).erases && i < |l.osflash| && bit < 8
    ensures var now, log := Run(chip, l, es), HistoryOf(chip, l, es).log;
            && |log| == |now.osflash|
            && now.osflash[i] == (if log[i] == [] then ERASED else log[i][|log[i]| - 1])
            && (ByteBits(now.osflash[i])[bit] <==> forall k | 0 <= k < |log[i]| :: ByteBits(log[i][k])[bit])
            && (now.erased && now.highWater <= i ==> now.osflash[i] == ERASED)
  {
    hide HeaderFits, ImageFits, Run, HistoryOf;
    RunConsistent(chip, l, es);
    var now, log := Run(chip, l, es), HistoryOf(chip, l, es).log;
    assert CellFits(now.osflash[i], log[i]);
    if log[i] == [] {
      CF.AllOnes(8, bit);
      Pow2Eight();
    }
  }

  // ---------------------------------------------------------- repeated blocks

  /** Where something was programmed before, the new byte only clears bits of the last value. */
  ghost predicate OnlyClearsLast(log: seq<seq<byte>>, off: nat, data: seq<byte>)
    requires off + |data| <= |log|
  {
    forall i | 0 <= i < |data| ::
      log[off + i] == [] || CF.Clears(log[off + i][|log[off + i]| - 1], data[i])
  }

  lemma ProgrammableByLog(m: seq<byte>, log: seq<seq<byte>>, off: nat, data: seq<byte>)
    requires CellsFit(m, log) && off + |data| <= |m|
    ensures CF.CanProgram(m, off, data) <==> OnlyClearsLast(log, off, data)
  {
    hide CF.Clears;
    forall i | 0 <= i < |data|
      ensures CF.Clears(m[off + i], data[i]) <==>
                log[off + i] == [] || CF.Clears(log[off + i][|log[off + i]| - 1], data[i])
    {
      assert CellFits(m[off + i], log[off + i]);
      CF.ClearsExtremes(data[i]);
    }
  }

  /**
    A LOAD that meets bytes already sent, at any point of a session, whatever
    its length: accepted exactly when each of its bytes only clears bits of
    the last one programmed there, refused with nothing changed otherwise;
    and one that repeats what was last sent changes no byte.
   */
  lemma RepeatedLoadExactly(chip: Chip, l: Loader, es: seq<Event>, block: u16, data: seq<byte>)
    requires |l.osflash| < 0x1_0000_0000 && !l.erased && Run(chip, l, es).erased
    requires 0 < |data| <= BLOCK && block * BLOCK + |data| <= |l.osflash|
    ensures var now, log, off := Run(chip, l, es), HistoryOf(chip, l, es).log, block * BLOCK;
            && |log| == |l.osflash|
            && (DoLoad(now, block, data).0 == SW_OK <==> OnlyClearsLast(log, off, data))
            && (DoLoad(now, block, data).0 != SW_OK ==> DoLoad(now, block, data) == (SW_COND_NOT_MET, now))
            && ((forall i | 0 <= i < |data| :: log[off + i] != [] && log[off + i][|log[off + i]| - 1] == data[i]) ==>
                  DoLoad(now, block, data).0 == SW_OK && DoLoad(now, block, data).1.osflash == now.osflash)
  {
    hide CF.Clears, Run, HistoryOf, HeaderFits, ImageFits, CF.CanProgram, OnlyClearsLast;
    RunConsistent(chip, l, es);
    var now, log, off := Run(chip, l, es), HistoryOf(chip, l, es).log, block * BLOCK;
    ProgrammableByLog(now.osflash, log, off, data);
    if forall i | 0 <= i < |data| :: log[off + i] != [] && log[off + i][|log[off + i]| - 1] == data[i] {
      SameAgain(now.osflash, log, off, data);
    }
  }

  lemma SameAgain(m: seq<byte>, log: seq<seq<byte>>, off: nat, data: seq<byte>)
    requires CellsFit(m, log) && off + |data| <= |m|
    requires forall i | 0 <= i < |data| :: log[off + i] != [] && log[off + i][|log[off + i]| - 1] == data[i]
    ensures OnlyClearsLast(log, off, data) && Splice(m, off, data) == m
  {
    hide CF.Clears;
    forall i | 0 <= i < |data|
      ensures CF.Clears(data[i], data[i]) && m[off + i] == data[i]
    {
      CF.ClearsItself(data[i]);
      assert CellFits(m[off + i], log[off + i]);
    }
  }
}
