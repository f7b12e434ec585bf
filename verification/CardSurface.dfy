/** What any byte string at all gets back from the card. */
module CardSurface {
  import opened Bytes
  import opened StatusWords
  import opened Apdu
  import opened FsTypes
  import opened FsStore
  import opened FileMap
  import opened Commands
  import opened CardMachine
  import R = Response

  /** The trailing status word. */
  function StatusOf(out: seq<byte>): u16
    requires |out| >= 2
  {
    U16(out[|out| - 2], out[|out| - 1])
  }

  /** How much response data the command string asked for; none if it asked for none or is no command. */
  function Expected(cmd: seq<byte>): nat {
    match Parse(cmd)
    case Parsed(c) => if c.lePresent then c.le else 0
    case _ => 0
  }

  lemma FinishStatus(rsp: R.Rsp, sw: u16)
    ensures StatusOf(R.Finish(rsp, sw)) == if rsp.overflow then SW_NO_DIAGNOSIS else sw
    ensures |R.Finish(rsp, sw)| == 2 + if rsp.overflow then 0 else |rsp.data|
  {
    Be16Bytes(sw);
    Be16Bytes(SW_NO_DIAGNOSIS);
  }

  lemma RefusalProper(card: Card, cmd: seq<byte>)
    requires card.life != Operational || !Parse(cmd).Parsed? || CheckCla(Parse(cmd).cmd.cla) != ClaOk
    requires Sound(card.store)
    ensures forall cap: nat :: Answered(card, cmd, cap) == Fail(Answered(card, cmd, 0).sw, card.sel)
    ensures IsStatus(Answered(card, cmd, 0).sw) && Answered(card, cmd, 0).sw != SW_OK
  {
    hide Dispatch, View, Parse;
  }

  lemma DispatchedAnswer(card: Card, cmd: seq<byte>, cap: nat)
    requires card.life == Operational && Parse(cmd).Parsed? && CheckCla(Parse(cmd).cmd.cla) == ClaOk
    requires Sound(card.store)
    ensures Answered(card, cmd, cap) == Dispatch(View(card.store), card.sel, Parse(cmd).cmd, cap)
  {
    hide Dispatch, View, Parse;
  }

  /**
    For every byte string and every response buffer of at least two bytes: the
    answer fits the buffer and ends in a 6x or 9x status word, carries data
    only with 9000 or 6282 and never more than was asked for, and any answer
    but 9000 leaves the whole card as it was.
   */
  lemma EveryByteString(card: Card, cmd: seq<byte>, cap: nat)
    requires Sound(card.store) && cap >= 2
    ensures var (card', out) := Process(card, cmd, cap);
            && 2 <= |out| <= cap && IsStatus(StatusOf(out))
            && |out| - 2 <= Expected(cmd)
            && (|out| > 2 ==> StatusOf(out) == SW_OK || StatusOf(out) == SW_END_OF_FILE)
            && (StatusOf(out) != SW_OK ==> card' == card)
  {
    hide Answered, Dispatch, View, Parse, Sound, R.Finish, CheckCla;
    var a, p := Answered(card, cmd, cap), Parse(cmd);
    FinishStatus(a.rsp, a.sw);
    if card.life != Operational || !p.Parsed? || CheckCla(p.cmd.cla) != ClaOk {
      RefusalProper(card, cmd);
    } else {
      DispatchedAnswer(card, cmd, cap);
      SoundSizes(card.store);
      DispatchProper(View(card.store), card.sel, p.cmd, cap);
    }
  }

  lemma SoundSizes(s: Store)
    requires Sound(s)
    ensures |View(s).table| <= MAX_FILES && |View(s).flash| < 0x1_0000_0000
  {}

  /** Only an operational card serves a command, and only in class zero. */
  lemma ServedOnlyWhenOperational(card: Card, cmd: seq<byte>, cap: nat)
    requires Sound(card.store) && cap >= 2
    requires StatusOf(Process(card, cmd, cap).1) == SW_OK
    ensures card.life == Operational && Parse(cmd).Parsed? && Parse(cmd).cmd.cla == 0
    ensures Parse(cmd).cmd.ins in {INS_SELECT, INS_READ_BINARY, INS_UPDATE_BINARY, INS_CREATE_FILE, INS_DELETE_FILE}
  {
    hide Answered, View, Parse, Sound, R.Finish, CmdSelect, CmdRead, CmdUpdate, CmdCreate, CmdDelete;
    var a := Answered(card, cmd, cap);
    FinishStatus(a.rsp, a.sw);
    if card.life != Operational || !Parse(cmd).Parsed? || CheckCla(Parse(cmd).cmd.cla) != ClaOk {
      RefusalProper(card, cmd);
    } else {
      DispatchedAnswer(card, cmd, cap);
    }
  }
}
