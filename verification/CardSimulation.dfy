/**
  The card as a closed abstract machine: a map from slot to file, the bump
  pointer, the selection. It takes the same events as the real card and gives
  the same answers, byte for byte, through every run; no EEPROM or FLASH byte
  occurs in it.
 */
module CardSimulation {
  import opened Bytes
  import opened Apdu
  import opened FsTypes
  import opened NvmLayout
  import opened FsStore
  import opened FileTree
  import opened TreeInvariant
  import opened FileMap
  import opened Commands
  import opened CardMachine
  import opened CardRuns
  import opened Factory
  import opened CommandMeaning
  import opened CommandAgreement
  import R = Response

  // ------------------------------------------------------- the abstract card

  datatype Abstract = Abstract(files: map<nat, File>, top: u32, size: nat, sel: Selection, resets: u32)

  /** What a command string comes to on the abstract card. */
  ghost function Said(a: Abstract, cmd: seq<byte>, cap: nat): Told {
    StringTold(a.files, a.top, a.size, a.sel, cmd, cap)
  }

  ghost function AbstractStep(a: Abstract, e: Event): Abstract {
    match e
    case Send(cmd, cap) =>
      var r := Said(a, cmd, cap);
      Abstract(Apply(a.files, r.change), TopOf(a.top, r.change, Writes(r.change)), a.size, r.sel, a.resets)
    case ResetLine => a.(sel := Selection(0, NONE), resets := (a.resets + 1) % 0x1_0000_0000)
    case Cut(cmd, cap, n) =>
      var r := Said(a, cmd, cap);
      Abstract(if n < Writes(r.change) then a.files else Apply(a.files, r.change), TopOf(a.top, r.change, n), a.size,
               Selection(0, NONE), 0)
  }

  /** The response bytes, empty for an event that is not answered. */
  ghost function AbstractReply(a: Abstract, e: Event): seq<byte> {
    match e
    case Send(cmd, cap) => var r := Said(a, cmd, cap); r.data + Be16(r.sw)
    case _ => []
  }

  ghost function Alpha(card: Card): Abstract
    requires Sound(card.store)
  {
    Abstract(FilesOf(card), card.store.sb.dataTop, |card.store.flash|, card.sel, card.resets)
  }

  ghost function CardReply(card: Card, e: Event): seq<byte>
    requires Sound(card.store)
  {
    match e
    case Send(cmd, cap) => Process(card, cmd, cap).1
    case _ => []
  }

  // ------------------------------------------------------------- one command

  /** Parsing finds the command a string spells, and there is at most one. */
  lemma SpelledIsParsed(cmd: seq<byte>, c: Command)
    ensures Spells(cmd, c) <==> Parse(cmd) == Parsed(c)
  {
    hide Parse, Encode, Short;
    if Spells(cmd, c) {
      ParseOfEncode(c);
    }
    if Parse(cmd) == Parsed(c) {
      EncodeOfParse(cmd);
    }
  }

  lemma UnparsedWord(cmd: seq<byte>)
    requires !Parse(cmd).Parsed?
    ensures ParsingSw(Parse(cmd)) == if |cmd| > 5 && cmd[4] == 0 then 0x6A81 else 0x6700
  {}

  lemma ClassTold(cla: byte)
    ensures ClaSw(CheckCla(cla)) == ClassWord(cla)
    ensures CheckCla(cla) == ClaOk <==> ClassWord(cla) == 0x9000
  {}

  /** The same reply, selection, change and writes. */
  lemma AnswerAgrees(card: Card, cmd: seq<byte>, cap: nat)
    requires GoodCard(card)
    ensures Sound(card.store)
    ensures Tells(View(card.store), Answered(card, cmd, cap), Asked(card, cmd), Said(Alpha(card), cmd, cap))
  {
    hide GoodStore, SelectionFits, Parse, CheckCla, ClaSw, Dispatch, CommandTold, Meaning, Files, Table, Good, Spells,
      ClassWord, ParsingSw, WritesFit, Be16;
    GoodSize(card);
    NothingWritten(View(card.store));
    forall c
      ensures Spells(cmd, c) <==> Parse(cmd) == Parsed(c)
    {
      SpelledIsParsed(cmd, c);
    }
    if Parse(cmd).Parsed? {
      assert Spells(cmd, Parse(cmd).cmd);
      ClassTold(Parse(cmd).cmd.cla);
      CommandAgrees(View(card.store), card.sel, Parse(cmd).cmd, cap);
    } else {
      UnparsedWord(cmd);
    }
  }

  // ------------------------------------------------------- the bump pointer

  ghost predicate NoSb(ws: seq<Write>) {
    forall i | 0 <= i < |ws| :: !ws[i].WriteSb?
  }

  lemma {:induction false} TopKept(k: Disk, ws: seq<Write>)
    requires NoSb(ws)
    ensures DiskExecAll(k, ws).top == k.top
    decreases |ws|
  {
    if ws != [] && DiskFits(k, ws[0]) {
      TopKept(DiskExec(k, ws[0]), ws[1..]);
    }
  }

  /** Only a write of the superblock, which comes first if at all, moves the bump pointer. */
  function TopAfter(top: u32, ws: seq<Write>): u32 {
    if ws != [] && ws[0].WriteSb? then ws[0].top else top
  }

  /** At most the first write of a command is to the superblock, and it is in range. */
  ghost predicate Orderly(k: Disk, ws: seq<Write>) {
    ws != [] ==> NoSb(ws[1..]) && (ws[0].WriteSb? ==> ws[0].top <= |k.flash|)
  }

  lemma TopIs(k: Disk, ws: seq<Write>)
    requires Orderly(k, ws)
    ensures DiskExecAll(k, ws).top == TopAfter(k.top, ws)
  {
    if ws != [] && DiskFits(k, ws[0]) {
      TopKept(DiskExec(k, ws[0]), ws[1..]);
    }
  }

  lemma OrderlyPrefix(k: Disk, ws: seq<Write>, n: nat)
    requires Orderly(k, ws)
    ensures Orderly(k, Prefix(ws, n))
  {
    if 0 < n < |ws| {
      assert forall i | 0 <= i < n - 1 :: ws[..n][1..][i] == ws[1..][i];
    }
  }

  /** Writes that make up a change are in order, and move the bump pointer as told. */
  lemma FittingWrites(k: Disk, ws: seq<Write>, ch: Change, n: nat)
    requires WritesFit(k, ws, ch)
    ensures Orderly(k, ws)
    ensures TopAfter(k.top, Prefix(ws, n)) == TopOf(k.top, ch, n)
    ensures TopAfter(k.top, ws) == TopOf(k.top, ch, Writes(ch))
  {}

  // --------------------------------------------------------------- one event

  lemma TopOfStore(card: Card, ws: seq<Write>)
    requires GoodCard(card) && Sound(card.store) && Orderly(View(card.store), ws)
    ensures var s := ExecAll(card.store, ws);
            s.sb.dataTop == TopAfter(card.store.sb.dataTop, ws) && |s.flash| == |card.store.flash|
  {
    hide Table, MountResult, Good, SelectionFits, Orderly, DiskExecAll, ExecAll, TopAfter;
    MirrorKeptAll(card.store, ws);
    ViewExecAll(card.store, ws);
    TopIs(View(card.store), ws);
  }

  /** Answer, writes and bump pointer of one command, whole or stopped after n writes. */
  lemma CommandSimulates(card: Card, cmd: seq<byte>, cap: nat, n: nat)
    requires GoodCard(card)
    ensures Sound(card.store)
    ensures var a, r, top := Answered(card, cmd, cap), Said(Alpha(card), cmd, cap), card.store.sb.dataTop;
            && R.Finish(a.rsp, a.sw) == r.data + Be16(r.sw)
            && a.sel == r.sel && Asked(card, cmd) == r.change && |a.writes| == Writes(r.change)
            && ExecAll(card.store, a.writes).sb.dataTop == TopOf(top, r.change, Writes(r.change))
            && ExecAll(card.store, Prefix(a.writes, n)).sb.dataTop == TopOf(top, r.change, n)
            && |ExecAll(card.store, a.writes).flash| == |card.store.flash|
            && |ExecAll(card.store, Prefix(a.writes, n)).flash| == |card.store.flash|
  {
    hide GoodStore, SelectionFits, Answered, Said, Asked, FilesOf, TopAfter, TopOf, ExecAll, Table, Orderly, R.Finish,
      Be16;
    GoodSize(card);
    AnswerAgrees(card, cmd, cap);
    var ws := Answered(card, cmd, cap).writes;
    FittingWrites(View(card.store), ws, Asked(card, cmd), n);
    OrderlyPrefix(View(card.store), ws, n);
    TopOfStore(card, ws);
    TopOfStore(card, Prefix(ws, n));
  }

  /** One event: the real card goes where the abstract card goes, with the same reply. */
  lemma StepSimulates(card: Card, e: Event)
    requires GoodCard(card)
    ensures Sound(card.store) && |card.store.flash| < 0x1_0000_0000
    ensures GoodCard(Step(card, e)) && Sound(Step(card, e).store)
    ensures Alpha(Step(card, e)) == AbstractStep(Alpha(card), e)
    ensures CardReply(card, e) == AbstractReply(Alpha(card), e)
  {
    hide GoodStore, SelectionFits, Answered, Said, Asked, FilesOf, TopOf, ExecAll, PowerUp, View, R.Finish, Be16,
      Writes, Apply;
    GoodSize(card);
    StepKeeps(card, e);
    GoodSize(Step(card, e));
    FlashFits(card);
    match e
    case ResetLine =>
      SameFiles(card, Step(card, e));
    case Send(cmd, cap) =>
      CommandSimulates(card, cmd, cap, 0);
    case Cut(cmd, cap, n) =>
      CommandSimulates(card, cmd, cap, n);
      CutComesUp(card, cmd, cap, n);
      KeepsAll(FilesOf(card));
  }

  lemma KeepsAll(m: map<nat, File>)
    ensures Apply(m, Keep) == m
  {}

  lemma FlashFits(card: Card)
    requires GoodCard(card)
    ensures |card.store.flash| < 0x1_0000_0000
  {
    hide SelectionFits, Extents, Mirrored, Tree;
  }

  lemma SameFiles(card: Card, card': Card)
    requires Sound(card.store) && card'.store == card.store
    ensures FilesOf(card') == FilesOf(card)
  {}

  /** After a cut the card comes up on exactly the bytes the writes left. */
  lemma CutComesUp(card: Card, cmd: seq<byte>, cap: nat, n: nat)
    requires GoodCard(card) && Sound(card.store)
    ensures Step(card, Cut(cmd, cap, n))
         == Card(ExecAll(card.store, Prefix(Answered(card, cmd, cap).writes, n)), Operational, Reset, 0)
  {
    hide Answered, GoodStore, SelectionFits, Asked, View, Table, ExecAll, PowerUp;
    GoodSize(card);
    var ws := Answered(card, cmd, cap).writes;
    var m := if n < |ws| then n else |ws|;
    CommandSettled(card, cmd, cap, m);
    assert Prefix(ws, n) == ws[..m];
    PowerUpGood(ExecAll(card.store, ws[..m]));
  }

  // -------------------------------------------------------------- whole runs

  ghost function AbstractRun(a: Abstract, es: seq<Event>): Abstract
    decreases |es|
  {
    if es == [] then a else AbstractRun(AbstractStep(a, es[0]), es[1..])
  }

  ghost function AbstractReplies(a: Abstract, es: seq<Event>): seq<seq<byte>>
    decreases |es|
  {
    if es == [] then [] else [AbstractReply(a, es[0])] + AbstractReplies(AbstractStep(a, es[0]), es[1..])
  }

  ghost function Replies(card: Card, es: seq<Event>): seq<seq<byte>>
    requires GoodCard(card)
    decreases |es|
  {
    if es == [] then []
    else
      StepSimulates(card, es[0]);
      [CardReply(card, es[0])] + Replies(Step(card, es[0]), es[1..])
  }

  /**
    Any run of commands, resets and power cuts: the abstract card, fed the same
    events, ends in the state the real card's bytes decode to and has given
    the same bytes for every answer.
   */
  lemma {:induction false} RunSimulates(card: Card, es: seq<Event>)
    requires GoodCard(card)
    ensures Sound(card.store) && |card.store.flash| < 0x1_0000_0000
    ensures Sound(Run(card, es).store)
    ensures Alpha(Run(card, es)) == AbstractRun(Alpha(card), es)
    ensures Replies(card, es) == AbstractReplies(Alpha(card), es)
    decreases |es|
  {
    hide GoodStore, SelectionFits, Step, Alpha, AbstractStep, CardReply, AbstractReply;
    GoodSize(card);
    GoodSize(Run(card, es));
    AlphaSize(card);
    if es != [] {
      StepSimulates(card, es[0]);
      RunSimulates(Step(card, es[0]), es[1..]);
    }
  }

  lemma AlphaSize(card: Card)
    requires Sound(card.store)
    ensures Alpha(card).size == |card.store.flash|
  {}

  /** The abstract card a blank chip of this FLASH size comes up as. */
  ghost function FactoryAbstract(size: nat): Abstract {
    Abstract(FactoryFiles, 112, size, Reset, 0)
  }

  lemma FactoryTop(s: Store)
    requires BlankChip(s)
    ensures GoodCard(PowerUp(s)) && Sound(PowerUp(s).store)
    ensures Alpha(PowerUp(s)) == FactoryAbstract(|s.flash|)
  {
    hide InitResult, Good, Mirrored, SelectionFits, Files;
    EveryRun(s, []);
    BlankChipBecomesFactoryCard(s);
  }

  /** From any blank chip, whatever is sent, every answer is the abstract factory card's. */
  lemma BlankChipSimulates(s: Store, es: seq<Event>)
    requires BlankChip(s)
    ensures GoodCard(PowerUp(s))
    ensures Sound(Run(PowerUp(s), es).store)
    ensures Alpha(Run(PowerUp(s), es)) == AbstractRun(FactoryAbstract(|s.flash|), es)
    ensures Replies(PowerUp(s), es) == AbstractReplies(FactoryAbstract(|s.flash|), es)
  {
    hide Alpha, PowerUp, GoodStore, SelectionFits, Run, Replies, AbstractRun, AbstractReplies;
    FactoryTop(s);
    RunSimulates(PowerUp(s), es);
  }
}
