/**
  Whole runs of the card: every sequence of command strings, resets and power
  cuts keeps the tree, the extents, the mirror and the selection, and acts on
  the file map exactly as its commands mean.
 */
module CardRuns {
  import opened Bytes
  import opened Apdu
  import opened FsTypes
  import opened NvmLayout
  import opened FsStore
  import opened FileTree
  import opened TreeInvariant
  import opened FileMap
  import opened Commands
  import opened Factory
  import opened CardMachine

  /** A chip whose bytes decode to a good disk and whose mirror is what a mount would load. */
  ghost predicate GoodStore(s: Store) {
    Sound(s) && Mirrored(s) && s.sb.maxFiles == MAX_FILES && Good(View(s))
  }

  ghost predicate GoodCard(card: Card) {
    GoodStore(card.store) && card.life == Operational && SelectionFits(Table(card.store), card.sel)
  }

  /** The file map a card presents. */
  ghost function FilesOf(card: Card): map<nat, File>
    requires Sound(card.store)
  {
    Files(View(card.store))
  }

  /** The change a command string asks of an operational card. */
  ghost function Asked(card: Card, cmd: seq<byte>): Change
    requires Sound(card.store)
  {
    var p := Parse(cmd);
    if p.Parsed? && CheckCla(p.cmd.cla) == ClaOk then Meaning(View(card.store), card.sel, p.cmd) else Keep
  }

  // --------------------------------------------------------------- one command

  /** Answer a of a good card, followed through its first n writes. */
  ghost predicate StoreSettled(card: Card, a: Answer, ch: Change, n: nat)
    requires Sound(card.store) && n <= |a.writes|
  {
    var s := ExecAll(card.store, a.writes[..n]);
    && GoodStore(s) && |s.flash| == |card.store.flash| && card.store.sb.dataTop <= s.sb.dataTop
    && SelectionFits(Table(s), if n < |a.writes| then card.sel else a.sel)
    && Files(View(s)) == if n < |a.writes| then FilesOf(card) else Apply(FilesOf(card), ch)
  }

  lemma LiftSettled(card: Card, a: Answer, ch: Change, n: nat)
    requires GoodCard(card) && n <= |a.writes| && Settled(View(card.store), card.sel, a, ch, n)
    ensures StoreSettled(card, a, ch, n)
  {
    hide Table, MountResult, Good, SelectionFits, Files, ExecAll, DiskExecAll, Apply;
    MirrorKeptAll(card.store, a.writes[..n]);
    ViewExecAll(card.store, a.writes[..n]);
  }

  lemma GoodSize(card: Card)
    requires GoodCard(card)
    ensures Sound(card.store) && |View(card.store).table| == MAX_FILES && |View(card.store).flash| < 0x1_0000_0000
    ensures Good(View(card.store)) && SelectionFits(View(card.store).table, card.sel)
  {
    hide SelectionFits, Extents, Mirrored;
  }

  /** The command either reached a handler or was refused before it. */
  lemma AnsweredCases(card: Card, cmd: seq<byte>, cap: nat)
    requires GoodCard(card)
    ensures var p, a := Parse(cmd), Answered(card, cmd, cap);
            if p.Parsed? && CheckCla(p.cmd.cla) == ClaOk then a == Dispatch(View(card.store), card.sel, p.cmd, cap)
            else a == Fail(a.sw, card.sel)
  {
    hide Dispatch, View, Parse, GoodStore, SelectionFits;
  }

  lemma CommandSettled(card: Card, cmd: seq<byte>, cap: nat, n: nat)
    requires GoodCard(card) && n <= |Answered(card, cmd, cap).writes|
    ensures StoreSettled(card, Answered(card, cmd, cap), Asked(card, cmd), n)
  {
    hide GoodStore, Answered, Dispatch, Parse, View, Settled, StoreSettled, SelectionFits, Good, Meaning;
    GoodSize(card);
    AnsweredCases(card, cmd, cap);
    var p, a, k := Parse(cmd), Answered(card, cmd, cap), View(card.store);
    if p.Parsed? && CheckCla(p.cmd.cla) == ClaOk {
      DispatchSettled(k, card.sel, p.cmd, cap, n);
    } else {
      QuietSettled(k, card.sel, a);
    }
    LiftSettled(card, a, Asked(card, cmd), n);
  }

  // -------------------------------------------------------------- one event

  /** The change an event makes: a command cut short asks for nothing or for all of it. */
  ghost function Made(card: Card, e: Event): Change
    requires Sound(card.store)
  {
    match e
    case Send(cmd, _) => Asked(card, cmd)
    case ResetLine => Keep
    case Cut(cmd, cap, n) => if n < |Answered(card, cmd, cap).writes| then Keep else Asked(card, cmd)
  }

  /** Cold boot over a good chip changes no byte and comes up at the MF. */
  lemma PowerUpGood(s: Store)
    requires GoodStore(s)
    ensures PowerUp(s) == Card(s, Operational, Reset, 0)
  {
    hide Table, MountRaw, Extents;
    assert s.(sb := s.sb) == s;
  }

  lemma RootSelected(s: Store)
    requires GoodStore(s)
    ensures SelectionFits(Table(s), Reset)
  {
    hide Table, MountRaw, Extents, SelectionFits, Tree;
    ResetFits(View(s).table);
  }

  /**
    One event of any kind: the card stays good, the bump pointer never moves
    down, and the file map changes exactly as the event means.
   */
  lemma StepKeeps(card: Card, e: Event)
    requires GoodCard(card)
    ensures var card' := Step(card, e);
            && GoodCard(card') && card.store.sb.dataTop <= card'.store.sb.dataTop
            && FilesOf(card') == Apply(FilesOf(card), Made(card, e))
  {
    hide Answered, GoodStore, SelectionFits, Asked, View, Table, ExecAll, PowerUp;
    GoodSize(card);
    match e
    case Send(cmd, cap) =>
      var ws := Answered(card, cmd, cap).writes;
      CommandSettled(card, cmd, cap, |ws|);
      assert ws[..|ws|] == ws;
    case ResetLine =>
      RootSelected(card.store);
    case Cut(cmd, cap, n) =>
      var ws := Answered(card, cmd, cap).writes;
      var m := if n < |ws| then n else |ws|;
      CommandSettled(card, cmd, cap, m);
      assert Prefix(ws, n) == ws[..m];
      PowerUpGood(ExecAll(card.store, ws[..m]));
      RootSelected(ExecAll(card.store, ws[..m]));
  }

  // ------------------------------------------------------------------- runs

  /** All events in order. */
  ghost function Run(card: Card, es: seq<Event>): (r: Card)
    requires GoodCard(card)
    ensures GoodCard(r)
    decreases |es|
  {
    if es == [] then card
    else
      StepKeeps(card, es[0]);
      Run(Step(card, es[0]), es[1..])
  }

  /** The changes a run makes to the file map, in order. */
  ghost function History(card: Card, es: seq<Event>): seq<Change>
    requires GoodCard(card)
    decreases |es|
  {
    if es == [] then []
    else
      StepKeeps(card, es[0]);
      [Made(card, es[0])] + History(Step(card, es[0]), es[1..])
  }

  ghost function ApplyAll(m: map<nat, File>, cs: seq<Change>): map<nat, File>
    decreases |cs|
  {
    if cs == [] then m else ApplyAll(Apply(m, cs[0]), cs[1..])
  }

  /** The bytes of a card after any run decode to the fold of the run's changes over its files. */
  lemma {:induction false} RunRefines(card: Card, es: seq<Event>)
    requires GoodCard(card)
    ensures FilesOf(Run(card, es)) == ApplyAll(FilesOf(card), History(card, es))
    ensures card.store.sb.dataTop <= Run(card, es).store.sb.dataTop
    decreases |es|
  {
    hide GoodStore, Step, Made, SelectionFits, Apply, FilesOf;
    GoodSize(card);
    if es != [] {
      StepKeeps(card, es[0]);
      var next, rest := Step(card, es[0]), es[1..];
      RunRefines(next, rest);
      var cs := History(next, rest);
      assert ([Made(card, es[0])] + cs)[1..] == cs;
    }
  }

  /** A chip this system would personalise: no magic bytes, large enough, blank data flash. */
  ghost predicate BlankChip(s: Store) {
    && TableEnd(MAX_FILES) <= |s.eeprom| < 0x1_0000_0000
    && 112 <= |s.flash| < 0x1_0000_0000 && ErasedFrom(s.flash, 0)
    && s.eeprom[..4] != MAGIC
  }

  /**
    From any blank chip, through any run of command strings, resets and power
    cuts: one tree, disjoint extents, erased flash above the bump pointer,
    mirror equal to the chip, selection on live files; and the files are those
    of the factory card with the run's changes applied in order.
   */
  lemma EveryRun(s: Store, es: seq<Event>)
    requires BlankChip(s)
    ensures GoodCard(PowerUp(s)) && GoodCard(Run(PowerUp(s), es))
    ensures FilesOf(Run(PowerUp(s), es)) == ApplyAll(FactoryFiles, History(PowerUp(s), es))
  {
    hide InitResult, Good, Mirrored, SelectionFits, Files, Run, History;
    BlankChipBecomesFactoryCard(s);
    RunRefines(PowerUp(s), es);
  }

  // ------------------------------------------------------ what a run leaves be

  predicate Touches(c: Change, i: nat) {
    !c.Keep? && c.slot == i
  }

  /** A file no change names keeps its descriptor and every byte. */
  lemma {:induction false} UntouchedFile(m: map<nat, File>, cs: seq<Change>, i: nat)
    requires forall c | c in cs :: !Touches(c, i)
    ensures i in ApplyAll(m, cs) <==> i in m
    ensures i in m ==> ApplyAll(m, cs)[i] == m[i]
    decreases |cs|
  {
    if cs != [] {
      assert !Touches(cs[0], i);
      UntouchedFile(Apply(m, cs[0]), cs[1..], i);
    }
  }
}
