/** Navigation as a run of command strings. */
module CardNavigation {
  import opened Bytes
  import opened StatusWords
  import opened Apdu
  import opened FsTypes
  import opened FsStore
  import opened FileTree
  import opened TreeInvariant
  import opened Commands
  import opened CardMachine
  import opened CardRuns
  import opened Navigation
  import R = Response

  /** SELECT without response data: P1 says how the identifier is meant. */
  function SelectString(p1: byte, fid: u16): seq<byte> {
    [0x00, INS_SELECT, p1, 0x0C, 2, fid / 0x100, fid % 0x100]
  }

  lemma SelectParsed(p1: byte, fid: u16)
    ensures var c := Command(0x00, INS_SELECT, p1, 0x0C, SelectString(p1, fid)[5..], 0, false, Case3);
            && Parse(SelectString(p1, fid)) == Parsed(c) && |c.data| == 2 && Num16(c.data) == fid
  {}

  /** What SELECT with that identifier resolves to. */
  ghost function Goal(t: seq<Slot>, sel: Selection, p1: byte, fid: u16): Result<Selection>
    requires |t| <= MAX_FILES
  {
    if p1 == 0 then SelectByFid(t, sel, fid) else SelectChild(t, sel, fid, p1 == 1)
  }

  lemma SelectHandled(t: seq<Slot>, sel: Selection, c: Command, cap: nat, x: Selection)
    requires |t| <= MAX_FILES && c.ins == INS_SELECT && c.p1 <= 2 && c.p2 == 0x0C && |c.data| == 2
    requires Goal(t, sel, c.p1, Num16(c.data)) == Success(x)
    ensures CmdSelect(t, sel, c, cap) == Answer(SW_OK, R.Empty, x, [])
  {
    hide SelectByFid, SelectChild, Num16;
  }

  lemma SelectAnswered(card: Card, p1: byte, fid: u16, cap: nat, x: Selection)
    requires GoodCard(card) && p1 <= 2 && |Table(card.store)| <= MAX_FILES
    requires Goal(Table(card.store), card.sel, p1, fid) == Success(x)
    ensures Answered(card, SelectString(p1, fid), cap) == Answer(SW_OK, R.Empty, x, [])
  {
    hide Parse, SelectString, Goal, GoodStore, SelectionFits, CmdSelect, CmdRead, CmdUpdate, CmdCreate, CmdDelete,
      Answered, Table, CheckCla, Num16;
    GoodSize(card);
    SelectParsed(p1, fid);
    OnlyClassZero(0);
    AnsweredCases(card, SelectString(p1, fid), cap);
    SelectHandled(Table(card.store), card.sel, Parse(SelectString(p1, fid)).cmd, cap, x);
  }

  /** A SELECT that resolves is answered 9000, moves the selection there and changes nothing else. */
  lemma SelectSent(card: Card, p1: byte, fid: u16, cap: nat, x: Selection)
    requires GoodCard(card) && p1 <= 2 && |Table(card.store)| <= MAX_FILES
    requires Goal(Table(card.store), card.sel, p1, fid) == Success(x)
    ensures Process(card, SelectString(p1, fid), cap) == (card.(sel := x), Be16(SW_OK))
  {
    hide SelectString, Goal, GoodStore, SelectionFits, Answered, Table, Be16;
    GoodSize(card);
    SelectAnswered(card, p1, fid, cap, x);
    assert [] + Be16(SW_OK) == Be16(SW_OK);
  }

  /** One typed child SELECT per identifier. */
  function DescentRun(fids: seq<u16>, lastDf: bool, cap: nat): seq<Event>
    decreases |fids|
  {
    if fids == [] then []
    else [Send(SelectString(if |fids| > 1 || lastDf then 1 else 2, fids[0]), cap)] + DescentRun(fids[1..], lastDf, cap)
  }

  lemma {:induction false} DescentSent(card: Card, fids: seq<u16>, lastDf: bool, cap: nat, x: Selection)
    requires GoodCard(card) && |Table(card.store)| <= MAX_FILES
    requires Descend(Table(card.store), card.sel, fids, lastDf) == Success(x)
    ensures Run(card, DescentRun(fids, lastDf, cap)) == card.(sel := x)
    decreases |fids|
  {
    hide SelectString, Process, GoodStore, SelectionFits, SelectChild, Table;
    GoodSize(card);
    if fids != [] {
      var df := |fids| > 1 || lastDf;
      var es := DescentRun(fids, lastDf, cap);
      var next := SelectChild(Table(card.store), card.sel, fids[0], df).value;
      SelectSent(card, if df then 1 else 2, fids[0], cap, next);
      StepKeeps(card, es[0]);
      DescentSent(card.(sel := next), fids[1..], lastDf, cap, x);
      assert es[1..] == DescentRun(fids[1..], lastDf, cap);
    }
  }

  /** SELECT 3F00, then one typed child SELECT per link. */
  function WayTo(fids: seq<u16>, lastDf: bool, cap: nat): seq<Event> {
    [Send(SelectString(0, FID_MF), cap)] + DescentRun(fids, lastDf, cap)
  }

  lemma MfSelected(t: seq<Slot>, sel: Selection)
    requires Tree(t)
    ensures |t| <= MAX_FILES && SelectByFid(t, sel, FID_MF) == Success(Reset)
  {}

  /**
    On every reachable card and from any selection, every activated file is
    selected by SELECT 3F00 and one child SELECT per link of its chain, in
    fewer commands than there are slots, with nothing else changed.
   */
  lemma EveryFileIsReached(card: Card, i: u16, n: nat, cap: nat)
    requires GoodCard(card) && i < |Table(card.store)| && Reaches(Table(card.store), i, n)
    requires Table(card.store)[i].Live? && Table(card.store)[i].desc.Usable()
    ensures var d := Table(card.store)[i].desc;
            && n < MAX_FILES
            && Run(card, WayTo(PathTo(Table(card.store), i, n), d.IsDf(), cap)) == card.(sel := Commit(i, d))
  {
    hide SelectString, Process, GoodStore, SelectionFits, SelectByFid, Table, Descend, Tree;
    GoodSize(card);
    GoodHasTree(card);
    var t := Table(card.store);
    var d := t[i].desc;
    MfSelected(t, card.sel);
    ChainsAreShort(t, i, n);
    FileIsReached(t, i, n);
    var es := WayTo(PathTo(t, i, n), d.IsDf(), cap);
    SelectSent(card, 0, FID_MF, cap, Reset);
    StepKeeps(card, es[0]);
    DescentSent(card.(sel := Reset), PathTo(t, i, n), d.IsDf(), cap, Commit(i, d));
    assert es[1..] == DescentRun(PathTo(t, i, n), d.IsDf(), cap);
  }

  lemma GoodHasTree(card: Card)
    requires GoodCard(card)
    ensures Sound(card.store) && Tree(Table(card.store)) && |Table(card.store)| == MAX_FILES
  {
    hide Table, Mirrored, Extents, AllRooted, SelectionFits;
  }
}
