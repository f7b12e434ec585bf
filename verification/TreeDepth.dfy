/**
  How deep the tree gets. Path selection walks at most eight components, and
  the tests expect every chain to be that short, but creation has no such
  limit: exactly when a command breaks the bound, and a run that does.
 */
module TreeDepth {
  import opened Bytes
  import opened Apdu
  import opened FsTypes
  import opened FsStore
  import opened FileTree
  import opened TreeInvariant
  import opened FileMap
  import opened FileOps
  import opened Commands
  import opened Factory
  import opened CardMachine
  import opened CardRuns
  import opened AbstractCard
  import opened Navigation
  import opened CardNavigation
  import F = Fcp
  import FX = FcpExactly

  // --------------------------------------------------------------- the bound

  ghost predicate Within(t: seq<Slot>, i: nat, d: nat) {
    exists n: nat | n <= d :: Reaches(t, i, n)
  }

  /** Every file is at most MAX_DEPTH links below the MF. */
  ghost predicate Shallow(t: seq<Slot>) {
    forall i | 0 <= i < |t| && t[i].Live? :: Within(t, i, MAX_DEPTH)
  }

  /** A new file keeps the bound exactly when the DF it goes into is above it. */
  lemma CreateDepthExactly(t: seq<Slot>, k: nat, d: Desc, n: nat)
    requires Shallow(t) && 0 < k < |t| && t[k].Free? && Reaches(t, d.parent, n)
    ensures Shallow(t[k := Live(d)]) <==> n < MAX_DEPTH
  {
    var t' := t[k := Live(d)];
    ReachesFilled(t, k, Live(d), d.parent, n);
    assert Reaches(t', k, n + 1);
    if n < MAX_DEPTH {
      forall i | 0 <= i < |t'| && t'[i].Live?
        ensures Within(t', i, MAX_DEPTH)
      {
        if i != k {
          var m: nat :| m <= MAX_DEPTH && Reaches(t, i, m);
          ReachesFilled(t, k, Live(d), i, m);
        }
      }
    } else if Within(t', k, MAX_DEPTH) {
      var m: nat :| m <= MAX_DEPTH && Reaches(t', k, m);
      SameLength(t', k, m, n + 1);
    }
  }

  lemma DeleteKeepsDepth(t: seq<Slot>, k: nat)
    requires Shallow(t) && k < |t|
    requires forall j | 0 <= j < |t| && t[j].Live? :: t[j].desc.parent != k
    ensures Shallow(t[k := Free])
  {
    var t' := t[k := Free];
    forall i | 0 <= i < |t'| && t'[i].Live?
      ensures Within(t', i, MAX_DEPTH)
    {
      var m: nat :| m <= MAX_DEPTH && Reaches(t, i, m);
      ReachesFreed(t, k, i, m);
    }
  }

  // ------------------------------------------------ the table behind the map

  lemma TableAfterChange(k: Disk, k': Disk, ch: Change)
    requires Good(k) && Good(k') && Files(k') == Apply(Files(k), ch)
    ensures ch.Keep? || ch.Patch? ==> k'.table == k.table
    ensures ch.Add? && ch.slot < |k.table| ==> k'.table == k.table[ch.slot := Live(ch.file.desc)]
    ensures ch.Remove? && ch.slot < |k.table| ==> k'.table == k.table[ch.slot := Free]
  {
    hide Files, Good;
    TableIsMap(k);
    TableIsMap(k');
  }

  lemma RemovedIsChildless(k: Disk, i: nat)
    requires Good(k) && !HasChild(Files(k), i)
    ensures forall j | 0 <= j < |k.table| && k.table[j].Live? :: k.table[j].desc.parent != i
  {
    FilesAre(k);
    hide Good, Files;
    forall j | 0 <= j < |k.table| && k.table[j].Live?
      ensures k.table[j].desc.parent != i
    {
      assert j in Files(k);
    }
  }

  lemma AddedUnderCurrentDf(k: Disk, sel: Selection, c: Command, ch: Change)
    requires Good(k) && SelectionFits(k.table, sel) && |k.table| <= MAX_FILES
    requires Meaning(k, sel, c) == ch
    ensures ch.Add? ==> 0 < ch.slot < MAX_FILES && ch.slot !in Files(k) && ch.file.desc.parent == sel.df
    ensures ch.Remove? ==> ch.slot < |k.table| && !HasChild(Files(k), ch.slot)
  {
    hide Meaning, Good, Files, SelectionFits, HasChild, FX.Wish, Does;
    MeaningExactly(k, sel, c, ch);
    RootIsFile(k);
    FilesAre(k);
    DoneToMap(Files(k), k.top, |k.flash|, sel, c, ch);
  }

  lemma DoneToMap(m: map<nat, File>, top: u32, size: nat, sel: Selection, c: Command, ch: Change)
    requires Does(m, top, size, sel, c, ch)
    ensures ch.Add? ==> ch.slot < MAX_FILES && ch.slot !in m && ch.file.desc.parent == sel.df
    ensures ch.Remove? ==> ch.slot in m && !HasChild(m, ch.slot)
  {
    hide HasChild, FX.Wish, Taken, CanUpdate, Fill;
  }

  lemma RootIsFile(k: Disk)
    requires Good(k)
    ensures 0 in Files(k)
  {
    hide Extents, AllRooted, IsFile;
  }

  /**
    One command, exactly: the bound survives unless the command creates a file
    in a current DF that is itself MAX_DEPTH links down.
   */
  lemma DepthExactly(k: Disk, k': Disk, sel: Selection, c: Command, n: nat)
    requires Good(k) && SelectionFits(k.table, sel) && |k.table| <= MAX_FILES
    requires Good(k') && Files(k') == Apply(Files(k), Meaning(k, sel, c))
    requires Shallow(k.table) && Reaches(k.table, sel.df, n)
    ensures Shallow(k'.table) <==> !(Meaning(k, sel, c).Add? && n >= MAX_DEPTH)
  {
    hide Meaning, Good, Files, Apply, SelectionFits, Shallow, HasChild, Reaches;
    GoodTree(k);
    var ch := Meaning(k, sel, c);
    AddedUnderCurrentDf(k, sel, c, ch);
    TableIsMap(k);
    TableAfterChange(k, k', ch);
    if ch.Add? {
      CreateDepthExactly(k.table, ch.slot, ch.file.desc, n);
    } else if ch.Remove? {
      RemovedIsChildless(k, ch.slot);
      DeleteKeepsDepth(k.table, ch.slot);
    }
  }

  // ----------------------------------------------------- a run that breaks it

  const NESTED: Desc := Desc(0x0101, TYPE_DF, LC_ACTIVATED, NO_PARENT, 0, 0, 0, 0, NO_SFI, 0)

  function CreateCommand(): Command {
    Command(0x00, INS_CREATE_FILE, 0, 0, F.FcpBytes(NESTED), 0, false, Case3)
  }

  function CreateString(): seq<byte> {
    Encode(CreateCommand())
  }

  /** CREATE a DF 0101 in the current DF, then SELECT it. */
  function Dig(cap: nat): seq<Event> {
    [Send(CreateString(), cap), Send(SelectString(1, NESTED.fid), cap)]
  }

  function DeepRun(k: nat, cap: nat): seq<Event> {
    if k == 0 then [] else Dig(cap) + DeepRun(k - 1, cap)
  }

  ghost predicate HasNested(m: map<nat, File>, df: u16) {
    exists j | j in m :: m[j].desc.parent == df && m[j].desc.fid == NESTED.fid
  }

  /** The current DF is n links down and has no 0101 yet; the lowest 5 + n slots are in use. */
  ghost predicate AtDepth(k: Disk, sel: Selection, n: nat)
  {
    && Good(k) && SelectionFits(k.table, sel) && Reaches(k.table, sel.df, n)
    && (forall j: nat :: j in Files(k) <==> j < 5 + n)
    && !HasNested(Files(k), sel.df)
  }

  lemma CreateParsed()
    ensures Parse(CreateString()) == Parsed(CreateCommand())
    ensures F.ParseFcp(CreateCommand().data) == F.Request(NESTED) && CreateCommand().data != []
    ensures FX.Wish(CreateCommand().data) == F.Request(NESTED)
  {
    hide F.ParseFcp, F.FcpBytes, FX.Wish, Encode, Parse;
    FX.ParseIsWish(CreateCommand().data);
    ParseOfEncode(CreateCommand());
    F.ParseOfFcp(NESTED);
  }

  ghost function NestedChange(k: Disk, sel: Selection, n: nat): Change {
    Add(5 + n, File(Created(k.top, sel, NESTED), Fill(0, ERASED)))
  }

  lemma CreateMeans(k: Disk, sel: Selection, n: nat)
    requires AtDepth(k, sel, n) && 5 + n < MAX_FILES && |k.table| <= MAX_FILES && |k.flash| < 0x1_0000_0000
    ensures Meaning(k, sel, CreateCommand()) == NestedChange(k, sel, n)
  {
    hide Meaning, Good, Files, SelectionFits, F.ParseFcp, F.FcpBytes, FX.Wish, Fill;
    CreateParsed();
    assert !Taken(Files(k), sel.df, NESTED);
    assert IsNextSlot(Files(k), 5 + n);
    MeaningExactly(k, sel, CreateCommand(), NestedChange(k, sel, n));
  }

  /** After the creation the new DF can be selected as a child, one link further down. */
  lemma CreatedBelow(k: Disk, k': Disk, sel: Selection, n: nat)
    requires AtDepth(k, sel, n) && 5 + n < MAX_FILES
    requires Good(k') && Files(k') == Apply(Files(k), NestedChange(k, sel, n))
    ensures |k'.table| <= MAX_FILES
    ensures SelectChild(k'.table, sel, NESTED.fid, true) == Success(Selection(5 + n, INVALID_INDEX))
    ensures AtDepth(k', Selection(5 + n, INVALID_INDEX), n + 1)
  {
    hide Good, Files, SelectionFits, Reaches, Child, Fill;
    var d := Created(k.top, sel, NESTED);
    TableIsMap(k);
    TableIsMap(k');
    TableAfterChange(k, k', NestedChange(k, sel, n));
    ReachesFilled(k.table, 5 + n, Live(d), sel.df, n);
    OneFurther(k'.table, 5 + n, n);
    GoodTree(k');
    ChildIs(k'.table, 5 + n);
    NewDfIsEmpty(k, sel, n);
    NewDfFits(k'.table, 5 + n);
  }

  lemma OneFurther(t: seq<Slot>, i: nat, n: nat)
    requires 0 < i < |t| && t[i].Live? && Reaches(t, t[i].desc.parent, n)
    ensures Reaches(t, i, n + 1)
  {}

  lemma NewDfFits(t: seq<Slot>, i: u16)
    requires i < |t| && t[i].Live? && t[i].desc.IsDf() && t[i].desc.Usable()
    ensures SelectionFits(t, Selection(i, INVALID_INDEX))
  {}

  /** No file was already waiting under the slot that was free. */
  lemma NewDfIsEmpty(k: Disk, sel: Selection, n: nat)
    requires AtDepth(k, sel, n) && 5 + n < MAX_FILES
    ensures !HasNested(Apply(Files(k), NestedChange(k, sel, n)), 5 + n)
  {
    FilesAre(k);
    GoodTree(k);
    hide Good, Files, Reaches, AllRooted, Clash, Fill;
    forall j | j in Files(k)
      ensures Files(k)[j].desc.parent != 5 + n
    {
      assert j > 0 ==> IsFile(k.table, k.table[j]);
    }
    assert sel.df as nat in Files(k);
  }

  ghost predicate CardAtDepth(card: Card, n: nat) {
    GoodCard(card) && AtDepth(View(card.store), card.sel, n)
  }

  lemma CreateKeepsSel(k: Disk, sel: Selection, c: Command, cap: nat)
    requires |k.table| <= MAX_FILES && |k.flash| < 0x1_0000_0000
    requires c.ins == INS_CREATE_FILE && Meaning(k, sel, c) != Keep
    ensures Dispatch(k, sel, c, cap).sel == sel
  {
    hide CmdCreate, F.ParseFcp, CreatePlan, NewFile;
    AcceptedCreate(k, sel, c);
  }

  lemma CreateSent(card: Card, n: nat, cap: nat)
    requires CardAtDepth(card, n) && 5 + n < MAX_FILES
    ensures var card' := Step(card, Send(CreateString(), cap));
            && GoodCard(card') && card'.sel == card.sel
            && FilesOf(card') == Apply(FilesOf(card), NestedChange(View(card.store), card.sel, n))
  {
    hide GoodStore, SelectionFits, Answered, View, Parse, CreateString, Apply, Meaning, Dispatch, AtDepth,
      CheckCla, Sound;
    GoodSize(card);
    CreateParsed();
    OnlyClassZero(0);
    CreateMeans(View(card.store), card.sel, n);
    AnsweredCases(card, CreateString(), cap);
    StepKeeps(card, Send(CreateString(), cap));
    CreateKeepsSel(View(card.store), card.sel, CreateCommand(), cap);
  }

  lemma ViewTable(s: Store)
    requires Sound(s)
    ensures View(s).table == Table(s)
  {}

  lemma DugOnce(card: Card, n: nat, cap: nat)
    requires CardAtDepth(card, n) && 5 + n < MAX_FILES
    ensures var card1 := Step(card, Send(CreateString(), cap));
            && GoodCard(card1)
            && CardAtDepth(Step(card1, Send(SelectString(1, NESTED.fid), cap)), n + 1)
  {
    hide GoodStore, SelectionFits, Answered, View, CreateString, SelectString, Apply, AtDepth, SelectChild,
      Table, Process;
    GoodSize(card);
    CreateSent(card, n, cap);
    var card1 := Step(card, Send(CreateString(), cap));
    GoodSize(card1);
    ViewTable(card1.store);
    CreatedBelow(View(card.store), View(card1.store), card.sel, n);
    SelectSent(card1, 1, NESTED.fid, cap, Selection(5 + n, INVALID_INDEX));
    StepKeeps(card1, Send(SelectString(1, NESTED.fid), cap));
  }

  lemma RunOne(card: Card, e: Event, rest: seq<Event>)
    requires GoodCard(card)
    ensures Sound(card.store) && GoodCard(Step(card, e)) && Run(card, [e] + rest) == Run(Step(card, e), rest)
  {
    hide GoodStore, Step, SelectionFits, FilesOf, Apply, Made;
    GoodSize(card);
    StepKeeps(card, e);
    assert ([e] + rest)[1..] == rest;
  }

  lemma RunTwo(card: Card, v: Event, w: Event, rest: seq<Event>)
    requires GoodCard(card)
    ensures Sound(card.store) && GoodCard(Step(card, v))
    ensures Sound(Step(card, v).store) && GoodCard(Step(Step(card, v), w))
    ensures Run(card, [v, w] + rest) == Run(Step(Step(card, v), w), rest)
  {
    hide GoodCard, Step, Run, Sound;
    RunOne(card, v, [w] + rest);
    RunOne(Step(card, v), w, rest);
    assert [v, w] + rest == [v] + ([w] + rest);
  }

  lemma {:induction false} DugDeep(card: Card, n: nat, k: nat, cap: nat)
    requires CardAtDepth(card, n) && 5 + n + k <= MAX_FILES
    ensures CardAtDepth(Run(card, DeepRun(k, cap)), n + k)
    decreases k
  {
    hide GoodStore, View, CreateString, SelectString, AtDepth, Step, SelectionFits;
    if k > 0 {
      var v, w := Dig(cap)[0], Dig(cap)[1];
      RunTwo(card, v, w, DeepRun(k - 1, cap));
      DugOnce(card, n, cap);
      DugDeep(Step(Step(card, v), w), n + 1, k - 1, cap);
    }
  }

  lemma FactoryAtDepthZero(s: Store)
    requires BlankChip(s)
    ensures CardAtDepth(PowerUp(s), 0)
  {
    hide InitResult, Good, Mirrored, SelectionFits, Files;
    EveryRun(s, []);
    assert PowerUp(s).sel == Reset by {
      BlankChipBecomesFactoryCard(s);
    }
    BlankChipBecomesFactoryCard(s);
  }

  /**
    The bound of eight links is not kept: on every blank chip, nine nested
    CREATE and SELECT commands leave a file nine links below the MF.
   */
  lemma NineLevelsDeep(s: Store, cap: nat)
    requires BlankChip(s)
    ensures var card := PowerUp(s);
            && GoodCard(card)
            && var deep := Run(card, DeepRun(9, cap));
            && Sound(deep.store)
            && Reaches(Table(deep.store), deep.sel.df, 9)
            && !Shallow(Table(deep.store))
  {
    hide PowerUp, GoodCard, AtDepth, Shallow, Reaches, Run, DeepRun, Sound;
    FactoryAtDepthZero(s);
    DugDeep(PowerUp(s), 0, 9, cap);
    NineIsDeep(Run(PowerUp(s), DeepRun(9, cap)));
  }

  lemma NineIsDeep(card: Card)
    requires CardAtDepth(card, 9)
    ensures Sound(card.store) && Reaches(Table(card.store), card.sel.df, 9) && !Shallow(Table(card.store))
  {
    hide GoodStore, Good, Files, Reaches, Shallow, View, HasNested, Table;
    GoodSize(card);
    ViewTable(card.store);
    NotShallow(Table(card.store), card.sel.df, 9);
  }

  lemma NotShallow(t: seq<Slot>, i: nat, n: nat)
    requires i < |t| && t[i].Live? && Reaches(t, i, n) && n > MAX_DEPTH
    ensures !Shallow(t)
  {
    if Within(t, i, MAX_DEPTH) {
      var m: nat :| m <= MAX_DEPTH && Reaches(t, i, m);
      SameLength(t, i, m, n);
    }
  }
}
