/**
  Repeated tags in a creation template. The parser is meant to refuse every
  repetition; it does so exactly for the tags it keeps a flag for, and lets a
  second life cycle or short identifier override the first.
 */
module FcpRepeats {
  import opened Bytes
  import opened FsTypes
  import opened Tlv
  import opened Fcp

  ghost predicate Repeats(os: seq<Object>, tag: u16) {
    exists i, j | 0 <= i < j < |os| :: os[i].tag == tag && os[j].tag == tag
  }

  /** The template inside a command's data field: the value of tag 62, or all of it. */
  function InnerOf(body: seq<byte>): seq<byte> {
    var (o, _) := Next(body, 0);
    if o.Ok? && o.obj.tag == TAG_TEMPLATE then o.obj.value else body
  }

  /** The objects read from a data field. */
  function ObjectsOf(body: seq<byte>): seq<Object> {
    ReadAll(InnerOf(body), 0).0
  }

  /** No data field that repeats this tag is accepted. */
  ghost predicate RefusesRepeats(tag: u16) {
    forall body | Repeats(ObjectsOf(body), tag) :: ParseFcp(body).Rejected?
  }

  predicate Overridable(tag: u16) {
    tag == TAG_LIFE_CYCLE || tag == TAG_SFI
  }

  /** The flag for this tag is up, or the tag is none of the five. */
  predicate Barred(a: Acc, tag: u16) {
    if tag == TAG_FILE_DESC then a.haveFdb
    else if tag == TAG_FILE_ID then a.haveFid
    else if tag == TAG_DATA_BYTES then a.haveSize
    else !Overridable(tag)
  }

  lemma AbsorbBars(a: Acc, o: Object, tag: u16)
    requires Absorb(a, o).More? && !Overridable(tag)
    ensures Barred(a, tag) || o.tag == tag ==> Barred(Absorb(a, o).acc, tag)
    ensures o.tag == tag ==> !Barred(a, tag)
  {
    hide DecodeFdb, GetUint;
  }

  /** Once barred, a tag ends the parse wherever it comes. */
  lemma {:induction false} BarredRejects(a: Acc, os: seq<Object>, end: Outcome, j: nat)
    requires j < |os| && !Overridable(os[j].tag) && Barred(a, os[j].tag)
    ensures Fold(a, os, end).Rejected?
    decreases |os|
  {
    hide Absorb, Barred;
    if Absorb(a, os[0]).More? {
      AbsorbBars(a, os[0], os[j].tag);
      BarredRejects(Absorb(a, os[0]).acc, os[1..], end, j - 1);
    }
  }

  lemma {:induction false} RepeatRejects(a: Acc, os: seq<Object>, end: Outcome, i: nat, j: nat)
    requires i < j < |os| && os[i].tag == os[j].tag && !Overridable(os[i].tag)
    ensures Fold(a, os, end).Rejected?
    decreases |os|
  {
    hide Absorb, Barred;
    if Absorb(a, os[0]).More? {
      AbsorbBars(a, os[0], os[i].tag);
      if i == 0 {
        BarredRejects(Absorb(a, os[0]).acc, os[1..], end, j - 1);
      } else {
        RepeatRejects(Absorb(a, os[0]).acc, os[1..], end, i - 1, j - 1);
      }
    }
  }

  lemma FoldOne(a: Acc, os: seq<Object>, i: nat, next: Acc)
    requires i < |os| && Absorb(a, os[i]) == More(next)
    ensures Fold(a, os[i..], End) == Fold(next, os[i + 1..], End)
  {
    hide Absorb, Conclude;
    assert os[i..][1..] == os[i + 1..];
  }

  // ------------------------------------------------------ two that pass

  /** A DF 0101 said to be deactivated and then activated. */
  const TwoLifeCycles: seq<byte> := [0x82, 0x01, 0x38, 0x83, 0x02, 0x01, 0x01, 0x8A, 0x01, 0x04, 0x8A, 0x01, 0x05]

  /** An EF 0101 of one byte with short identifier 1 and then 2. */
  const TwoShortIds: seq<byte> := [0x82, 0x01, 0x01, 0x83, 0x02, 0x01, 0x01, 0x80, 0x02, 0x00, 0x01,
                                   0x88, 0x01, 0x08, 0x88, 0x01, 0x10]

  const LifeCycleItems: seq<Item> := [
    Item([], TAG_FILE_DESC, [0x38]), Item([], TAG_FILE_ID, [0x01, 0x01]),
    Item([], TAG_LIFE_CYCLE, [LC_DEACTIVATED]), Item([], TAG_LIFE_CYCLE, [LC_ACTIVATED])
  ]

  const ShortIdItems: seq<Item> := [
    Item([], TAG_FILE_DESC, [0x01]), Item([], TAG_FILE_ID, [0x01, 0x01]), Item([], TAG_DATA_BYTES, [0x00, 0x01]),
    Item([], TAG_SFI, [0x08]), Item([], TAG_SFI, [0x10])
  ]

  /** The last item of a list, printed after the others. */
  lemma Printed(items: seq<Item>, k: nat)
    requires k < |items| && Printable(items[k + 1..])
    requires items[k].pad == [] && 0x80 <= items[k].tag <= 0x8A && |items[k].value| <= 127
    ensures Printable(items[k..])
    ensures Print(items[k..], []) == [items[k].tag, |items[k].value|] + items[k].value + Print(items[k + 1..], [])
  {
    hide Print, Printable;
    PrintCons(items[k], items[k + 1..]);
    assert [items[k]] + items[k + 1..] == items[k..];
  }

  lemma LifeCyclesPrinted()
    ensures Printable(LifeCycleItems) && Print(LifeCycleItems, []) == TwoLifeCycles
  {
    hide Print, Printable;
    var items := LifeCycleItems;
    EmptyPrint();
    assert items[4..] == [];
    Printed(items, 3);
    Printed(items, 2);
    Printed(items, 1);
    Printed(items, 0);
    assert items[0..] == items;
  }

  lemma ShortIdsPrinted()
    ensures Printable(ShortIdItems) && Print(ShortIdItems, []) == TwoShortIds
  {
    hide Print, Printable;
    var items := ShortIdItems;
    EmptyPrint();
    assert items[5..] == [];
    Printed(items, 4);
    Printed(items, 3);
    Printed(items, 2);
    Printed(items, 1);
    Printed(items, 0);
    assert items[0..] == items;
  }

  /** A bare template of printed items, the first of them a file descriptor byte. */
  lemma BareTemplate(body: seq<byte>, items: seq<Item>, fdb: byte)
    requires Printable(items) && body == Print(items, []) && |body| >= 3 && body[..3] == [0x82, 0x01, fdb]
    ensures ObjectsOf(body) == Objects(items)
    ensures ParseFcp(body) == Fold(Start, Objects(items), End)
  {
    hide Print, Printable, Next, ReadAll, Fold, Objects, SkipPadding;
    assert body[..3] == Encoded(TAG_FILE_DESC, [fdb]);
    assert body[0..3] == body[..3];
    NextOfEncoded(body, 0, 0, TAG_FILE_DESC, [fdb]);
    ReadOfPrint([], items, []);
    assert [] + Print(items, []) == body;
  }

  /** Two life cycles are accepted, and the second one is taken. */
  lemma LastLifeCycleWins()
    ensures Repeats(ObjectsOf(TwoLifeCycles), TAG_LIFE_CYCLE)
    ensures ParseFcp(TwoLifeCycles)
         == Request(Desc(0x0101, TYPE_DF, LC_ACTIVATED, NO_PARENT, 0, 0, 0, 0, NO_SFI, 0))
  {
    hide Print, ParseFcp, ObjectsOf, Fold, Constructed;
    LifeCyclesPrinted();
    BareTemplate(TwoLifeCycles, LifeCycleItems, 0x38);
    var os := Objects(LifeCycleItems);
    assert os[2].tag == os[3].tag == TAG_LIFE_CYCLE;
    var a1 := Start.(haveFdb := true, ftype := TYPE_DF);
    var a2 := a1.(haveFid := true, fid := 0x0101);
    var a3 := a2.(lc := LC_DEACTIVATED);
    FoldOne(Start, os, 0, a1);
    FoldOne(a1, os, 1, a2);
    FoldOne(a2, os, 2, a3);
    FoldOne(a3, os, 3, a2);
    assert os[0..] == os && os[4..] == [];
    FoldNone(a2);
  }

  lemma FoldNone(a: Acc)
    ensures Fold(a, [], End) == Conclude(a)
  {}

  /** Two short identifiers are accepted, and the second one is taken. */
  lemma LastShortIdWins()
    ensures Repeats(ObjectsOf(TwoShortIds), TAG_SFI)
    ensures ParseFcp(TwoShortIds) == Request(Desc(0x0101, TYPE_EF, LC_ACTIVATED, NO_PARENT, 1, 0, 0, 0, 2, 0))
  {
    hide Print, ParseFcp, ObjectsOf, Fold, Constructed, GetUint;
    ShortIdsPrinted();
    BareTemplate(TwoShortIds, ShortIdItems, 0x01);
    var os := Objects(ShortIdItems);
    assert os[3].tag == os[4].tag == TAG_SFI;
    var a1 := Start.(haveFdb := true, ftype := TYPE_EF);
    var a2 := a1.(haveFid := true, fid := 0x0101);
    var a3 := a2.(haveSize := true, size := 1);
    var a4 := a3.(sfi := 1);
    var a5 := a3.(sfi := 2);
    NumberOfTwo(0, 1);
    FoldOne(Start, os, 0, a1);
    FoldOne(a1, os, 1, a2);
    FoldOne(a2, os, 2, a3);
    FoldOne(a3, os, 3, a4);
    FoldOne(a4, os, 4, a5);
    assert os[0..] == os && os[5..] == [];
    FoldNone(a5);
  }

  /** A repeated tag is refused, whatever the data field, exactly for tags other than 8A and 88. */
  lemma RepeatsExactly(tag: u16)
    ensures RefusesRepeats(tag) <==> !Overridable(tag)
  {
    hide ParseFcp, Repeats, ObjectsOf;
    LastLifeCycleWins();
    LastShortIdWins();
    if !Overridable(tag) {
      forall body | Repeats(ObjectsOf(body), tag)
        ensures ParseFcp(body).Rejected?
      {
        RepeatIsRejected(body, tag);
      }
    }
  }

  lemma RepeatIsRejected(body: seq<byte>, tag: u16)
    requires Repeats(ObjectsOf(body), tag) && !Overridable(tag)
    ensures ParseFcp(body).Rejected?
  {
    hide Fold, Next, ReadAll, SkipPadding;
    var (os, end) := ReadAll(InnerOf(body), 0);
    var i, j :| 0 <= i < j < |os| && os[i].tag == tag && os[j].tag == tag;
    RepeatRejects(Start, os, end, i, j);
  }
}
