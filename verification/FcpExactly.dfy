/**
  What a creation template asks for, told over the list of its data objects:
  which lists are accepted and as what, and with which word every other one is
  refused.
 */
module FcpExactly {
  import opened Bytes
  import opened FsTypes
  import opened Tlv
  import opened Fcp
  import opened FcpRepeats

  // ---------------------------------------------------------- what is wanted

  predicate DfByte(b: byte) {
    b == 0x38 || b == 0x78
  }

  predicate EfByte(b: byte) {
    b == 0x01 || b == 0x41
  }

  /** A reserved bit, or a DF with a structure. */
  predicate BadByte(b: byte) {
    b >= 0x80 || 0x39 <= b <= 0x3F || 0x79 <= b
  }

  ghost predicate Has(os: seq<Object>, n: nat, tag: u16)
    requires n <= |os|
  {
    exists j | 0 <= j < n :: os[j].tag == tag
  }

  /** Object i is the last of the first n with this tag. */
  ghost predicate Last(os: seq<Object>, n: nat, tag: u16, i: nat)
    requires n <= |os|
  {
    i < n && os[i].tag == tag && forall j | i < j < n :: os[j].tag != tag
  }

  /** Object i is the only one with this tag. */
  ghost predicate Once(os: seq<Object>, tag: u16, i: nat) {
    i < |os| && os[i].tag == tag && forall j | 0 <= j < |os| && os[j].tag == tag :: j == i
  }

  predicate GoodType(v: seq<byte>, ftype: byte) {
    |v| == 1 && (if DfByte(v[0]) then ftype == TYPE_DF else EfByte(v[0]) && ftype == TYPE_EF)
  }

  predicate GoodFid(v: seq<byte>, fid: u16) {
    |v| == 2 && fid == U16(v[0], v[1])
  }

  predicate GoodSize(v: seq<byte>, size: u16) {
    1 <= |v| <= 4 && 1 <= size <= 32767 && Number(v) == size
  }

  predicate GoodLife(v: seq<byte>, lc: byte) {
    |v| == 1 && v[0] == lc && (lc == 1 || lc == 3 || lc == 4 || lc == 5)
  }

  predicate GoodShort(v: seq<byte>, sfi: byte) {
    |v| == 1 && v[0] == 8 * sfi && sfi <= 30
  }

  ghost predicate HasType(os: seq<Object>, ftype: byte) {
    exists i: nat :: Once(os, 0x82, i) && GoodType(os[i].value, ftype)
  }

  ghost predicate HasId(os: seq<Object>, fid: u16) {
    exists i: nat :: Once(os, 0x83, i) && GoodFid(os[i].value, fid)
  }

  ghost predicate HasSize(os: seq<Object>, size: u16) {
    exists i: nat :: Once(os, 0x80, i) && GoodSize(os[i].value, size)
  }

  /** All life cycles are good ones, and lc is the last; 5 when there is none. */
  ghost predicate HasLife(os: seq<Object>, lc: byte) {
    && (forall i | 0 <= i < |os| && os[i].tag == 0x8A :: exists lc: byte :: GoodLife(os[i].value, lc))
    && LifeSoFar(os, |os|, lc)
  }

  ghost predicate LifeSoFar(os: seq<Object>, n: nat, lc: byte)
    requires n <= |os|
  {
    if Has(os, n, 0x8A) then exists i: nat :: Last(os, n, 0x8A, i) && GoodLife(os[i].value, lc) else lc == 5
  }

  /** All short identifiers are good ones, and sfi is the last; 0 when there is none. */
  ghost predicate HasShort(os: seq<Object>, sfi: byte) {
    && (forall i | 0 <= i < |os| && os[i].tag == 0x88 :: exists sfi: byte :: GoodShort(os[i].value, sfi))
    && ShortSoFar(os, |os|, sfi)
  }

  ghost predicate ShortSoFar(os: seq<Object>, n: nat, sfi: byte)
    requires n <= |os|
  {
    if Has(os, n, 0x88) then exists i: nat :: Last(os, n, 0x88, i) && GoodShort(os[i].value, sfi) else sfi == 0
  }

  ghost predicate KnownTags(os: seq<Object>) {
    forall i | 0 <= i < |os| :: os[i].tag in {0x80, 0x82, 0x83, 0x88, 0x8A}
  }

  /**
    One 82 and one 83; one 80 for an EF and none for a DF; of several 8A or 88
    the last counts; a DF has no short identifier; no other tags.
   */
  ghost predicate AsksFor(os: seq<Object>, req: Desc) {
    && KnownTags(os) && HasType(os, req.ftype) && HasId(os, req.fid)
    && (if req.ftype == TYPE_EF then HasSize(os, req.size) else !Has(os, |os|, 0x80) && req.size == 0)
    && HasLife(os, req.lc) && HasShort(os, req.sfi)
    && (req.ftype == TYPE_DF ==> req.sfi == 0)
    && req == Desc(req.fid, req.ftype, req.lc, NO_PARENT, req.size, 0, 0, 0, req.sfi, 0)
  }

  /** The word object i is refused with, given those before it; 9000 if it is not. */
  ghost function WordAt(os: seq<Object>, i: nat): u16
    requires i < |os|
  {
    var tag, v := os[i].tag, os[i].value;
    if tag == 0x82 then
      if Has(os, i, 0x82) || |v| != 1 || BadByte(v[0]) then 0x6A80
      else if DfByte(v[0]) || EfByte(v[0]) then 0x9000 else 0x6A81
    else if tag == 0x83 then if Has(os, i, 0x83) || |v| != 2 then 0x6A80 else 0x9000
    else if tag == 0x80 then
      if Has(os, i, 0x80) || |v| == 0 || |v| > 4 || Number(v) == 0 then 0x6A80
      else if Number(v) > 32767 then 0x6A84 else 0x9000
    else if tag == 0x8A then if exists lc: byte :: GoodLife(v, lc) then 0x9000 else 0x6A80
    else if tag == 0x88 then if exists sfi: byte :: GoodShort(v, sfi) then 0x9000 else 0x6A80
    else 0x6A80
  }

  ghost predicate FirstBad(os: seq<Object>, i: nat) {
    i < |os| && WordAt(os, i) != 0x9000 && forall j | 0 <= j < i :: WordAt(os, j) == 0x9000
  }

  /** The first bad object decides; without one, the list asks for a file or is refused as a whole. */
  ghost function Verdict(os: seq<Object>, end: Outcome): Parsed {
    if exists i: nat :: FirstBad(os, i) then
      var i: nat :| FirstBad(os, i);
      Rejected(WordAt(os, i))
    else if end == End && exists req :: AsksFor(os, req) then
      var req :| AsksFor(os, req);
      Request(req)
    else Rejected(0x6A80)
  }

  /** Only filler follows the template, or there is none around it. */
  ghost predicate StandsAlone(body: seq<byte>) {
    var (o, q) := Next(body, 0);
    o.Ok? && o.obj.tag == 0x62 ==> AllFiller(body[q..])
  }

  ghost function Wish(body: seq<byte>): Parsed {
    if !StandsAlone(body) then Rejected(0x6A80)
    else Verdict(ObjectsOf(body), ReadAll(InnerOf(body), 0).1)
  }

  // ------------------------------------------------- what has been said so far

  ghost predicate SaidType(os: seq<Object>, n: nat, a: Acc)
    requires n <= |os|
  {
    && (a.haveFdb <==> Has(os, n, 0x82))
    && forall j | 0 <= j < n && os[j].tag == 0x82 :: GoodType(os[j].value, a.ftype)
  }

  ghost predicate SaidFid(os: seq<Object>, n: nat, a: Acc)
    requires n <= |os|
  {
    && (a.haveFid <==> Has(os, n, 0x83))
    && forall j | 0 <= j < n && os[j].tag == 0x83 :: GoodFid(os[j].value, a.fid)
  }

  ghost predicate SaidSize(os: seq<Object>, n: nat, a: Acc)
    requires n <= |os|
  {
    && (a.haveSize <==> Has(os, n, 0x80)) && (!a.haveSize ==> a.size == 0)
    && forall j | 0 <= j < n && os[j].tag == 0x80 :: GoodSize(os[j].value, a.size)
  }

  ghost predicate Said(os: seq<Object>, n: nat, a: Acc)
    requires n <= |os|
  {
    && SaidType(os, n, a) && SaidFid(os, n, a) && SaidSize(os, n, a)
    && LifeSoFar(os, n, a.lc) && ShortSoFar(os, n, a.sfi)
    && forall j | 0 <= j < n :: WordAt(os, j) == 0x9000
  }

  lemma HasNext(os: seq<Object>, n: nat, tag: u16)
    requires n < |os|
    ensures Has(os, n + 1, tag) <==> Has(os, n, tag) || os[n].tag == tag
  {}

  /** An object of another tag leaves what was said. */
  lemma OtherTag(os: seq<Object>, n: nat, a: Acc, b: Acc)
    requires n < |os|
    ensures os[n].tag != 0x82 && a.haveFdb == b.haveFdb && a.ftype == b.ftype && SaidType(os, n, a) ==>
              SaidType(os, n + 1, b)
    ensures os[n].tag != 0x83 && a.haveFid == b.haveFid && a.fid == b.fid && SaidFid(os, n, a) ==>
              SaidFid(os, n + 1, b)
    ensures os[n].tag != 0x80 && a.haveSize == b.haveSize && a.size == b.size && SaidSize(os, n, a) ==>
              SaidSize(os, n + 1, b)
    ensures os[n].tag != 0x8A && a.lc == b.lc && LifeSoFar(os, n, a.lc) ==> LifeSoFar(os, n + 1, b.lc)
    ensures os[n].tag != 0x88 && a.sfi == b.sfi && ShortSoFar(os, n, a.sfi) ==> ShortSoFar(os, n + 1, b.sfi)
  {
    hide GoodType, GoodFid, GoodSize, GoodLife, GoodShort;
    HasNext(os, n, 0x82);
    HasNext(os, n, 0x83);
    HasNext(os, n, 0x80);
    OtherLast(os, n, 0x8A);
    OtherLast(os, n, 0x88);
  }

  lemma OtherLast(os: seq<Object>, n: nat, tag: u16)
    requires n < |os|
    ensures os[n].tag != tag ==> (Has(os, n + 1, tag) <==> Has(os, n, tag))
    ensures os[n].tag != tag ==> forall i: nat :: Last(os, n, tag, i) ==> Last(os, n + 1, tag, i)
    ensures os[n].tag == tag ==> Has(os, n + 1, tag) && Last(os, n + 1, tag, n)
  {}

  lemma TypeTaken(os: seq<Object>, n: nat, a: Acc)
    requires n < |os| && SaidType(os, n, a) && os[n].tag == 0x82
    ensures match Absorb(a, os[n])
            case Stop(sw) => sw == WordAt(os, n) != 0x9000
            case More(b) =>
              WordAt(os, n) == 0x9000 && SaidType(os, n + 1, b) && b == a.(haveFdb := true, ftype := b.ftype)
  {
    HasNext(os, n, 0x82);
    if |os[n].value| == 1 {
      ByteKinds(os[n].value[0]);
    }
  }

  lemma ByteKinds(b: byte)
    ensures DecodeFdb(b) == if BadByte(b) && !DfByte(b) then FdbMalformed
                            else if DfByte(b) then FdbAccepted(TYPE_DF)
                            else if EfByte(b) then FdbAccepted(TYPE_EF) else FdbUnsupported
    ensures BadByte(b) ==> !DfByte(b)
  {}

  lemma FidTaken(os: seq<Object>, n: nat, a: Acc)
    requires n < |os| && SaidFid(os, n, a) && os[n].tag == 0x83
    ensures match Absorb(a, os[n])
            case Stop(sw) => sw == WordAt(os, n) != 0x9000
            case More(b) => WordAt(os, n) == 0x9000 && SaidFid(os, n + 1, b) && b == a.(haveFid := true, fid := b.fid)
  {
    HasNext(os, n, 0x83);
  }

  lemma SizeTaken(os: seq<Object>, n: nat, a: Acc)
    requires n < |os| && SaidSize(os, n, a) && os[n].tag == 0x80
    ensures match Absorb(a, os[n])
            case Stop(sw) => sw == WordAt(os, n) != 0x9000
            case More(b) =>
              WordAt(os, n) == 0x9000 && SaidSize(os, n + 1, b) && b == a.(haveSize := true, size := b.size)
  {
    hide Number;
    HasNext(os, n, 0x80);
  }

  lemma LifeTaken(os: seq<Object>, n: nat, a: Acc)
    requires n < |os| && os[n].tag == 0x8A
    ensures match Absorb(a, os[n])
            case Stop(sw) => sw == WordAt(os, n) != 0x9000
            case More(b) => WordAt(os, n) == 0x9000 && LifeSoFar(os, n + 1, b.lc) && b == a.(lc := b.lc)
  {
    OtherLast(os, n, 0x8A);
    if Absorb(a, os[n]).More? {
      assert GoodLife(os[n].value, os[n].value[0]);
    }
  }

  lemma ShortTaken(os: seq<Object>, n: nat, a: Acc)
    requires n < |os| && os[n].tag == 0x88
    ensures match Absorb(a, os[n])
            case Stop(sw) => sw == WordAt(os, n) != 0x9000
            case More(b) => WordAt(os, n) == 0x9000 && ShortSoFar(os, n + 1, b.sfi) && b == a.(sfi := b.sfi)
  {
    OtherLast(os, n, 0x88);
    if Absorb(a, os[n]).More? {
      assert GoodShort(os[n].value, os[n].value[0] / 8);
    }
  }

  /** One object: it is refused with its word, or what is said grows by it. */
  lemma OneTaken(os: seq<Object>, n: nat, a: Acc)
    requires n < |os| && Said(os, n, a)
    ensures match Absorb(a, os[n])
            case Stop(sw) => sw == WordAt(os, n) != 0x9000
            case More(b) => Said(os, n + 1, b)
  {
    hide Absorb, WordAt, SaidType, SaidFid, SaidSize, LifeSoFar, ShortSoFar;
    var tag := os[n].tag;
    if tag == 0x82 {
      TypeTaken(os, n, a);
    } else if tag == 0x83 {
      FidTaken(os, n, a);
    } else if tag == 0x80 {
      SizeTaken(os, n, a);
    } else if tag == 0x8A {
      LifeTaken(os, n, a);
    } else if tag == 0x88 {
      ShortTaken(os, n, a);
    } else {
      StrangeTag(os, n, a);
    }
    if Absorb(a, os[n]).More? {
      OtherTag(os, n, a, Absorb(a, os[n]).acc);
    }
  }

  lemma StrangeTag(os: seq<Object>, n: nat, a: Acc)
    requires n < |os| && os[n].tag !in {0x80, 0x82, 0x83, 0x88, 0x8A}
    ensures Absorb(a, os[n]) == Stop(0x6A80) && WordAt(os, n) == 0x6A80
  {}

  // -------------------------------------------------------------- the verdict

  lemma NothingSaid(os: seq<Object>)
    ensures Said(os, 0, Start)
  {}

  /** The loop stops at the first bad object, or has heard all of them. */
  lemma {:induction false} FoldFrom(os: seq<Object>, end: Outcome, n: nat, a: Acc) returns (last: Acc)
    requires n <= |os| && Said(os, n, a)
    ensures if exists i: nat :: FirstBad(os, i)
            then exists i: nat :: FirstBad(os, i) && Fold(a, os[n..], end) == Rejected(WordAt(os, i))
            else Said(os, |os|, last)
                 && Fold(a, os[n..], end) == if end == End then Conclude(last) else Rejected(0x6A80)
    decreases |os| - n
  {
    hide Absorb, Conclude, WordAt, SaidType, SaidFid, SaidSize, LifeSoFar, ShortSoFar;
    last := a;
    if n < |os| {
      OneTaken(os, n, a);
      assert os[n..][0] == os[n] && os[n..][1..] == os[n + 1..];
      match Absorb(a, os[n])
      case Stop(sw) => assert FirstBad(os, n);
      case More(b) => last := FoldFrom(os, end, n + 1, b);
    }
  }

  lemma OnlyOneBad(os: seq<Object>, i: nat, j: nat)
    requires FirstBad(os, i) && FirstBad(os, j)
    ensures i == j
  {
    hide WordAt;
  }

  /** An object that may come once came once. */
  lemma {:induction false} CameOnce(os: seq<Object>, tag: u16) returns (i: nat)
    requires Has(os, |os|, tag) && (tag == 0x80 || tag == 0x82 || tag == 0x83)
    requires forall j | 0 <= j < |os| :: WordAt(os, j) == 0x9000
    ensures Once(os, tag, i)
  {
    i :| 0 <= i < |os| && os[i].tag == tag;
    forall j | 0 <= j < |os| && os[j].tag == tag
      ensures j == i
    {
      var hi := if i < j then j else i;
      assert i != j ==> Has(os, hi, tag);
      assert WordAt(os, hi) == 0x9000;
    }
  }

  lemma OneLast(os: seq<Object>, tag: u16, i: nat, j: nat)
    requires Last(os, |os|, tag, i) && Last(os, |os|, tag, j)
    ensures i == j
  {}

  lemma OnlyKnownTags(os: seq<Object>)
    requires forall j | 0 <= j < |os| :: WordAt(os, j) == 0x9000
    ensures KnownTags(os)
    ensures forall i | 0 <= i < |os| && os[i].tag == 0x8A :: exists lc: byte :: GoodLife(os[i].value, lc)
    ensures forall i | 0 <= i < |os| && os[i].tag == 0x88 :: exists sfi: byte :: GoodShort(os[i].value, sfi)
  {
    forall i | 0 <= i < |os|
      ensures os[i].tag in {0x80, 0x82, 0x83, 0x88, 0x8A}
      ensures os[i].tag == 0x8A ==> exists lc: byte :: GoodLife(os[i].value, lc)
      ensures os[i].tag == 0x88 ==> exists sfi: byte :: GoodShort(os[i].value, sfi)
    {
      assert WordAt(os, i) == 0x9000;
    }
  }

  /** What is concluded from all of it is what the list asks for. */
  lemma ConcludedIsAsked(os: seq<Object>, a: Acc)
    requires Said(os, |os|, a) && Conclude(a).Request?
    ensures AsksFor(os, Conclude(a).req)
  {
    hide WordAt, GoodType, GoodFid, GoodSize, GoodLife, GoodShort, Has;
    OnlyKnownTags(os);
    var i := CameOnce(os, 0x82);
    var j := CameOnce(os, 0x83);
    TypeIsOneOfTwo(os[i].value, a.ftype);
    if a.ftype == TYPE_EF {
      var s := CameOnce(os, 0x80);
    }
  }

  lemma TypeIsOneOfTwo(v: seq<byte>, ftype: byte)
    requires GoodType(v, ftype)
    ensures ftype == TYPE_DF || ftype == TYPE_EF
  {}

  lemma SaidTypeIs(os: seq<Object>, a: Acc, ftype: byte)
    requires SaidType(os, |os|, a) && HasType(os, ftype)
    ensures a.haveFdb && a.ftype == ftype
  {}

  lemma SaidFidIs(os: seq<Object>, a: Acc, fid: u16)
    requires SaidFid(os, |os|, a) && HasId(os, fid)
    ensures a.haveFid && a.fid == fid
  {}

  lemma SaidSizeIs(os: seq<Object>, a: Acc, size: u16)
    requires SaidSize(os, |os|, a)
    ensures HasSize(os, size) ==> a.haveSize && a.size == size
    ensures !Has(os, |os|, 0x80) ==> !a.haveSize && a.size == 0
  {
    hide Number;
  }

  lemma AskedIsConcluded(os: seq<Object>, a: Acc, req: Desc)
    requires Said(os, |os|, a) && AsksFor(os, req)
    ensures Conclude(a) == Request(req)
  {
    hide WordAt, SaidType, SaidFid, SaidSize, LifeSoFar, ShortSoFar, HasType, HasId, HasSize, KnownTags, Has;
    SaidTypeIs(os, a, req.ftype);
    SaidFidIs(os, a, req.fid);
    SaidSizeIs(os, a, req.size);
    SameLife(os, a.lc, req.lc);
    SameShort(os, a.sfi, req.sfi);
    TypeAsked(os, req.ftype);
  }

  lemma TypeAsked(os: seq<Object>, ftype: byte)
    requires HasType(os, ftype)
    ensures ftype == TYPE_DF || ftype == TYPE_EF
  {}

  lemma SameLife(os: seq<Object>, a: byte, b: byte)
    requires LifeSoFar(os, |os|, a) && LifeSoFar(os, |os|, b)
    ensures a == b
  {
    hide Has;
    if Has(os, |os|, 0x8A) {
      var i: nat :| Last(os, |os|, 0x8A, i) && GoodLife(os[i].value, a);
      var j: nat :| Last(os, |os|, 0x8A, j) && GoodLife(os[j].value, b);
      OneLast(os, 0x8A, i, j);
    }
  }

  lemma SameShort(os: seq<Object>, a: byte, b: byte)
    requires ShortSoFar(os, |os|, a) && ShortSoFar(os, |os|, b)
    ensures a == b
  {
    hide Has;
    if Has(os, |os|, 0x88) {
      var i: nat :| Last(os, |os|, 0x88, i) && GoodShort(os[i].value, a);
      var j: nat :| Last(os, |os|, 0x88, j) && GoodShort(os[j].value, b);
      OneLast(os, 0x88, i, j);
    }
  }

  lemma RefusedIsWrongData(a: Acc)
    ensures Conclude(a).Rejected? ==> Conclude(a) == Rejected(0x6A80)
  {}

  lemma FoldIsVerdict(os: seq<Object>, end: Outcome)
    ensures Fold(Start, os, end) == Verdict(os, end)
  {
    hide Fold, Conclude, WordAt, AsksFor, SaidType, SaidFid, SaidSize, LifeSoFar, ShortSoFar;
    NothingSaid(os);
    var last := FoldFrom(os, end, 0, Start);
    assert os[0..] == os;
    if i: nat :| FirstBad(os, i) {
      forall j: nat | FirstBad(os, j)
        ensures j == i
      {
        OnlyOneBad(os, i, j);
      }
    } else if end == End {
      RefusedIsWrongData(last);
      if Conclude(last).Request? {
        ConcludedIsAsked(os, last);
      }
      forall req | AsksFor(os, req)
        ensures Conclude(last) == Request(req)
      {
        AskedIsConcluded(os, last, req);
      }
    }
  }

  lemma FillerIsSkipped(body: seq<byte>, q: nat)
    requires q <= |body|
    ensures SkipPadding(body, q) == |body| <==> AllFiller(body[q..])
  {
    hide SkipPadding, Filler;
    var r := SkipPadding(body, q);
    assert forall i | q <= i < |body| :: body[q..][i - q] == body[i];
    assert forall i | 0 <= i < |body| - q :: body[q..][i] == body[q + i];
  }

  lemma NothingAsked()
    ensures Verdict([], End) == Rejected(0x6A80)
  {}

  lemma EmptyReads()
    ensures ReadAll([], 0) == ([], End)
  {}

  /** The parser is the verdict over the objects, for every data field. */
  lemma ParseIsWish(body: seq<byte>)
    ensures ParseFcp(body) == Wish(body)
  {
    hide Fold, Next, ReadAll, SkipPadding, Verdict, AllFiller;
    var (o, q) := Next(body, 0);
    FillerIsSkipped(body, q);
    var inner := InnerOf(body);
    FoldIsVerdict(ReadAll(inner, 0).0, ReadAll(inner, 0).1);
    NothingAsked();
    EmptyReads();
  }

  lemma AskedIsGood(os: seq<Object>, req: Desc)
    requires AsksFor(os, req)
    ensures !exists i: nat :: FirstBad(os, i)
  {
    hide AsksFor, WordAt;
    forall i: nat | i < |os|
      ensures WordAt(os, i) == 0x9000
    {
      AskedAt(os, req, i);
    }
  }

  lemma AskedAt(os: seq<Object>, req: Desc, i: nat)
    requires AsksFor(os, req) && i < |os|
    ensures WordAt(os, i) == 0x9000
  {
    hide Number, LifeSoFar, ShortSoFar;
    var tag := os[i].tag;
    if tag == 0x82 {
      OnlyObject(os, i);
    } else if tag == 0x83 {
      OnlyObject(os, i);
    } else if tag == 0x80 {
      assert Has(os, |os|, 0x80);
      OnlyObject(os, i);
    }
  }

  lemma OnlyObject(os: seq<Object>, i: nat)
    requires i < |os|
    ensures forall j: nat | Once(os, os[i].tag, j) :: i == j && !Has(os, i, os[i].tag)
  {}

  /**
    A data field is accepted as req exactly when it is one template, read to its
    end, whose objects ask for req.
   */
  lemma AcceptedExactly(body: seq<byte>, req: Desc)
    ensures ParseFcp(body) == Request(req) <==>
              StandsAlone(body) && ReadAll(InnerOf(body), 0).1 == End && AsksFor(ObjectsOf(body), req)
  {
    hide ParseFcp, StandsAlone, ReadAll, InnerOf, AsksFor, FirstBad;
    ParseIsWish(body);
    var os := ObjectsOf(body);
    if AsksFor(os, req) {
      AskedIsGood(os, req);
    }
    forall other | AsksFor(os, req) && AsksFor(os, other)
      ensures other == req
    {
      AskedOnce(os, req, other);
    }
  }

  lemma AskedOnce(os: seq<Object>, req: Desc, other: Desc)
    requires AsksFor(os, req) && AsksFor(os, other)
    ensures other == req
  {
    hide AsksFor, FirstBad, Said, Conclude, Fold;
    AskedIsGood(os, req);
    NothingSaid(os);
    var last := FoldFrom(os, End, 0, Start);
    AskedIsConcluded(os, last, req);
    AskedIsConcluded(os, last, other);
  }

  /** And it is refused with the word of its first bad object, or 6A80. */
  lemma RefusedExactly(body: seq<byte>, sw: u16)
    ensures ParseFcp(body) == Rejected(sw) <==>
              if StandsAlone(body) && exists i: nat :: FirstBad(ObjectsOf(body), i)
              then exists i: nat :: FirstBad(ObjectsOf(body), i) && sw == WordAt(ObjectsOf(body), i)
              else sw == 0x6A80 && ParseFcp(body).Rejected?
  {
    hide ParseFcp, StandsAlone, ReadAll, InnerOf, AsksFor, WordAt;
    ParseIsWish(body);
    forall i: nat, j: nat | FirstBad(ObjectsOf(body), i) && FirstBad(ObjectsOf(body), j)
      ensures i == j
    {
      OnlyOneBad(ObjectsOf(body), i, j);
    }
  }
}
