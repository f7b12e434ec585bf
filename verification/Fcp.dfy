/** File control parameters: the template SELECT reports and CREATE FILE is given. */
module Fcp {
  import opened Bytes
  import opened StatusWords
  import opened FsTypes
  import opened FileTree
  import opened Tlv

  const TAG_TEMPLATE: u16 := 0x62
  const TAG_FILE_DESC: u16 := 0x82
  const TAG_FILE_ID: u16 := 0x83
  const TAG_DATA_BYTES: u16 := 0x80
  const TAG_LIFE_CYCLE: u16 := 0x8A
  const TAG_SFI: u16 := 0x88

  // ----------------------------------------------------------------- writing

  /** The file descriptor byte: 0x38 for a DF, 0x01 for a transparent EF. */
  function IsoByte(d: Desc): byte {
    if d.ftype == TYPE_MF || d.ftype == TYPE_DF then 0x38
    else if d.ftype == TYPE_EF then 0x01
    else 0x00
  }

  /** Tags 82, 83, for an EF 80, then 8A, and 88 for an EF that has a short identifier. */
  function FcpBytes(d: Desc): (s: seq<byte>)
    ensures 10 <= |s| <= 17
  {
    [0x82, 0x01, IsoByte(d), 0x83, 0x02, d.fid / 0x100, d.fid % 0x100]
    + (if d.IsEf() then [0x80, 0x02, d.size / 0x100, d.size % 0x100] else [])
    + [0x8A, 0x01, d.lc]
    + (if d.IsEf() && d.sfi != NO_SFI then [0x88, 0x01, 8 * d.sfi % 0x100] else [])
  }

  /** Appends one object's bytes to the first n bytes of the buffer. */
  method Emit(buf: array<byte>, n: nat, src: seq<byte>) returns (m: nat)
    requires n + |src| <= buf.Length
    modifies buf
    ensures m == n + |src| && buf[..m] == old(buf[..n]) + src
  {
    CopyInto(buf, n, src);
    m := n + |src|;
  }

  /** Fills a local buffer tag by tag; nothing is returned when it would not fit the caller's. */
  method BuildFcp(d: Desc, cap: nat) returns (out: seq<byte>)
    ensures out == if |FcpBytes(d)| > cap then [] else FcpBytes(d)
  {
    hide IsoByte;
    var buf := new byte[24];
    var n := Emit(buf, 0, [0x82, 0x01, IsoByte(d)]);
    n := Emit(buf, n, [0x83, 0x02, d.fid / 0x100, d.fid % 0x100]);
    if d.IsEf() {
      n := Emit(buf, n, [0x80, 0x02, d.size / 0x100, d.size % 0x100]);
    }
    n := Emit(buf, n, [0x8A, 0x01, d.lc]);
    if d.IsEf() && d.sfi != NO_SFI {
      n := Emit(buf, n, [0x88, 0x01, 8 * d.sfi % 0x100]);
    }
    assert buf[..n] == FcpBytes(d);
    if n > cap {
      return [];
    }
    return buf[..n];
  }

  // ----------------------------------------------------------------- reading

  datatype Fdb = FdbAccepted(ftype: byte) | FdbMalformed | FdbUnsupported

  /** Bit 8 is reserved, bit 7 ignored, bits 6 to 4 the type, bits 3 to 1 the structure. */
  function DecodeFdb(b: byte): Fdb {
    var kind, structure := b / 8 % 8, b % 8;
    if b >= 0x80 then FdbMalformed
    else if kind == 7 then if structure != 0 then FdbMalformed else FdbAccepted(TYPE_DF)
    else if kind == 0 && structure == 1 then FdbAccepted(TYPE_EF)
    else FdbUnsupported
  }

  /** What the template has said so far. */
  datatype Acc = Acc(haveFdb: bool, haveFid: bool, haveSize: bool,
                     ftype: byte, fid: u16, size: u16, lc: byte, sfi: byte)

  const Start := Acc(false, false, false, TYPE_FREE, 0, 0, LC_ACTIVATED, NO_SFI)

  datatype Step = More(acc: Acc) | Stop(sw: u16)

  function Absorb(a: Acc, o: Object): Step {
    if o.tag == TAG_FILE_DESC then
      if a.haveFdb || |o.value| != 1 then Stop(SW_WRONG_DATA)
      else match DecodeFdb(o.value[0])
        case FdbMalformed => Stop(SW_WRONG_DATA)
        case FdbUnsupported => Stop(SW_FUNC_NOT_SUPPORTED)
        case FdbAccepted(ftype) => More(a.(haveFdb := true, ftype := ftype))
    else if o.tag == TAG_FILE_ID then
      if a.haveFid || |o.value| != 2 then Stop(SW_WRONG_DATA)
      else More(a.(haveFid := true, fid := U16(o.value[0], o.value[1])))
    else if o.tag == TAG_DATA_BYTES then
      if a.haveSize then Stop(SW_WRONG_DATA)
      else match GetUint(o.value)
        case Bad(_) => Stop(SW_WRONG_DATA)
        case Field(v, _) =>
          if v > MAX_EF_SIZE then Stop(SW_NOT_ENOUGH_SPACE)
          else if v == 0 then Stop(SW_WRONG_DATA)
          else More(a.(haveSize := true, size := v))
    else if o.tag == TAG_LIFE_CYCLE then
      if |o.value| != 1 || CheckLifecycle(o.value[0]) != FsTypes.Ok then Stop(SW_WRONG_DATA)
      else More(a.(lc := o.value[0]))
    else if o.tag == TAG_SFI then
      if |o.value| != 1 || o.value[0] % 8 != 0 || o.value[0] / 8 > 30 then Stop(SW_WRONG_DATA)
      else More(a.(sfi := o.value[0] / 8))
    else Stop(SW_WRONG_DATA)
  }

  datatype Parsed = Request(req: Desc) | Rejected(sw: u16)

  /** The checks across fields once the template has ended. */
  function Conclude(a: Acc): Parsed {
    if !a.haveFdb || !a.haveFid then Rejected(SW_WRONG_DATA)
    else if a.ftype == TYPE_EF && !a.haveSize then Rejected(SW_WRONG_DATA)
    else if a.ftype == TYPE_DF && a.haveSize then Rejected(SW_WRONG_DATA)
    else if a.ftype == TYPE_DF && a.sfi != NO_SFI then Rejected(SW_WRONG_DATA)
    else Request(Desc(a.fid, a.ftype, a.lc, NO_PARENT, a.size, 0, 0, 0, a.sfi, 0))
  }

  function Fold(a: Acc, os: seq<Object>, end: Outcome): Parsed
    decreases |os|
  {
    if os == [] then if end == End then Conclude(a) else Rejected(SW_WRONG_DATA)
    else match Absorb(a, os[0])
      case Stop(sw) => Rejected(sw)
      case More(next) => Fold(next, os[1..], end)
  }

  function ParseInner(inner: seq<byte>): Parsed {
    if inner == [] then Rejected(SW_WRONG_DATA)
    else var (os, end) := ReadAll(inner, 0); Fold(Start, os, end)
  }

  /** The template may come wrapped in tag 62, alone, or bare. */
  function ParseFcp(body: seq<byte>): Parsed {
    var (o, q) := Next(body, 0);
    if o.Ok? && o.obj.tag == TAG_TEMPLATE then
      if SkipPadding(body, q) < |body| then Rejected(SW_WRONG_DATA) else ParseInner(o.obj.value)
    else ParseInner(body)
  }

  method Parse(body: seq<byte>) returns (r: Parsed)
    requires |body| < 0x1_0000
    ensures r == ParseFcp(body)
  {
    hide Next, Absorb, SkipPadding;
    var outer := new Reader(body);
    var inner := body;
    var first := outer.Advance();
    if first.Ok? && first.obj.tag == TAG_TEMPLATE {
      var done := outer.IsDone();
      if !done {
        return Rejected(SW_WRONG_DATA);
      }
      inner := first.obj.value;
      ShorterValue(body);
    }
    if |inner| == 0 {
      return Rejected(SW_WRONG_DATA);
    }
    var rd := new Reader(inner);
    var acc := Start;
    ghost var all := ReadAll(inner, 0);
    while true
      invariant rd.Valid() && rd.buf == inner
      invariant var (os, end) := ReadAll(inner, rd.pos); Fold(Start, all.0, all.1) == Fold(acc, os, end)
      decreases |inner| - rd.pos
    {
      var o := rd.Advance();
      if o == End {
        return Conclude(acc);
      }
      if !o.Ok? {
        return Rejected(SW_WRONG_DATA);
      }
      match Absorb(acc, o.obj) {
        case Stop(sw) => return Rejected(sw);
        case More(next) => acc := next;
      }
    }
  }

  lemma ShorterValue(body: seq<byte>)
    ensures Next(body, 0).0.Ok? ==> |Next(body, 0).0.obj.value| <= |body|
  {}

  // ------------------------------------------------- what a parse promises

  ghost predicate Sane(a: Acc) {
    && (a.haveFdb ==> a.ftype == TYPE_DF || a.ftype == TYPE_EF)
    && (if a.haveSize then 0 < a.size <= MAX_EF_SIZE else a.size == 0)
    && CheckLifecycle(a.lc) == FsTypes.Ok && a.sfi <= 30
  }

  lemma AbsorbSane(a: Acc, o: Object)
    requires Sane(a) && Absorb(a, o).More?
    ensures Sane(Absorb(a, o).acc)
  {
    hide GetUint;
  }

  lemma ConcludeSane(a: Acc)
    requires Sane(a) && Conclude(a).Request?
    ensures CheckRequest(Conclude(a).req) == if ReservedFid(a.fid) then ErrExists else FsTypes.Ok
    ensures Conclude(a).req.fid == a.fid
  {}

  lemma {:induction false} FoldSane(a: Acc, os: seq<Object>, end: Outcome)
    requires Sane(a)
    ensures Fold(a, os, end).Request? ==> CheckRequest(Fold(a, os, end).req) in {FsTypes.Ok, ErrExists}
    ensures Fold(a, os, end).Request? && CheckRequest(Fold(a, os, end).req) == ErrExists ==>
              ReservedFid(Fold(a, os, end).req.fid)
    decreases |os|
  {
    hide Absorb, Conclude, Sane, CheckRequest, ReservedFid;
    if os == [] {
      if Conclude(a).Request? {
        ConcludeSane(a);
      }
    } else if Absorb(a, os[0]).More? {
      AbsorbSane(a, os[0]);
      FoldSane(Absorb(a, os[0]).acc, os[1..], end);
    }
  }

  /** An accepted template is never a parameter error to creation; only a reserved identifier is refused. */
  lemma ParsedRequestIsValid(body: seq<byte>)
    requires ParseFcp(body).Request?
    ensures var c := CheckRequest(ParseFcp(body).req);
            c == (if ReservedFid(ParseFcp(body).req.fid) then ErrExists else FsTypes.Ok)
  {
    hide Next, SkipPadding, ReadAll, Fold, CheckRequest;
    var (o, q) := Next(body, 0);
    var inner := if o.Ok? && o.obj.tag == TAG_TEMPLATE then o.obj.value else body;
    FoldSane(Start, ReadAll(inner, 0).0, ReadAll(inner, 0).1);
    ReservedChecked(ParseFcp(body).req);
  }

  lemma ReservedChecked(req: Desc)
    ensures ReservedFid(req.fid) ==> CheckRequest(req) == ErrExists
  {}

  // -------------------------------------------------------------- round trip

  function Items(d: Desc): seq<Item> {
    [Item([], TAG_FILE_DESC, [IsoByte(d)])]
    + ([Item([], TAG_FILE_ID, [d.fid / 0x100, d.fid % 0x100])]
       + ((if d.IsEf() then [Item([], TAG_DATA_BYTES, [d.size / 0x100, d.size % 0x100])] else [])
          + ([Item([], TAG_LIFE_CYCLE, [d.lc])]
             + (if d.IsEf() && d.sfi != NO_SFI then [Item([], TAG_SFI, [8 * d.sfi % 0x100])] else []))))
  }

  lemma PrintCons(it: Item, rest: seq<Item>)
    requires Printable(rest) && it.pad == [] && 0x80 <= it.tag <= 0x8A && |it.value| <= 127
    ensures Printable([it] + rest)
    ensures Print([it] + rest, []) == [it.tag, |it.value|] + it.value + Print(rest, [])
  {
    assert ([it] + rest)[1..] == rest;
  }

  /** The spelled-out template is a sequence of data objects. */
  lemma FcpIsPrinted(d: Desc)
    ensures Printable(Items(d)) && Print(Items(d), []) == FcpBytes(d)
  {
    hide IsoByte, Print, Encoded;
    var sfi := Item([], TAG_SFI, [8 * d.sfi % 0x100]);
    var lc := Item([], TAG_LIFE_CYCLE, [d.lc]);
    var size := Item([], TAG_DATA_BYTES, [d.size / 0x100, d.size % 0x100]);
    EmptyPrint();
    PrintCons(sfi, []);
    var t4 := if d.IsEf() && d.sfi != NO_SFI then [sfi] else [];
    assert [sfi] + [] == [sfi];
    PrintCons(lc, t4);
    PrintCons(size, [lc] + t4);
    var t2 := (if d.IsEf() then [size] else []) + ([lc] + t4);
    assert !d.IsEf() ==> t2 == [lc] + t4;
    var fid := Item([], TAG_FILE_ID, [d.fid / 0x100, d.fid % 0x100]);
    PrintCons(fid, t2);
    PrintCons(Item([], TAG_FILE_DESC, [IsoByte(d)]), [fid] + t2);
  }

  lemma EmptyPrint()
    ensures Printable([]) && Print([], []) == []
  {}

  /** The request a template for d asks for: parent, place and access fields are the card's own. */
  function Requested(d: Desc): Desc {
    Desc(d.fid, d.ftype, d.lc, NO_PARENT, d.size, 0, 0, 0, d.sfi, 0)
  }

  lemma NumberOfTwo(hi: byte, lo: byte)
    ensures GetUint([hi, lo]) == Field(U16(hi, lo), 2)
  {
    assert [hi, lo][..1] == [hi] && [hi][..0] == [];
    assert Number([hi]) == hi;
  }

  lemma AbsorbFdb(d: Desc, o: Object)
    requires (d.ftype == TYPE_DF || d.ftype == TYPE_EF) && o.tag == TAG_FILE_DESC && o.value == [IsoByte(d)]
    ensures Absorb(Start, o) == More(Start.(haveFdb := true, ftype := d.ftype))
  {}

  lemma AbsorbFid(a: Acc, fid: u16, o: Object)
    requires !a.haveFid && o.tag == TAG_FILE_ID && o.value == [fid / 0x100, fid % 0x100]
    ensures Absorb(a, o) == More(a.(haveFid := true, fid := fid))
  {}

  lemma AbsorbSize(a: Acc, size: u16, o: Object)
    requires !a.haveSize && 0 < size <= MAX_EF_SIZE
    requires o.tag == TAG_DATA_BYTES && o.value == [size / 0x100, size % 0x100]
    ensures Absorb(a, o) == More(a.(haveSize := true, size := size))
  {
    hide GetUint;
    NumberOfTwo(size / 0x100, size % 0x100);
  }

  lemma AbsorbLc(a: Acc, lc: byte, o: Object)
    requires CheckLifecycle(lc) == FsTypes.Ok && o.tag == TAG_LIFE_CYCLE && o.value == [lc]
    ensures Absorb(a, o) == More(a.(lc := lc))
  {}

  lemma AbsorbSfi(a: Acc, sfi: byte, o: Object)
    requires sfi <= 30 && o.tag == TAG_SFI && o.value == [8 * sfi % 0x100]
    ensures Absorb(a, o) == More(a.(sfi := sfi))
  {}

  lemma FoldItems(d: Desc)
    requires CheckRequest(d) == FsTypes.Ok
    ensures Fold(Start, Objects(Items(d)), End) == Request(Requested(d))
  {
    hide Constructed, Absorb, Fold, IsoByte;
    var os := Objects(Items(d));
    var a1 := Start.(haveFdb := true, ftype := d.ftype);
    var a2 := a1.(haveFid := true, fid := d.fid);
    var a3 := if d.IsEf() then a2.(haveSize := true, size := d.size) else a2;
    var a4 := a3.(lc := d.lc);
    var a5 := a4.(sfi := d.sfi);
    AbsorbFdb(d, os[0]);
    AbsorbFid(a1, d.fid, os[1]);
    if d.IsEf() {
      AbsorbSize(a2, d.size, os[2]);
    }
    AbsorbLc(a3, d.lc, os[if d.IsEf() then 3 else 2]);
    if d.IsEf() && d.sfi != NO_SFI {
      AbsorbSfi(a4, d.sfi, os[4]);
    }
    FoldFive(d, a1, a2, a3, a4, a5);
  }

  lemma FoldFive(d: Desc, a1: Acc, a2: Acc, a3: Acc, a4: Acc, a5: Acc)
    requires var os, ef := Objects(Items(d)), d.IsEf();
             && Absorb(Start, os[0]) == More(a1) && Absorb(a1, os[1]) == More(a2)
             && (if ef then Absorb(a2, os[2]) == More(a3) && Absorb(a3, os[3]) == More(a4)
                 else a3 == a2 && Absorb(a3, os[2]) == More(a4))
             && (if ef && d.sfi != NO_SFI then Absorb(a4, os[4]) == More(a5) else a5 == a4)
    ensures Fold(Start, Objects(Items(d)), End) == Conclude(a5)
  {
    hide Absorb, Conclude, Constructed, IsoByte;
    var os := Objects(Items(d));
    assert os[1..][1..] == os[2..];
    assert Fold(Start, os, End) == Fold(a2, os[2..], End);
    if d.IsEf() {
      assert os[2..][1..] == os[3..] && os[3..][1..] == os[4..];
      assert Fold(a2, os[2..], End) == Fold(a4, os[4..], End);
      if d.sfi != NO_SFI {
        assert os[4..][1..] == [];
      } else {
        assert os[4..] == [];
      }
    } else {
      assert os[2..][1..] == [];
    }
  }

  /**
    For every DF or EF that creation would accept, the template the card would
    report for it, bare or wrapped in tag 62, parses back to the same request.
   */
  lemma ParseOfFcp(d: Desc)
    requires CheckRequest(d) == FsTypes.Ok
    ensures ParseFcp(FcpBytes(d)) == Request(Requested(d))
    ensures ParseFcp([TAG_TEMPLATE, |FcpBytes(d)|] + FcpBytes(d)) == Request(Requested(d))
  {
    hide IsoByte, Fold, ReadAll, Print, CheckRequest, FcpBytes, Next, Encoded, SkipPadding, Absorb, Objects;
    var s := FcpBytes(d);
    FcpIsPrinted(d);
    FoldItems(d);
    ReadOfPrint([], Items(d), []);
    assert [] + Print(Items(d), []) == s;
    assert ParseInner(s) == Request(Requested(d));
    FirstTag(d);
    WrapReads(s);
  }

  lemma FirstTag(d: Desc)
    ensures Next(FcpBytes(d), 0).0 == Outcome.Ok(Object(TAG_FILE_DESC, [IsoByte(d)], false))
  {
    hide IsoByte;
    var s := FcpBytes(d);
    assert s[..3] == Encoded(TAG_FILE_DESC, [IsoByte(d)]);
    NextOfEncoded(s, 0, 0, TAG_FILE_DESC, [IsoByte(d)]);
  }

  lemma WrapReads(s: seq<byte>)
    requires 0 < |s| <= 127
    ensures var w := [TAG_TEMPLATE, |s|] + s;
            Next(w, 0) == (Outcome.Ok(Object(TAG_TEMPLATE, s, true)), |w|) && SkipPadding(w, |w|) == |w|
  {
    var w := [TAG_TEMPLATE, |s|] + s;
    assert w == Encoded(TAG_TEMPLATE, s) && w[0..|w|] == w;
    NextOfEncoded(w, 0, 0, TAG_TEMPLATE, s);
  }
}
