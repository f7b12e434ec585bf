/** BER-TLV data objects, annex D of ISO/IEC 7816-4: reading with bounds, writing, and their agreement. */
module Tlv {
  import opened Bytes

  datatype Object = Object(tag: u16, value: seq<byte>, constructed: bool)

  datatype Outcome = Ok(obj: Object) | End | ErrTruncated | ErrTag | ErrLength

  const MAX_LEN_BYTES := 2

  // ----------------------------------------------------------------- reading

  predicate Filler(b: byte) {
    b == 0x00 || b == 0xFF
  }

  /** The first position at or after pos that is not filler. */
  function SkipPadding(buf: seq<byte>, pos: nat): (r: nat)
    requires pos <= |buf|
    ensures pos <= r <= |buf|
    ensures forall i | pos <= i < r :: Filler(buf[i])
    ensures r < |buf| ==> !Filler(buf[r])
    decreases |buf| - pos
  {
    if pos < |buf| && Filler(buf[pos]) then SkipPadding(buf, pos + 1) else pos
  }

  /** A number read from the buffer and the position after it, or why there is none. */
  datatype Field = Field(number: nat, end: nat) | Bad(why: Outcome)

  function ReadTag(buf: seq<byte>, pos: nat): (f: Field)
    requires pos < |buf|
    ensures f.Field? ==> f.number < 0x1_0000 && pos < f.end <= |buf|
    ensures f.Bad? ==> f.why == ErrTruncated || f.why == ErrTag
  {
    var t0 := buf[pos];
    if t0 % 0x20 != 0x1F then Field(t0, pos + 1)
    else if pos + 1 >= |buf| then Bad(ErrTruncated)
    else if buf[pos + 1] >= 0x80 then Bad(ErrTag)
    else Field(U16(t0, buf[pos + 1]), pos + 2)
  }

  /** The number a string of big-endian bytes denotes. */
  function Number(v: seq<byte>): nat {
    if v == [] then 0 else 0x100 * Number(v[..|v| - 1]) + v[|v| - 1]
  }

  lemma NumberBound(v: seq<byte>)
    requires |v| <= 2
    ensures Number(v) < 0x1_0000
  {
    if |v| == 2 {
      assert Number(v[..1]) == 0x100 * Number(v[..1][..0]) + v[0];
    }
  }

  function ReadLength(buf: seq<byte>, pos: nat): (f: Field)
    requires pos <= |buf|
    ensures f.Field? ==> f.number < 0x1_0000 && pos < f.end <= |buf|
    ensures f.Bad? ==> f.why == ErrTruncated || f.why == ErrLength
  {
    if pos >= |buf| then Bad(ErrTruncated)
    else
      var l0 := buf[pos];
      if l0 < 0x80 then Field(l0, pos + 1)
      else if l0 == 0x80 || l0 == 0xFF || l0 - 0x80 > MAX_LEN_BYTES then Bad(ErrLength)
      else if pos + 1 + (l0 - 0x80) > |buf| then Bad(ErrTruncated)
      else
        var end := pos + 1 + (l0 - 0x80);
        NumberBound(buf[pos + 1..end]);
        Field(Number(buf[pos + 1..end]), end)
  }

  /** The next object and the new position; anything but Ok leaves the reader exhausted. */
  function Next(buf: seq<byte>, pos: nat): (r: (Outcome, nat))
    requires pos <= |buf|
    ensures r.1 <= |buf|
    ensures r.0.Ok? ==> pos < r.1
    ensures !r.0.Ok? ==> r.1 == |buf|
  {
    var p := SkipPadding(buf, pos);
    if p >= |buf| then (End, |buf|)
    else match ReadTag(buf, p)
      case Bad(why) => (why, |buf|)
      case Field(tag, q) =>
        match ReadLength(buf, q)
        case Bad(why) => (why, |buf|)
        case Field(n, s) =>
          if s + n > |buf| then (ErrTruncated, |buf|)
          else (Ok(Object(tag, buf[s..s + n], buf[p] / 0x20 % 2 == 1)), s + n)
  }

  /** All objects from pos on, and how the sequence ended. */
  function ReadAll(buf: seq<byte>, pos: nat): (r: (seq<Object>, Outcome))
    requires pos <= |buf|
    ensures !r.1.Ok?
    decreases |buf| - pos
  {
    var (o, q) := Next(buf, pos);
    if o.Ok? then
      var (rest, end) := ReadAll(buf, q);
      ([o.obj] + rest, end)
    else ([], o)
  }

  class Reader {
    const buf: seq<byte>
    var pos: nat

    ghost predicate Valid()
      reads this
    {
      pos <= |buf| < 0x1_0000
    }

    constructor (buf: seq<byte>)
      requires |buf| < 0x1_0000
      ensures Valid() && this.buf == buf && pos == 0
    {
      this.buf, pos := buf, 0;
    }

    method AfterPadding() returns (p: nat)
      requires Valid()
      ensures p == SkipPadding(buf, pos)
    {
      p := pos;
      while p < |buf| && Filler(buf[p])
        invariant pos <= p <= |buf|
        invariant SkipPadding(buf, pos) == SkipPadding(buf, p)
      {
        p := p + 1;
      }
    }

    method IsDone() returns (r: bool)
      requires Valid()
      ensures r <==> SkipPadding(buf, pos) >= |buf|
    {
      var p := AfterPadding();
      r := p >= |buf|;
    }

    method DecodeLength(p: nat) returns (f: Field)
      requires Valid() && p <= |buf|
      ensures f == ReadLength(buf, p)
    {
      if p >= |buf| {
        return Bad(ErrTruncated);
      }
      var l0 := buf[p];
      if l0 < 0x80 {
        return Field(l0, p + 1);
      }
      if l0 == 0x80 || l0 == 0xFF {
        return Bad(ErrLength);
      }
      var nbytes := l0 - 0x80;
      if nbytes > MAX_LEN_BYTES {
        return Bad(ErrLength);
      }
      if p + 1 + nbytes > |buf| {
        return Bad(ErrTruncated);
      }
      var n := Accumulate(buf[p + 1..p + 1 + nbytes]);
      return Field(n, p + 1 + nbytes);
    }

    method Advance() returns (o: Outcome)
      requires Valid()
      modifies this
      ensures Valid() && (o, pos) == Next(buf, old(pos))
    {
      var p := AfterPadding();
      if p >= |buf| {
        pos := |buf|;
        return End;
      }
      var start := p;
      var t0 := buf[p];
      var tag: u16 := t0;
      p := p + 1;
      if t0 % 0x20 == 0x1F {
        if p >= |buf| {
          pos := |buf|;
          return ErrTruncated;
        }
        var t1 := buf[p];
        p := p + 1;
        tag := U16(t0, t1);
        if t1 >= 0x80 {
          pos := |buf|;
          return ErrTag;
        }
      }
      assert ReadTag(buf, start) == Field(tag, p);
      var length := DecodeLength(p);
      match length {
        case Bad(why) =>
          pos := |buf|;
          return why;
        case Field(n, s) =>
          if s + n > |buf| {
            pos := |buf|;
            return ErrTruncated;
          }
          pos := s + n;
          return Ok(Object(tag, buf[s..s + n], t0 / 0x20 % 2 == 1));
      }
    }
  }

  method Find(buf: seq<byte>, tag: u16) returns (o: Outcome)
    requires |buf| < 0x1_0000
    ensures o.Ok? ==> exists k :: 0 <= k < |ReadAll(buf, 0).0| && ReadAll(buf, 0).0[k] == o.obj && o.obj.tag == tag
                                  && forall j | 0 <= j < k :: ReadAll(buf, 0).0[j].tag != tag
    ensures !o.Ok? ==> o == ReadAll(buf, 0).1
                       && forall j | 0 <= j < |ReadAll(buf, 0).0| :: ReadAll(buf, 0).0[j].tag != tag
  {
    var r := new Reader(buf);
    ghost var all := ReadAll(buf, 0);
    ghost var seen := 0;
    while true
      invariant r.Valid() && r.buf == buf && seen <= |all.0|
      invariant ReadAll(buf, r.pos) == (all.0[seen..], all.1)
      invariant forall j | 0 <= j < seen :: all.0[j].tag != tag
      decreases |buf| - r.pos, 1
    {
      ghost var before := r.pos;
      o := r.Advance();
      if !o.Ok? {
        return;
      }
      assert all.0[seen..][0] == o.obj && all.0[seen..][1..] == all.0[seen + 1..];
      if o.obj.tag == tag {
        return;
      }
      seen := seen + 1;
    }
  }

  /** A big-endian number of one to four bytes. */
  function GetUint(v: seq<byte>): (r: Field) {
    if |v| == 0 || |v| > 4 then Bad(ErrLength) else Field(Number(v), |v|)
  }

  method DecodeUint(v: seq<byte>) returns (r: Field)
    ensures r == GetUint(v)
  {
    if |v| == 0 || |v| > 4 {
      return Bad(ErrLength);
    }
    var n := Accumulate(v);
    return Field(n, |v|);
  }

  /** The shift-and-or loop shared by length fields and integer values. */
  method Accumulate(v: seq<byte>) returns (n: nat)
    ensures n == Number(v)
  {
    n := 0;
    for i := 0 to |v|
      invariant n == Number(v[..i])
    {
      assert v[..i + 1][..i] == v[..i];
      n := n * 0x100 + v[i];
    }
    assert v[..|v|] == v;
  }

  // ----------------------------------------------------------------- writing

  function TagBytes(tag: u16): (s: seq<byte>)
    ensures 1 <= |s| <= 2
  {
    if tag > 0xFF then [tag / 0x100, tag % 0x100] else [tag]
  }

  function Encoded(tag: u16, value: seq<byte>): seq<byte>
    requires |value| <= 127
  {
    TagBytes(tag) + [|value|] + value
  }

  /** Appends at pos, or changes nothing when the object does not fit. */
  method Put(buf: array<byte>, pos: nat, tag: u16, value: seq<byte>) returns (ok: bool, end: nat)
    requires pos <= buf.Length
    modifies buf
    ensures ok <==> |value| <= 127 && pos + |TagBytes(tag)| + 1 + |value| <= buf.Length
    ensures !ok ==> buf[..] == old(buf[..]) && end == pos
    ensures ok ==> end == pos + |Encoded(tag, value)| && buf[..] == Splice(old(buf[..]), pos, Encoded(tag, value))
  {
    hide TagBytes;
    if |value| > 127 {
      return false, pos;
    }
    var tagBytes := TagLength(tag);
    if pos + tagBytes + 1 + |value| > buf.Length {
      return false, pos;
    }
    ghost var m := buf[..];
    var p := PutTag(buf, pos, tag);
    buf[p] := |value|;
    p := p + 1;
    assert buf[..] == Splice(m, pos, TagBytes(tag) + [|value|]);
    CopyInto(buf, p, value);
    SpliceAppend(m, pos, TagBytes(tag) + [|value|], value);
    return true, p + |value|;
  }

  function TagLength(tag: u16): (n: nat)
    ensures n == |TagBytes(tag)|
  {
    if tag > 0xFF then 2 else 1
  }

  method PutTag(buf: array<byte>, pos: nat, tag: u16) returns (p: nat)
    requires pos + |TagBytes(tag)| <= buf.Length
    modifies buf
    ensures p == pos + |TagBytes(tag)| && buf[..] == Splice(old(buf[..]), pos, TagBytes(tag))
  {
    p := pos;
    if tag > 0xFF {
      buf[p] := tag / 0x100;
      p := p + 1;
    }
    buf[p] := tag % 0x100;
    p := p + 1;
  }

  /** The tags that the reader can give back. */
  predicate Representable(tag: u16) {
    if tag > 0xFF then
      tag / 0x100 % 0x20 == 0x1F && tag / 0x100 != 0xFF && tag % 0x100 < 0x80
    else
      tag != 0 && tag % 0x20 != 0x1F
  }

  function Constructed(tag: u16): bool {
    TagBytes(tag)[0] / 0x20 % 2 == 1
  }

  // --------------------------------------------------------------- agreement

  lemma TagReads(buf: seq<byte>, at: nat, tag: u16)
    requires Representable(tag) && at + |TagBytes(tag)| <= |buf|
    requires forall i | 0 <= i < |TagBytes(tag)| :: buf[at + i] == TagBytes(tag)[i]
    ensures !Filler(buf[at]) && ReadTag(buf, at) == Field(tag, at + |TagBytes(tag)|)
  {
    assert buf[at + 0] == TagBytes(tag)[0];
    if tag > 0xFF {
      assert buf[at + 1] == TagBytes(tag)[1];
    }
  }

  lemma PaddingSkips(buf: seq<byte>, pos: nat, at: nat)
    requires pos <= at < |buf| && !Filler(buf[at])
    requires forall i | pos <= i < at :: Filler(buf[i])
    ensures SkipPadding(buf, pos) == at
  {
    hide SkipPadding;
  }

  lemma NextOfEncoded(buf: seq<byte>, pos: nat, at: nat, tag: u16, value: seq<byte>)
    requires |value| <= 127 && Representable(tag)
    requires pos <= at && at + |Encoded(tag, value)| <= |buf|
    requires forall i | pos <= i < at :: Filler(buf[i])
    requires buf[at..at + |Encoded(tag, value)|] == Encoded(tag, value)
    ensures Next(buf, pos) == (Ok(Object(tag, value, Constructed(tag))), at + |Encoded(tag, value)|)
  {
    hide ReadTag, TagBytes, Filler, Representable, SkipPadding;
    var e, t := Encoded(tag, value), |TagBytes(tag)|;
    forall i | 0 <= i < |e|
      ensures buf[at + i] == e[i]
    {
      assert buf[at..at + |e|][i] == buf[at + i];
    }
    assert forall i | 0 <= i < t :: e[i] == TagBytes(tag)[i];
    assert buf[at + 0] == TagBytes(tag)[0];
    assert buf[at + t] == |value|;
    TagReads(buf, at, tag);
    PaddingSkips(buf, pos, at);
    assert ReadLength(buf, at + t) == Field(|value|, at + t + 1);
    hide ReadLength;
    assert value == e[t + 1..] == buf[at + t + 1..at + t + 1 + |value|];
  }

  /** An object as the writer is given it, with the filler put before it. */
  datatype Item = Item(pad: seq<byte>, tag: u16, value: seq<byte>)

  ghost predicate AllFiller(s: seq<byte>) {
    forall i | 0 <= i < |s| :: Filler(s[i])
  }

  ghost predicate Printable(items: seq<Item>) {
    forall k | 0 <= k < |items| ::
      AllFiller(items[k].pad) && Representable(items[k].tag) && |items[k].value| <= 127
  }

  ghost function Print(items: seq<Item>, tail: seq<byte>): seq<byte>
    requires Printable(items)
  {
    if items == [] then tail
    else items[0].pad + Encoded(items[0].tag, items[0].value) + Print(items[1..], tail)
  }

  ghost function Objects(items: seq<Item>): (os: seq<Object>)
    ensures |os| == |items|
  {
    seq(|items|, k requires 0 <= k < |items| => Object(items[k].tag, items[k].value, Constructed(items[k].tag)))
  }

  lemma FillerEnds(buf: seq<byte>, pos: nat)
    requires pos <= |buf| && forall i | pos <= i < |buf| :: Filler(buf[i])
    ensures Next(buf, pos) == (End, |buf|)
  {}

  /** Writing any list of objects, with any filler around them, then reading gives the list back. */
  lemma {:induction false} ReadOfPrint(pre: seq<byte>, items: seq<Item>, tail: seq<byte>)
    requires Printable(items) && AllFiller(tail)
    ensures ReadAll(pre + Print(items, tail), |pre|) == (Objects(items), End)
    decreases |items|
  {
    hide Next, Encoded, Representable, Constructed;
    var buf := pre + Print(items, tail);
    if items == [] {
      FillerEnds(buf, |pre|);
    } else {
      var it := items[0];
      var e := Encoded(it.tag, it.value);
      var rest := Print(items[1..], tail);
      var at := |pre| + |it.pad|;
      assert buf == pre + it.pad + e + rest;
      assert buf[at..at + |e|] == e;
      assert forall i | |pre| <= i < at :: buf[i] == it.pad[i - |pre|];
      NextOfEncoded(buf, |pre|, at, it.tag, it.value);
      ReadOfPrint(pre + it.pad + e, items[1..], tail);
      assert Objects(items) == [Objects(items)[0]] + Objects(items[1..]);
    }
  }

  /** The writer accepts tags the reader does not give back: exactly the unrepresentable ones. */
  lemma PutReadsBackExactly(tag: u16, value: seq<byte>)
    requires |value| <= 127
    ensures Next(Encoded(tag, value), 0) == (Ok(Object(tag, value, Constructed(tag))), |Encoded(tag, value)|)
            <==> Representable(tag)
  {
    var e := Encoded(tag, value);
    if Representable(tag) {
      assert e[0..|e|] == e;
      NextOfEncoded(e, 0, 0, tag, value);
    } else {
      ReadTagsAreRepresentable(e, 0);
    }
  }

  /** Whatever is read has a tag the writer could have written. */
  lemma ReadTagsAreRepresentable(buf: seq<byte>, pos: nat)
    requires pos <= |buf|
    ensures Next(buf, pos).0.Ok? ==> Representable(Next(buf, pos).0.obj.tag)
  {
    var p := SkipPadding(buf, pos);
    if p < |buf| {
      var f := ReadTag(buf, p);
      if f.Field? && f.number > 0xFF {
        Be16Bytes(f.number);
        Num16Injective(Be16(f.number), [buf[p], buf[p + 1]]);
      }
    }
  }

  // ------------------------------------------------- what reading recognises

  /** The three forms of a length: itself, 81 and one byte, 82 and two. */
  predicate SpellsLength(s: seq<byte>, n: nat) {
    || (|s| == 1 && s[0] == n && n < 0x80)
    || (|s| == 2 && s[0] == 0x81 && s[1] == n)
    || (|s| == 3 && s[0] == 0x82 && U16(s[1], s[2]) == n)
  }

  /** Object o starts at position at, after filler, with its value from v to end. */
  ghost predicate Lies(buf: seq<byte>, pos: nat, o: Object, at: nat, v: nat, end: nat) {
    && pos <= at && at + |TagBytes(o.tag)| < v <= end <= |buf|
    && (forall i | pos <= i < at :: Filler(buf[i]))
    && Representable(o.tag) && o.constructed == Constructed(o.tag)
    && buf[at..at + |TagBytes(o.tag)|] == TagBytes(o.tag)
    && SpellsLength(buf[at + |TagBytes(o.tag)|..v], |o.value|)
    && buf[v..end] == o.value
  }

  lemma NumberOfLength(s: seq<byte>)
    ensures |s| == 1 ==> Number(s) == s[0]
    ensures |s| == 2 ==> Number(s) == U16(s[0], s[1])
  {
    if |s| == 2 {
      assert Number(s[..1]) == 0x100 * Number(s[..1][..0]) + s[0];
    }
  }

  /** A length is read exactly from one of its three forms. */
  lemma LengthExactly(buf: seq<byte>, p: nat, n: nat, v: nat)
    requires p <= |buf|
    ensures ReadLength(buf, p) == Field(n, v) <==> p < v <= |buf| && SpellsLength(buf[p..v], n)
  {
    hide Number;
    if p < |buf| && buf[p] > 0x80 {
      var w := p + 1 + (buf[p] - 0x80);
      if w <= |buf| {
        NumberOfLength(buf[p + 1..w]);
      }
    }
  }

  lemma TagExactly(buf: seq<byte>, at: nat, tag: u16, q: nat)
    requires at < |buf| && !Filler(buf[at])
    ensures ReadTag(buf, at) == Field(tag, q) <==>
              && Representable(tag) && q == at + |TagBytes(tag)| <= |buf| && buf[at..q] == TagBytes(tag)
  {
    if ReadTag(buf, at) == Field(tag, q) && tag > 0xFF {
      Be16Bytes(tag);
      Num16Injective(Be16(tag), [buf[at], buf[at + 1]]);
    }
    if Representable(tag) && q == at + |TagBytes(tag)| <= |buf| && buf[at..q] == TagBytes(tag) {
      forall i | 0 <= i < |TagBytes(tag)|
        ensures buf[at + i] == TagBytes(tag)[i]
      {
        assert buf[at..q][i] == buf[at + i];
      }
      TagReads(buf, at, tag);
    }
  }

  /** An object is read exactly where one lies, whatever the form of its length. */
  lemma NextExactly(buf: seq<byte>, pos: nat, o: Object, end: nat)
    requires pos <= |buf|
    ensures Next(buf, pos) == (Ok(o), end) <==> exists at: nat, v: nat :: Lies(buf, pos, o, at, v, end)
  {
    hide ReadTag, ReadLength, SkipPadding, SpellsLength, Representable, TagBytes, Filler;
    if Next(buf, pos) == (Ok(o), end) {
      ReadLies(buf, pos, o, end);
    }
    if at: nat, v: nat :| Lies(buf, pos, o, at, v, end) {
      LyingReads(buf, pos, o, at, v, end);
    }
  }

  lemma ReadLies(buf: seq<byte>, pos: nat, o: Object, end: nat)
    requires pos <= |buf| && Next(buf, pos) == (Ok(o), end)
    ensures exists at: nat, v: nat :: Lies(buf, pos, o, at, v, end)
  {
    hide ReadTag, ReadLength, SkipPadding, SpellsLength, Representable, TagBytes;
    var at := SkipPadding(buf, pos);
    var q := ReadTag(buf, at).end;
    var v := ReadLength(buf, q).end;
    TagExactly(buf, at, o.tag, q);
    LengthExactly(buf, q, |o.value|, v);
    assert buf[at] == TagBytes(o.tag)[0] by {
      assert buf[at..q][0] == buf[at];
    }
    assert Lies(buf, pos, o, at, v, end);
  }

  lemma LyingReads(buf: seq<byte>, pos: nat, o: Object, at: nat, v: nat, end: nat)
    requires pos <= |buf| && Lies(buf, pos, o, at, v, end)
    ensures Next(buf, pos) == (Ok(o), end)
  {
    hide ReadTag, ReadLength, SkipPadding, SpellsLength, Representable, TagBytes, Filler;
    var q := at + |TagBytes(o.tag)|;
    assert buf[at] == TagBytes(o.tag)[0] by {
      assert buf[at..q][0] == buf[at];
    }
    TagIsNoFiller(o.tag);
    PaddingSkips(buf, pos, at);
    TagExactly(buf, at, o.tag, q);
    LengthExactly(buf, q, |o.value|, v);
  }

  lemma TagIsNoFiller(tag: u16)
    requires Representable(tag)
    ensures !Filler(TagBytes(tag)[0])
  {}
}
