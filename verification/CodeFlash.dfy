/**
  NOR code flash: erasing works on whole pages and sets every bit, programming
  can only clear bits and is refused as a whole when it would have to set one.

  The ghost `steps` result of each writing method lists the contents of the
  region after every single byte store, in order: what a power cut leaves.
 */
module CodeFlash {
  import opened Bytes

  datatype Status = Ok | ErrParam | ErrRange | ErrAlign | ErrNotErased

  // ------------------------------------------------------------ single bytes

  /** `(was & now) == now`: every bit set in `now` is still set in `was`. */
  predicate Clears(was: byte, now: byte) {
    forall i | 0 <= i < 8 :: ByteBits(now)[i] ==> ByteBits(was)[i]
  }

  lemma ClearsItself(a: byte)
    ensures Clears(a, a)
  {}

  lemma ClearsTransitive(a: byte, b: byte, c: byte)
    requires Clears(a, b) && Clears(b, c)
    ensures Clears(a, c)
  {}

  lemma ClearsAntisymmetric(a: byte, b: byte)
    requires Clears(a, b) && Clears(b, a)
    ensures a == b
  {
    assert ByteBits(a) == ByteBits(b);
    ByteBitsInjective(a, b);
  }

  lemma {:induction false} AllOnes(n: nat, i: nat)
    requires i < n
    ensures BitsOf(Pow2(n) - 1, n)[i]
  {
    var v := Pow2(n) - 1;
    assert v == 2 * (Pow2(n - 1) - 1) + 1;
    assert v / 2 == Pow2(n - 1) - 1 && v % 2 == 1;
    if i + 1 < n {
      AllOnes(n - 1, i);
    }
  }

  lemma {:induction false} AllZeros(n: nat, i: nat)
    requires i < n
    ensures !BitsOf(0, n)[i]
  {
    if i + 1 < n {
      AllZeros(n - 1, i);
    }
  }

  /** An erased byte can be programmed to anything; anything can be cleared to zero. */
  lemma ClearsExtremes(b: byte)
    ensures Clears(ERASED, b) && Clears(b, 0)
  {
    Pow2Eight();
    forall i | 0 <= i < 8
      ensures ByteBits(ERASED)[i] && !ByteBits(0)[i]
    {
      AllOnes(8, i);
      AllZeros(8, i);
    }
  }

  /** Nothing but an erased byte can be programmed to the erased value. */
  lemma ErasedNeedsErased(b: byte)
    requires Clears(b, ERASED)
    ensures b == ERASED
  {
    ClearsExtremes(b);
    ClearsAntisymmetric(b, ERASED);
  }

  lemma {:induction false} FewerBitsSmaller(s: seq<bool>, t: seq<bool>)
    requires |s| == |t| && forall i | 0 <= i < |s| :: t[i] ==> s[i]
    ensures Value(t) <= Value(s)
  {
    if s != [] {
      FewerBitsSmaller(s[..|s| - 1], t[..|t| - 1]);
    }
  }

  /** A byte with bits cleared is a smaller number. */
  lemma ClearsShrinks(was: byte, now: byte)
    requires Clears(was, now)
    ensures now <= was
  {
    Pow2Eight();
    ValueOfBits(was, 8);
    ValueOfBits(now, 8);
    FewerBitsSmaller(ByteBits(was), ByteBits(now));
  }

  // ----------------------------------------------------------------- regions

  /** Region `now` is region `was` with at most bits cleared. */
  ghost predicate OnlyCleared(was: seq<byte>, now: seq<byte>) {
    |was| == |now| && forall i | 0 <= i < |was| :: Clears(was[i], now[i])
  }

  function EraseStatus(size: nat, page: nat): Status {
    if size == 0 || page == 0 then ErrParam
    else if size % page != 0 then ErrRange
    else Ok
  }

  predicate CanProgram(m: seq<byte>, off: nat, src: seq<byte>)
    requires off + |src| <= |m|
  {
    forall i | 0 <= i < |src| :: Clears(m[off + i], src[i])
  }

  function ProgramStatus(m: seq<byte>, off: nat, src: seq<byte>): Status {
    if |m| == 0 then ErrParam
    else if off + |src| > |m| then ErrRange
    else if !CanProgram(m, off, src) then ErrNotErased
    else Ok
  }

  function Programmed(m: seq<byte>, off: nat, src: seq<byte>): (r: seq<byte>)
    ensures |r| == |m|
  {
    if ProgramStatus(m, off, src) == Ok then Splice(m, off, src) else m
  }

  lemma ProgrammingOnlyClears(m: seq<byte>, off: nat, src: seq<byte>)
    ensures OnlyCleared(m, Programmed(m, off, src))
  {}

  /** The contents of region m after each store while src is written from off upward. */
  ghost function Stores(m: seq<byte>, off: nat, src: seq<byte>): (r: seq<seq<byte>>)
    requires off + |src| <= |m|
    ensures |r| == |src|
  {
    if src == [] then [] else Stores(m, off, src[..|src| - 1]) + [Splice(m, off, src)]
  }

  lemma {:induction false} StoresAt(m: seq<byte>, off: nat, src: seq<byte>, k: nat)
    requires off + |src| <= |m| && k < |src|
    ensures Stores(m, off, src)[k] == Splice(m, off, src[..k + 1])
  {
    if k + 1 < |src| {
      StoresAt(m, off, src[..|src| - 1], k);
      assert src[..|src| - 1][..k + 1] == src[..k + 1];
    } else {
      assert src[..k + 1] == src;
    }
  }

  /** Writing one block after another is writing their concatenation. */
  lemma {:induction false} StoresAppend(m: seq<byte>, off: nat, a: seq<byte>, b: seq<byte>)
    requires off + |a| + |b| <= |m|
    ensures Splice(Splice(m, off, a), off + |a|, b) == Splice(m, off, a + b)
    ensures Stores(m, off, a) + Stores(Splice(m, off, a), off + |a|, b) == Stores(m, off, a + b)
  {
    if b == [] {
      assert a + b == a;
    } else {
      StoresAppend(m, off, a, b[..|b| - 1]);
      assert (a + b)[..|a + b| - 1] == a + b[..|b| - 1];
    }
  }

  lemma NextPageErased(m: seq<byte>, off: nat, page: nat)
    requires off + page <= |m|
    ensures Splice(Splice(m, 0, Fill(off, ERASED)), off, Fill(page, ERASED)) == Splice(m, 0, Fill(off + page, ERASED))
    ensures Stores(m, 0, Fill(off, ERASED)) + Stores(Splice(m, 0, Fill(off, ERASED)), off, Fill(page, ERASED))
         == Stores(m, 0, Fill(off + page, ERASED))
  {
    StoresAppend(m, 0, Fill(off, ERASED), Fill(page, ERASED));
    assert Fill(off, ERASED) + Fill(page, ERASED) == Fill(off + page, ERASED);
  }

  method ErasePage(base: array<byte>, page: u32, off: u32) returns (st: Status, ghost steps: seq<seq<byte>>)
    modifies base
    ensures st == if base.Length == 0 || page == 0 then ErrParam
                  else if off % page != 0 then ErrAlign
                  else if off + page > base.Length then ErrRange
                  else Ok
    ensures st != Ok ==> base[..] == old(base[..]) && steps == []
    ensures st == Ok ==> base[..] == Splice(old(base[..]), off, Fill(page, ERASED))
    ensures st == Ok ==> steps == Stores(old(base[..]), off, Fill(page, ERASED))
  {
    steps := [];
    if base.Length == 0 || page == 0 {
      return ErrParam, steps;
    }
    if off % page != 0 {
      return ErrAlign, steps;
    }
    if off + page > base.Length {
      return ErrRange, steps;
    }
    for i := 0 to page
      invariant base[..] == Splice(old(base[..]), off, Fill(i, ERASED))
      invariant steps == Stores(old(base[..]), off, Fill(i, ERASED))
    {
      base[off + i] := ERASED;
      assert Fill(i + 1, ERASED)[..i] == Fill(i, ERASED);
      assert base[..] == Splice(old(base[..]), off, Fill(i + 1, ERASED));
      steps := steps + [base[..]];
    }
    st := Ok;
  }

  method EraseAll(base: array<byte>, page: u32) returns (st: Status, ghost steps: seq<seq<byte>>)
    requires base.Length < 0x1_0000_0000
    modifies base
    ensures st == EraseStatus(base.Length, page)
    ensures st != Ok ==> base[..] == old(base[..]) && steps == []
    ensures st == Ok ==> base[..] == Fill(base.Length, ERASED)
    ensures st == Ok ==> steps == Stores(old(base[..]), 0, Fill(base.Length, ERASED))
  {
    steps := [];
    if base.Length == 0 || page == 0 {
      return ErrParam, steps;
    }
    if base.Length % page != 0 {
      return ErrRange, steps;
    }
    ghost var m := base[..];
    var off := 0;
    while off < base.Length
      invariant 0 <= off <= base.Length && off % page == 0
      invariant base[..] == Splice(m, 0, Fill(off, ERASED))
      invariant steps == Stores(m, 0, Fill(off, ERASED))
      decreases base.Length - off
    {
      NextPage(off, page, base.Length);
      NextPageErased(m, off, page);
      ghost var part: seq<seq<byte>>;
      st, part := ErasePage(base, page, off);
      steps := steps + part;
      off := off + page;
    }
    st := Ok;
  }

  lemma TimesDifference(p: int, a: int, b: int)
    ensures p * (a - b) == p * a - p * b
  {}

  lemma TimesPositive(p: int, a: int)
    requires p > 0 && a >= 1
    ensures p * a >= p
  {}

  lemma SameQuotient(p: int, q: int, r: int, q': int, r': int)
    requires 0 <= r < p && 0 <= r' < p && p * q + r == p * q' + r'
    ensures q == q'
  {
    TimesDifference(p, q', q);
    TimesDifference(p, q, q');
    if q < q' {
      TimesPositive(p, q' - q);
    } else if q' < q {
      TimesPositive(p, q - q');
    }
  }

  /** Page offsets are multiples of the page size, so they are a whole page apart. */
  lemma Multiples(p: nat, i: nat, n: nat)
    requires p > 0
    ensures p * i % p == 0
    ensures p * i < p * n ==> p * i + p == p * (i + 1) <= p * n
  {
    var x := p * i;
    SameQuotient(p, x / p, x % p, i, 0);
    TimesDifference(p, i + 1, i);
    TimesDifference(p, n, i);
    TimesDifference(p, i, n);
    if i < n {
      TimesPositive(p, n - i);
    } else if n < i {
      TimesPositive(p, i - n);
    }
  }

  lemma NextPage(off: nat, page: nat, size: nat)
    requires page > 0 && off % page == 0 && size % page == 0 && off < size
    ensures off + page <= size && (off + page) % page == 0
  {
    var i, n := off / page, size / page;
    assert off == page * i && size == page * n;
    Multiples(page, i, n);
    Multiples(page, i + 1, n + 1);
  }

  method CheckProgrammable(base: array<byte>, off: nat, src: seq<byte>) returns (ok: bool)
    requires off + |src| <= base.Length
    ensures ok <==> CanProgram(base[..], off, src)
  {
    for i := 0 to |src|
      invariant forall k | 0 <= k < i :: Clears(base[..][off + k], src[k])
    {
      if !Clears(base[off + i], src[i]) {
        assert !Clears(base[..][off + i], src[i]);
        return false;
      }
    }
    return true;
  }

  method Program(base: array<byte>, off: nat, src: seq<byte>) returns (st: Status, ghost steps: seq<seq<byte>>)
    modifies base
    ensures st == ProgramStatus(old(base[..]), off, src)
    ensures base[..] == Programmed(old(base[..]), off, src)
    ensures st != Ok ==> steps == []
    ensures st == Ok ==> steps == Stores(old(base[..]), off, src)
  {
    steps := [];
    if base.Length == 0 {
      return ErrParam, steps;
    }
    if off + |src| > base.Length {
      return ErrRange, steps;
    }
    var ok := CheckProgrammable(base, off, src);
    if !ok {
      return ErrNotErased, steps;
    }
    for i := 0 to |src|
      invariant base[..] == Splice(old(base[..]), off, src[..i])
      invariant steps == Stores(old(base[..]), off, src[..i])
    {
      base[off + i] := src[i];
      assert src[..i + 1][..i] == src[..i];
      assert base[..] == Splice(old(base[..]), off, src[..i + 1]);
      steps := steps + [base[..]];
    }
    assert src[..|src|] == src;
    st := Ok;
  }

  method IsErased(base: array<byte>) returns (r: bool)
    ensures r <==> base[..] == Fill(base.Length, ERASED)
  {
    for i := 0 to base.Length
      invariant forall k | 0 <= k < i :: base[k] == ERASED
    {
      if base[i] != ERASED {
        return false;
      }
    }
    return true;
  }
}
