/** The slot scans of both filesystem layers: the lowest slot that answers a query. */
module SlotSearch {
  import opened Bytes
  import opened FsTypes

  datatype Query =
    | ChildOf(parent: u16, fid: u16)
    | SfiUnder(df: u16, sfi: byte)
    | AnyChild(parent: u16)
    | FreeSlot

  predicate Answers(s: Slot, q: Query) {
    match q
    case ChildOf(parent, fid) => s.Live? && s.desc.parent == parent && s.desc.fid == fid
    case SfiUnder(df, sfi) => s.Live? && s.desc.parent == df && s.desc.IsEf() && s.desc.sfi == sfi
    case AnyChild(parent) => s.Live? && s.desc.parent == parent
    case FreeSlot => s.Free?
  }

  /** The first slot at or after `from` that answers, or the table length. */
  function First(t: seq<Slot>, q: Query, from: nat): (r: nat)
    requires from <= |t|
    ensures from <= r <= |t|
    ensures r < |t| ==> Answers(t[r], q)
    ensures forall i | from <= i < r :: !Answers(t[i], q)
    decreases |t| - from
  {
    if from == |t| || Answers(t[from], q) then from else First(t, q, from + 1)
  }

  predicate Found(t: seq<Slot>, q: Query) {
    First(t, q, 0) < |t|
  }

  lemma FoundExactly(t: seq<Slot>, q: Query)
    ensures Found(t, q) <==> exists i | 0 <= i < |t| :: Answers(t[i], q)
  {
    hide First;
  }

  /** Where only one slot answers, the scan returns it. */
  lemma FirstIsUnique(t: seq<Slot>, q: Query, i: nat)
    requires i < |t| && Answers(t[i], q)
    requires forall j | 0 <= j < |t| && Answers(t[j], q) :: j == i
    ensures First(t, q, 0) == i
  {
    hide First;
  }

  /** How many of the first n slots answer. */
  function Count(t: seq<Slot>, q: Query, n: nat): nat
    requires n <= |t|
  {
    if n == 0 then 0 else Count(t, q, n - 1) + if Answers(t[n - 1], q) then 1 else 0
  }

  lemma {:induction false} CountPositive(t: seq<Slot>, q: Query, n: nat)
    requires n <= |t|
    ensures Count(t, q, n) > 0 <==> exists i | 0 <= i < n :: Answers(t[i], q)
  {
    if n > 0 {
      CountPositive(t, q, n - 1);
    }
  }
}
